/** The page as a whole: user events and gateway answers drive the session controller, the
    buttons' `disabled` attributes gate the two actions, and every new outcome re-runs the ratio
    animator's effect. An event that cannot happen in the page's current state (a click on a
    disabled button, an answer nobody is waiting for, a tick of a cleared timer) changes nothing. */
module App {
  import opened Options
  import opened JsText
  import S = Session
  import A = RatioAnimator

  datatype Event =
    | Typed(text: string)
    | CompressClicked
    | CompressAnswered(compressReply: S.CompressReply)
    | DecompressClicked
    | DecompressAnswered(decompressReply: S.DecompressReply)
    | TimerFired(id: nat)

  datatype Page = Page(session: S.State, anim: A.Animator)

  /** A page after one event, and the gateway request the event sent. */
  datatype Effect = Effect(next: Page, call: S.Call)

  const Initial: Page := Page(S.Initial, A.Initial)

  /** The animator's view of an outcome: `lastResult && lastResult.ratio !== undefined`. */
  function RatioOf(o: S.Outcome): (r: Option<int>)
    ensures r.Some? <==> o.Success?
    ensures o.Success? ==> r.value == o.ratioHundredths
  {
    if o.Success? then Some(o.ratioHundredths) else None
  }

  /** The compress button is disabled while a compression is in progress. */
  predicate CompressEnabled(p: Page) {
    !p.session.loading
  }

  /** The decompress button is disabled without an outcome or while a compression is in
      progress. */
  predicate DecompressEnabled(p: Page) {
    !p.session.outcome.NoResult? && !p.session.loading
  }

  /** The animation heads for the current outcome: with a success every live interval counts
      towards its ratio; otherwise no interval is live and the display reads 0. */
  predicate InSync(p: Page) {
    && (p.session.outcome.Success? ==>
          forall id :: id in p.anim.live ==> p.anim.live[id].target == p.session.outcome.ratioHundredths)
    && (!p.session.outcome.Success? ==> p.anim.live == map[] && p.anim.shown == 0)
  }

  predicate Wf(p: Page) {
    S.Wf(p.session) && A.Wf(p.anim) && InSync(p)
  }

  /** Commits a controller transition; a newly assigned outcome re-runs the animator's effect. */
  function Commit(p: Page, tr: S.Transition): (e: Effect)
    requires A.Wf(p.anim)
    ensures e.next.session == tr.next && e.call == tr.call
    ensures !tr.outcomeSet ==> e.next.anim == p.anim
  {
    var anim := if tr.outcomeSet then A.Restart(p.anim, RatioOf(tr.next.outcome)) else p.anim;
    Effect(Page(tr.next, anim), tr.call)
  }

  /** One event. */
  function Step(p: Page, e: Event): (r: Effect)
    requires A.Wf(p.anim)
    ensures Wf(p) ==> Wf(r.next)
    ensures r.next.session.loading && !p.session.loading ==>
      e == CompressClicked && r.call == S.CompressCall(p.session.text)
    ensures p.session.loading && e == CompressClicked ==> r == Effect(p, S.NoCall)
    ensures !e.CompressAnswered? && !e.CompressClicked? ==> r.next.session.outcome == p.session.outcome
    ensures e.DecompressClicked? || e.DecompressAnswered? ==> r.next.session.loading == p.session.loading
    ensures r.call != S.NoCall ==> e == CompressClicked || e == DecompressClicked
    ensures e == CompressClicked ==>
      (r.call != S.NoCall <==> CompressEnabled(p) && !AllWhitespace(p.session.text))
    ensures r.call.CompressCall? ==> r.call == S.CompressCall(p.session.text)
    ensures e == DecompressClicked && !DecompressEnabled(p) ==> r == Effect(p, S.NoCall)
    ensures e == DecompressClicked && DecompressEnabled(p) && p.session.outcome.Success?
            && p.session.outcome.payload.Some? && p.session.outcome.payload.value != "" ==>
      r.call == S.DecompressCall(p.session.outcome.payload.value)
    ensures Wf(p) && e == DecompressClicked && r.call != S.NoCall ==>
      && !p.session.loading && p.session.outcome.Success? && p.session.outcome.payload.Some?
      && r.call == S.DecompressCall(p.session.outcome.payload.value)
  {
    var s := p.session;
    match e
      case Typed(t) => Commit(p, S.Edit(s, t))
      case CompressClicked =>
        if CompressEnabled(p) then Commit(p, S.IssueCompress(s)) else Effect(p, S.NoCall)
      case CompressAnswered(reply) =>
        if |s.compressing| > 0 then Commit(p, S.ResolveCompress(s, reply)) else Effect(p, S.NoCall)
      case DecompressClicked =>
        if DecompressEnabled(p) then Commit(p, S.IssueDecompress(s)) else Effect(p, S.NoCall)
      case DecompressAnswered(reply) =>
        if |s.decompressing| > 0 then Commit(p, S.ResolveDecompress(s, reply)) else Effect(p, S.NoCall)
      case TimerFired(id) =>
        if id in p.anim.live then Effect(p.(anim := A.Fire(p.anim, id)), S.NoCall) else Effect(p, S.NoCall)
  }

  /** The page after a sequence of events. */
  function Run(p: Page, events: seq<Event>): (q: Page)
    requires Wf(p)
    ensures Wf(q)
    decreases |events|
  {
    if events == [] then p else Run(Step(p, events[0]).next, events[1..])
  }

  /** Every page reachable from the initial one is well formed: at most one compression is in
      flight, the busy flag is raised exactly while it is, at most one animation timer is live,
      and the animation always heads for the current outcome's ratio. */
  lemma Reachable(events: seq<Event>)
    ensures var q := Run(Initial, events);
            && |q.session.compressing| <= 1
            && (q.session.loading <==> |q.session.compressing| == 1)
            && |q.anim.live| <= 1
            && InSync(q)
  {
    A.AtMostOneTimer(Run(Initial, events).anim);
  }

  /** With a gateway that answers, a non-blank text goes through a full cycle: the text is
      submitted, the payload returned for it is exactly what the decompress request sends back,
      and the decompress answer is what the page shows. With a gateway whose decompression
      inverts its compression the page shows the original text. */
  lemma CompressThenDecompress(p: Page, payload: string, originalSize: Option<nat>,
                               compressedSize: Option<nat>, timeMs: Option<real>,
                               answer: S.DecompressReply)
    requires Wf(p) && !p.session.loading && p.session.decompressing == []
    requires !AllWhitespace(p.session.text) && payload != ""
    ensures
      var e1 := Step(p, CompressClicked);
      var e2 := Step(e1.next, CompressAnswered(S.Compressed(Some(payload), originalSize, compressedSize, timeMs)));
      var e3 := Step(e2.next, DecompressClicked);
      var e4 := Step(e3.next, DecompressAnswered(answer));
      && e1.call == S.CompressCall(p.session.text)
      && e1.next.session.loading
      && !e2.next.session.loading
      && e2.next.session.outcome.Success?
      && e2.next.session.outcome.originalText == p.session.text
      && e2.next.session.decompressed == ""
      && e3.call == S.DecompressCall(payload)
      && e4.next.session.outcome == e2.next.session.outcome
      && (answer.Decompressed? ==> e4.next.session.decompressed == answer.plaintext)
      && (answer.DecompressRejected? ==> e4.next.session.decompressed == S.DecompressionFailed)
  {
  }

  /** The outcome records the text as it was when compress was clicked, even when the user edits
      the input before the answer arrives. */
  lemma SubmittedTextIsRecorded(p: Page, edited: string, reply: S.CompressReply)
    requires Wf(p) && !p.session.loading && !AllWhitespace(p.session.text) && reply.Compressed?
    ensures
      var e1 := Step(p, CompressClicked);
      var e2 := Step(e1.next, Typed(edited));
      var e3 := Step(e2.next, CompressAnswered(reply));
      e3.next.session.outcome.originalText == p.session.text && e3.next.session.text == edited
  {
  }

  /** A decompress answer that arrives after a newer compression succeeded overwrites the cleared
      decompressed text: decompression does not hold the compress button, and answers carry no
      request generation, so the plaintext of an earlier payload stands next to a newer outcome. */
  lemma StaleDecompressionCanSurvive(p: Page, reply: S.CompressReply, plaintext: string)
    requires Wf(p) && !p.session.loading && p.session.decompressing == []
    requires p.session.outcome.Success? && p.session.outcome.payload.Some?
    requires p.session.outcome.payload.value != ""
    requires !AllWhitespace(p.session.text) && reply.Compressed?
    ensures
      var e1 := Step(p, DecompressClicked);
      var e2 := Step(e1.next, CompressClicked);
      var e3 := Step(e2.next, CompressAnswered(reply));
      var e4 := Step(e3.next, DecompressAnswered(S.Decompressed(plaintext)));
      && e1.call == S.DecompressCall(p.session.outcome.payload.value)
      && e2.call == S.CompressCall(p.session.text)
      && e3.next.session.decompressed == ""
      && e4.next.session.outcome == e3.next.session.outcome
      && e4.next.session.outcome.originalText == p.session.text
      && e4.next.session.decompressed == plaintext
  {
    var e1 := Step(p, DecompressClicked);
    DecompressClickQueues(p);
    var e2 := Step(e1.next, CompressClicked);
    CompressClickQueues(e1.next);
    var e3 := Step(e2.next, CompressAnswered(reply));
    CompressAnswerKeepsDecompressQueue(e2.next, reply);
    DecompressAnswerShows(e3.next, plaintext);
  }

  /** On an idle page holding a success with a payload, a decompress click queues that payload
      and changes nothing else. */
  lemma DecompressClickQueues(p: Page)
    requires Wf(p) && !p.session.loading
    requires p.session.outcome.Success? && p.session.outcome.payload.Some?
    requires p.session.outcome.payload.value != ""
    ensures var v := p.session.outcome.payload.value;
            Step(p, DecompressClicked)
              == Effect(p.(session := p.session.(decompressing := p.session.decompressing + [v])),
                        S.DecompressCall(v))
  {
  }

  /** On an idle page with non-blank input, a compress click raises the busy flag and queues the
      input text, leaving the decompress requests, the outcome and the running animation alone. */
  lemma CompressClickQueues(p: Page)
    requires Wf(p) && !p.session.loading && !AllWhitespace(p.session.text)
    ensures var e := Step(p, CompressClicked);
            && e.call == S.CompressCall(p.session.text)
            && e.next.session
               == p.session.(loading := true, compressing := p.session.compressing + [p.session.text])
            && e.next.anim == p.anim
  {
  }

  /** A successful compress answer records the oldest submitted text and clears the decompressed
      text, but leaves outstanding decompress requests in place. */
  lemma CompressAnswerKeepsDecompressQueue(p: Page, reply: S.CompressReply)
    requires Wf(p) && |p.session.compressing| > 0 && reply.Compressed?
    ensures var q := Step(p, CompressAnswered(reply)).next.session;
            && q.decompressing == p.session.decompressing
            && q.decompressed == ""
            && q.outcome.Success? && q.outcome.originalText == p.session.compressing[0]
  {
  }

  /** A decompress answer, whenever it arrives, shows its plaintext and keeps the outcome. */
  lemma DecompressAnswerShows(p: Page, plaintext: string)
    requires Wf(p) && |p.session.decompressing| > 0
    ensures var q := Step(p, DecompressAnswered(S.Decompressed(plaintext))).next.session;
            q.decompressed == plaintext && q.outcome == p.session.outcome
  {
  }

  /** A successful answer re-arms the animation but leaves the display where the previous
      outcome's animation left it until the new interval first fires; only an outcome without a
      ratio resets it to 0 at once. */
  lemma DisplayHoldsUntilFirstTick(p: Page, reply: S.CompressReply)
    requires Wf(p) && |p.session.compressing| > 0
    ensures var q := Step(p, CompressAnswered(reply)).next;
            && (reply.Compressed? ==> q.anim.shown == p.anim.shown && |q.anim.live| == 1)
            && (reply.CompressRejected? ==> q.anim.shown == 0 && q.anim.live == map[])
  {
  }
}
