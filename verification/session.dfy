/** The compression-session controller: the session state of the page and the two handlers,
    compress and decompress, each split into the user's action that issues a gateway request and
    the later arrival of the gateway's answer. The gateway itself is an oracle: its answers are
    parameters of the resolving transitions. */
module Session {
  import opened Options
  import opened JsText
  import opened Ratio

  const InputRequired: string := "Input required."
  const InputRequiredMessage: string := "Input required. Please enter text."
  const CompressionFailed: string := "Compression failed."
  const CompressionFailedMessage: string := "Error: Compression failed. Check backend server status."
  const NoValidData: string := "No valid compressed data available!"
  const DecompressionFailed: string := "Error: Decompression failed. Check backend server status."

  /** Sizes after defaulting absent fields to 0, and the elapsed time exactly as answered. */
  datatype Stats = Stats(original: nat, compressed: nat, timeMs: Option<real>)

  /** The latest compress result. A failure carries the error and the message shown in place of
      the compressed payload; a success carries the submitted text, the payload as answered
      (possibly absent), the stats and the ratio in hundredths of a percent. */
  datatype Outcome =
    | NoResult
    | Failure(error: string, message: string)
    | Success(originalText: string, payload: Option<string>, stats: Stats, ratioHundredths: int)

  /** The gateway's answer to a compress request: its fields, each possibly absent, or a
      rejection (network error or error status). */
  datatype CompressReply =
    | Compressed(compressedB64: Option<string>, originalSize: Option<nat>,
                 compressedSize: Option<nat>, timeMs: Option<real>)
    | CompressRejected

  /** The gateway's answer to a decompress request. */
  datatype DecompressReply = Decompressed(plaintext: string) | DecompressRejected

  /** The request a transition sends to the gateway, if any. */
  datatype Call = NoCall | CompressCall(text: string) | DecompressCall(payload: string)

  /** The session: the input box, the latest outcome, the decompressed-text area, the busy
      flag, and the requests still awaiting an answer (the text each compress request submitted,
      the payload each decompress request sent), oldest first. */
  datatype State = State(
    text: string,
    outcome: Outcome,
    decompressed: string,
    loading: bool,
    compressing: seq<string>,
    decompressing: seq<string>)

  /** A transition's new state, its gateway request, and whether it assigned a new outcome
      (which re-runs the ratio animator's effect). */
  datatype Transition = Transition(next: State, call: Call, outcomeSet: bool)

  /** The state on page load: nothing is kept across reloads. */
  const Initial: State := State("", NoResult, "", false, [], [])

  /** `outcome.compressedB64` read with JavaScript truthiness: "" when absent. */
  function ShownPayload(o: Outcome): string {
    match o
    case NoResult => ""
    case Failure(_, message) => message
    case Success(_, payload, _, _) => payload.GetOr("")
  }

  /** `outcome.error` read with JavaScript truthiness: "" when absent. */
  function ErrorText(o: Outcome): string {
    if o.Failure? then o.error else ""
  }

  /** Reachable sessions: the busy flag is raised exactly while one compress request is
      outstanding, never more than one is, and every failure outcome carries an error. */
  predicate Wf(s: State) {
    && |s.compressing| <= 1
    && (s.loading <==> |s.compressing| == 1)
    && (s.outcome.Failure? ==> s.outcome.error != "")
  }

  /** Typing replaces the input text and nothing else. */
  function Edit(s: State, t: string): (tr: Transition)
    ensures tr.next.text == t && tr.call == NoCall && !tr.outcomeSet
    ensures tr.next.(text := s.text) == s
  {
    Transition(s.(text := t), NoCall, false)
  }

  /** The compress action. Whitespace-only input yields the "Input required." failure without a
      request and without touching the busy flag or the decompressed text; any other input
      raises the busy flag and submits the current text, leaving the outcome as it is. */
  function IssueCompress(s: State): (tr: Transition)
    ensures tr.call == NoCall <==> AllWhitespace(s.text)
    ensures tr.call != NoCall ==> tr.call == CompressCall(s.text)
    ensures AllWhitespace(s.text) ==>
      && tr.outcomeSet
      && tr.next == s.(outcome := Failure(InputRequired, InputRequiredMessage))
    ensures !AllWhitespace(s.text) ==>
      && !tr.outcomeSet
      && tr.next == s.(loading := true, compressing := s.compressing + [s.text])
    ensures Wf(s) && !s.loading ==> Wf(tr.next)
  {
    BlankIffAllWhitespace(s.text);
    if IsBlank(s.text) then
      Transition(s.(outcome := Failure(InputRequired, InputRequiredMessage)), NoCall, true)
    else
      Transition(s.(loading := true, compressing := s.compressing + [s.text]), CompressCall(s.text), false)
  }

  /** The answer to the oldest compress request. Either way the busy flag drops and the new
      outcome replaces the previous one. A success records the text that request submitted, the
      payload as answered, sizes defaulted to 0 when absent, the time as answered and the ratio,
      and clears the decompressed text; a rejection records "Compression failed." and leaves the
      decompressed text as it was. */
  function ResolveCompress(s: State, reply: CompressReply): (tr: Transition)
    requires |s.compressing| > 0
    ensures !tr.next.loading && tr.outcomeSet && tr.call == NoCall
    ensures tr.next.compressing == s.compressing[1..]
    ensures tr.next.text == s.text && tr.next.decompressing == s.decompressing
    ensures reply.Compressed? ==>
      && tr.next.outcome.Success?
      && tr.next.outcome.originalText == s.compressing[0]
      && tr.next.outcome.payload == reply.compressedB64
      && tr.next.outcome.stats.original == OrZero(reply.originalSize)
      && tr.next.outcome.stats.compressed == OrZero(reply.compressedSize)
      && tr.next.outcome.stats.timeMs == reply.timeMs
      && tr.next.decompressed == ""
    ensures reply.Compressed? && tr.next.outcome.stats.original > 0 ==>
      2 * Abs(tr.next.outcome.ratioHundredths * tr.next.outcome.stats.original
              - 10000 * (tr.next.outcome.stats.original - tr.next.outcome.stats.compressed))
      <= tr.next.outcome.stats.original
    ensures reply.Compressed? ==>
      tr.next.outcome.ratioHundredths
        == RatioHundredths(tr.next.outcome.stats.original, tr.next.outcome.stats.compressed)
    ensures reply.Compressed? && tr.next.outcome.stats.original == 0 ==> tr.next.outcome.ratioHundredths == 0
    ensures reply.Compressed? && reply.originalSize.None? ==> tr.next.outcome.ratioHundredths == 0
    ensures reply.Compressed? ==> tr.next.outcome.ratioHundredths <= 10000
    ensures reply.CompressRejected? ==>
      && tr.next.outcome == Failure(CompressionFailed, CompressionFailedMessage)
      && tr.next.decompressed == s.decompressed
    ensures Wf(s) ==> Wf(tr.next)
  {
    var submitted := s.compressing[0];
    var rest := s.compressing[1..];
    match reply
    case Compressed(payload, originalSize, compressedSize, timeMs) =>
      var original := OrZero(originalSize);
      var compressed := OrZero(compressedSize);
      var outcome := Success(submitted, payload, Stats(original, compressed, timeMs),
                             RatioHundredths(original, compressed));
      Transition(s.(outcome := outcome, decompressed := "", loading := false, compressing := rest),
                 NoCall, true)
    case CompressRejected =>
      Transition(s.(outcome := Failure(CompressionFailed, CompressionFailedMessage),
                    loading := false, compressing := rest),
                 NoCall, true)
  }

  /** The decompress action. Without an outcome, with an absent or empty payload, or with an
      error, it writes the guard message and sends nothing; otherwise it sends exactly the
      stored payload. It never changes the outcome, the busy flag or the compress requests. */
  function IssueDecompress(s: State): (tr: Transition)
    ensures tr.call == NoCall <==>
      !(|| (s.outcome.Success? && s.outcome.payload.Some? && s.outcome.payload.value != "")
        || (s.outcome.Failure? && s.outcome.error == "" && s.outcome.message != ""))
    ensures tr.call == NoCall ==> tr.next == s.(decompressed := NoValidData)
    ensures tr.call != NoCall ==>
      && tr.call == DecompressCall(ShownPayload(s.outcome))
      && tr.next == s.(decompressing := s.decompressing + [ShownPayload(s.outcome)])
    ensures !tr.outcomeSet
    ensures Wf(s) ==> Wf(tr.next)
  {
    if s.outcome.NoResult? || ShownPayload(s.outcome) == "" || ErrorText(s.outcome) != "" then
      Transition(s.(decompressed := NoValidData), NoCall, false)
    else
      var payload := ShownPayload(s.outcome);
      Transition(s.(decompressing := s.decompressing + [payload]), DecompressCall(payload), false)
  }

  /** The answer to the oldest decompress request: the returned plaintext, or the decompression
      error message, goes to the decompressed-text area; nothing else changes. */
  function ResolveDecompress(s: State, reply: DecompressReply): (tr: Transition)
    requires |s.decompressing| > 0
    ensures tr.next == s.(decompressed := tr.next.decompressed, decompressing := s.decompressing[1..])
    ensures reply.Decompressed? ==> tr.next.decompressed == reply.plaintext
    ensures reply.DecompressRejected? ==> tr.next.decompressed == DecompressionFailed
    ensures tr.call == NoCall && !tr.outcomeSet
    ensures Wf(s) ==> Wf(tr.next)
  {
    var text := match reply
      case Decompressed(plaintext) => plaintext
      case DecompressRejected => DecompressionFailed;
    Transition(s.(decompressed := text, decompressing := s.decompressing[1..]), NoCall, false)
  }

  /** In a reachable session the decompress guard lets exactly a success with a non-empty
      payload through: failure outcomes, though their message fills the payload slot, never
      reach the gateway. */
  lemma DecompressOnlyAfterSuccess(s: State)
    requires Wf(s)
    ensures IssueDecompress(s).call != NoCall <==>
      s.outcome.Success? && s.outcome.payload.Some? && s.outcome.payload.value != ""
  {
  }
}
