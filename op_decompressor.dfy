/** The op decompressor of the container runtime's op lifecycle: a state
    machine that receives sequenced op messages one at a time and "unrolls"
    compressed batches. The first message of a compressed batch carries the
    packed contents of the whole batch; decoding them gives an array whose
    k-th element becomes the contents of the k-th message of the batch. */
module OpLifecycle {
  import opened Wrappers
  import opened JsValues

  /** A sequenced document message. `fields` holds every property other than
      the three the decompressor reads or writes (sequence number, client id,
      type, ...); they are copied unchanged. `metadata` is None when the
      message has no metadata object. */
  datatype Message = Message(
    contents: JsValue,
    compression: JsValue,
    metadata: Option<JsObject>,
    fields: JsObject)

  /** `CompressionAlgorithms.lz4`, the only supported compression algorithm. */
  const Lz4: JsValue := Str("lz4")

  /** `message.metadata?.key` */
  function Meta(m: Message, key: string): JsValue {
    match m.metadata
    case None => Undefined
    case Some(md) => Get(md, key)
  }

  /** The first message of a compressed batch: batch metadata `true`, and either
      the legacy `compressed` flag or the top-level `compression` property set. */
  predicate StartsCompressedBatch(m: Message) {
    Meta(m, "batch") == Bool(true) && (Truthy(Meta(m, "compressed")) || m.compression != Undefined)
  }

  /** A start message whose algorithm is accepted: none named, or lz4. */
  predicate SupportedCompression(m: Message) {
    !Truthy(m.compression) || m.compression == Lz4
  }

  /** An individually compressed op: no batch metadata, and the `compressed`
      flag set or lz4 compression. */
  predicate IsSingleCompressed(m: Message) {
    Meta(m, "batch") == Undefined && (Truthy(Meta(m, "compressed")) || m.compression == Lz4)
  }

  /** A message in the middle of a compressed batch: no batch metadata and no contents. */
  predicate IsContinuation(m: Message) {
    Meta(m, "batch") == Undefined && m.contents == Undefined
  }

  /** The last message of a batch. */
  predicate EndsBatch(m: Message) {
    Meta(m, "batch") == Bool(false)
  }

  datatype ProcessingState = Accepted | Processed | Skipped

  datatype ProcessingResult = ProcessingResult(message: Message, state: ProcessingState)

  /** The assertion failures and exceptions of `processMessage`. */
  datatype Error =
    | MultipleActiveBatches     // assertion 0x4b8
    | UnsupportedCompression    // assertion 0x4b9
    | ExpectingEmptyMessage     // assertion "Expecting empty message"
    | CompressedMessageInBatch  // assertion 0x4ba
    | DecodeFailed              // base64, lz4 or JSON decoding threw
    | NullContents              // TypeError: reading an element of `null` contents

  /** The value `JSON.parse` gives for the packed contents, as far as indexing
      it can tell: `null`, on which `x[k]` throws, or a value whose `x[k]` is
      the k-th item (`undefined` past the end). An array gives its elements, a
      string its one-character strings, an object the values of its index
      keys (`undefined` at gaps), a number or a boolean no items. */
  datatype Decoded = JsonNull | Indexable(items: seq<JsValue>)

  /** Decoding of a message's packed contents (base64, then lz4, then UTF-8,
      then JSON): the decoded value, or None when a step of it throws. */
  type Unpacker = JsValue -> Option<Decoded>

  /** `x[k]` in JavaScript for an indexable `x`: `undefined` past the end. */
  function ElementAt(arr: seq<JsValue>, k: nat): JsValue {
    if k < |arr| then arr[k] else Undefined
  }

  // ---------------------------------------------------------------------------
  // Copying a message and removing its compression markers
  // ---------------------------------------------------------------------------

  /** `stripCompressionMarkers` as written: `compressed` is assigned
      `undefined`, which keeps the key, so the emptiness test that follows
      never succeeds and the metadata is kept. */
  function StripCompressionMarkersAsWritten(m: Message): (r: Message)
    ensures r.contents == m.contents && r.fields == m.fields
    ensures r.compression == Undefined
    ensures Meta(m, "compressed") == Bool(true) ==>
      r.metadata == Some(m.metadata.value["compressed" := Undefined])
    ensures Meta(m, "compressed") != Bool(true) ==> r.metadata == m.metadata
  {
    var cleared := m.(compression := Undefined);
    if Meta(cleared, "compressed") == Bool(true) then
      var md := cleared.metadata.value["compressed" := Undefined];
      assert "compressed" in md;
      if |md| == 0 then cleared.(metadata := None) else cleared.(metadata := Some(md))
    else
      cleared
  }

  /** The as-written version keeps the `compressed` key in every message whose
      flag was `true`, so its emptiness test never succeeds. */
  lemma StripAsWrittenNeverDropsMetadata(m: Message)
    requires Meta(m, "compressed") == Bool(true)
    ensures var r := StripCompressionMarkersAsWritten(m);
      r.metadata.Some? && "compressed" in r.metadata.value && |r.metadata.value| >= 1
  {
  }

  /** A message whose only metadata is `compressed: true`: as written its
      metadata becomes `{compressed: undefined}` instead of disappearing. */
  lemma StripAsWrittenKeepsEmptiedMetadata()
    ensures var m := Message(Undefined, Undefined, Some(map["compressed" := Bool(true)]), map[]);
      StripCompressionMarkersAsWritten(m).metadata == Some(map["compressed" := Undefined]) &&
      StripCompressionMarkers(m).metadata == None
  {
    var m := Message(Undefined, Undefined, Some(map["compressed" := Bool(true)]), map[]);
    assert Meta(m, "compressed") == Bool(true);
    assert m.metadata.value["compressed" := Undefined] == map["compressed" := Undefined];
    assert m.metadata.value - {"compressed"} == map[];
  }

  /** `stripCompressionMarkers` as intended (the `compressed` key deleted):
      the top-level `compression` is cleared, a `true` compressed flag is
      removed, and metadata left with no keys is dropped. */
  function StripCompressionMarkers(m: Message): (r: Message)
    ensures r.contents == m.contents && r.fields == m.fields
    ensures r.compression == Undefined
    ensures Meta(r, "compressed") != Bool(true)
    ensures forall k :: k != "compressed" ==> Meta(r, k) == Meta(m, k)
    ensures Meta(m, "compressed") != Bool(true) ==> r.metadata == m.metadata
    ensures r.metadata.None? <==>
      m.metadata.None? || (Meta(m, "compressed") == Bool(true) && m.metadata.value.Keys == {"compressed"})
    ensures Meta(m, "compressed") == Bool(true) && r.metadata.Some? ==>
      r.metadata.value == m.metadata.value - {"compressed"}
  {
    var cleared := m.(compression := Undefined);
    if Meta(cleared, "compressed") == Bool(true) then
      var md := cleared.metadata.value - {"compressed"};
      assert md.Keys == m.metadata.value.Keys - {"compressed"};
      if |md| == 0 then cleared.(metadata := None) else cleared.(metadata := Some(md))
    else
      cleared
  }

  /** `newMessage`, as the source runs it (with the as-written strip): a copy
      of `original` with new contents, with a fresh copy of its metadata (an
      empty object when it had none), `compression` cleared and a `true`
      compressed flag set to `undefined`. The copy always has metadata, with
      exactly the original's keys. The original is a value and is not changed. */
  function NewMessage(original: Message, contents: JsValue): (r: Message)
    ensures r.contents == contents && r.fields == original.fields
    ensures r.compression == Undefined
    ensures r.metadata.Some? && r.metadata.value.Keys == original.metadata.GetOr(map[]).Keys
    ensures Meta(r, "compressed") != Bool(true)
    ensures forall k :: k != "compressed" ==> Meta(r, k) == Meta(original, k)
    ensures Meta(original, "compressed") == Bool(true) ==>
      r.metadata.value == original.metadata.value["compressed" := Undefined]
    ensures Meta(original, "compressed") != Bool(true) ==>
      r.metadata == Some(original.metadata.GetOr(map[]))
  {
    StripCompressionMarkersAsWritten(original.(contents := contents, metadata := Some(original.metadata.GetOr(map[]))))
  }

  /** `newMessage` with the corrected strip: the `compressed: true` flag is
      deleted, and metadata left with no keys is dropped. */
  function NewMessageCorrected(original: Message, contents: JsValue): (r: Message)
    ensures r.contents == contents && r.fields == original.fields
    ensures r.compression == Undefined
    ensures Meta(r, "compressed") != Bool(true)
    ensures forall k :: k != "compressed" ==> Meta(r, k) == Meta(original, k)
    ensures r.metadata.None? <==>
      Meta(original, "compressed") == Bool(true) && original.metadata.value.Keys == {"compressed"}
    ensures Meta(original, "compressed") == Bool(true) && r.metadata.Some? ==>
      r.metadata.value == original.metadata.value - {"compressed"}
    ensures Meta(original, "compressed") != Bool(true) ==>
      r.metadata == Some(original.metadata.GetOr(map[]))
  {
    StripCompressionMarkers(original.(contents := contents, metadata := Some(original.metadata.GetOr(map[]))))
  }

  /** The two versions of `newMessage` read the same value for every property
      and metadata key. They differ only when the flag was `true`: then the
      as-written copy keeps the key `compressed` (as `undefined`), while the
      corrected copy lacks it, or has no metadata when it was the only key. */
  lemma NewMessageVersionsAgree(original: Message, contents: JsValue)
    ensures var a := NewMessage(original, contents);
      var c := NewMessageCorrected(original, contents);
      && a.contents == c.contents && a.compression == c.compression && a.fields == c.fields
      && (forall k :: Meta(a, k) == Meta(c, k))
      && (a.metadata == c.metadata <==> Meta(original, "compressed") != Bool(true))
      && (Meta(original, "compressed") == Bool(true) ==>
            && "compressed" in a.metadata.value
            && (c.metadata.None? <==> a.metadata.value.Keys == {"compressed"})
            && (c.metadata.Some? ==> c.metadata.value == a.metadata.value - {"compressed"}))
  {
    var a := NewMessage(original, contents);
    var c := NewMessageCorrected(original, contents);
    if Meta(original, "compressed") == Bool(true) {
      assert "compressed" in a.metadata.value;
      if c.metadata.Some? {
        assert "compressed" !in c.metadata.value;
      }
    }
  }

  // ---------------------------------------------------------------------------
  // The state machine
  // ---------------------------------------------------------------------------

  /** The three fields of the decompressor. `rootMessageContents` is None
      while it is `undefined`. */
  datatype DecompressorState = DecompressorState(
    activeBatch: bool,
    rootMessageContents: Option<Decoded>,
    processedCount: nat)

  /** The state of a freshly constructed decompressor. */
  const Initial := DecompressorState(false, None, 0)

  /** What every call preserves, on every path: held contents imply an active
      batch, and the count is zero outside a batch. */
  predicate WellFormed(s: DecompressorState) {
    && (s.rootMessageContents.Some? ==> s.activeBatch)
    && (!s.activeBatch ==> s.processedCount == 0)
  }

  /** The intended invariant: a batch is active exactly when its contents are
      held. Every call preserves it except a batch start whose decoding
      throws, which leaves an active batch without contents. */
  predicate Consistent(s: DecompressorState) {
    WellFormed(s) && (s.activeBatch <==> s.rootMessageContents.Some?)
  }

  /** None of the four rules of `processMessage` applies to `m`. */
  predicate NoRuleApplies(s: DecompressorState, m: Message) {
    && !StartsCompressedBatch(m)
    && !(s.rootMessageContents.Some? && Meta(m, "batch") == Undefined && s.activeBatch)
    && !(s.rootMessageContents.Some? && EndsBatch(m))
    && !IsSingleCompressed(m)
  }

  datatype StepOutcome = StepOutcome(result: Result<ProcessingResult, Error>, next: DecompressorState)

  /** One call of `processMessage` in state `s`: its result (or the error it
      throws) and the state it leaves behind. Reading element `processedCount`
      increments the count before the read can throw on `null` contents. */
  function Step(s: DecompressorState, m: Message, unpack: Unpacker): (o: StepOutcome)
    ensures WellFormed(s) ==> WellFormed(o.next)
  {
    if StartsCompressedBatch(m) then
      if s.activeBatch then
        StepOutcome(Err(MultipleActiveBatches), s)
      else if !SupportedCompression(m) then
        StepOutcome(Err(UnsupportedCompression), s)
      else
        match unpack(m.contents)
        case None => StepOutcome(Err(DecodeFailed), s.(activeBatch := true))
        case Some(d) =>
          var next := DecompressorState(true, Some(d), s.processedCount + 1);
          match d
          case JsonNull => StepOutcome(Err(NullContents), next)
          case Indexable(arr) =>
            StepOutcome(Ok(ProcessingResult(NewMessage(m, ElementAt(arr, s.processedCount)), Accepted)), next)
    else if s.rootMessageContents.Some? && Meta(m, "batch") == Undefined && s.activeBatch then
      if m.contents != Undefined then
        StepOutcome(Err(ExpectingEmptyMessage), s)
      else
        var next := s.(processedCount := s.processedCount + 1);
        match s.rootMessageContents.value
        case JsonNull => StepOutcome(Err(NullContents), next)
        case Indexable(arr) =>
          StepOutcome(Ok(ProcessingResult(NewMessage(m, ElementAt(arr, s.processedCount)), Accepted)), next)
    else if s.rootMessageContents.Some? && EndsBatch(m) then
      match s.rootMessageContents.value
      case JsonNull => StepOutcome(Err(NullContents), s.(processedCount := s.processedCount + 1))
      case Indexable(arr) =>
        StepOutcome(Ok(ProcessingResult(NewMessage(m, ElementAt(arr, s.processedCount)), Processed)), Initial)
    else if IsSingleCompressed(m) then
      if s.activeBatch then
        StepOutcome(Err(CompressedMessageInBatch), s)
      else
        match unpack(m.contents)
        case None => StepOutcome(Err(DecodeFailed), s)
        case Some(JsonNull) => StepOutcome(Err(NullContents), s)
        case Some(Indexable(arr)) =>
          StepOutcome(Ok(ProcessingResult(NewMessage(m, ElementAt(arr, 0)), Processed)), s)
    else
      StepOutcome(Ok(ProcessingResult(m, Skipped)), s)
  }

  /** An error changes nothing, except that a batch start whose decoding
      throws has already marked the batch active, and that a read from `null`
      contents has already stored them and incremented the count. */
  lemma StepErrorKeepsState(s: DecompressorState, m: Message, unpack: Unpacker)
    requires Step(s, m, unpack).result.Err?
    ensures var o := Step(s, m, unpack);
      || o.next == s
      || (o.result.error == DecodeFailed && StartsCompressedBatch(m) && o.next == s.(activeBatch := true))
      || (o.result.error == NullContents &&
          o.next == DecompressorState(s.activeBatch || StartsCompressedBatch(m), Some(JsonNull), s.processedCount + 1))
  {
  }

  /** Every message produced, as opposed to passed through, is a copy of the
      one received without compression markers and with its other fields. */
  lemma StepOutputStripped(s: DecompressorState, m: Message, unpack: Unpacker)
    requires Step(s, m, unpack).result.Ok? && Step(s, m, unpack).result.value.state != Skipped
    ensures var r := Step(s, m, unpack).result.value.message;
      && r.compression == Undefined && Meta(r, "compressed") != Bool(true) && r.fields == m.fields
      && r.metadata.Some? && (forall k :: k != "compressed" ==> Meta(r, k) == Meta(m, k))
  {
  }

  /** Every call other than a batch start whose decoding throws keeps the
      intended invariant. */
  lemma StepPreservesConsistent(s: DecompressorState, m: Message, unpack: Unpacker)
    requires Consistent(s)
    ensures !(StartsCompressedBatch(m) && Step(s, m, unpack).result == Err(DecodeFailed)) ==>
      Consistent(Step(s, m, unpack).next)
  {
  }

  /** A batch start whose decoding throws leaves an active batch without
      contents, which breaks the intended invariant. */
  lemma StepDecodeFailureBreaksConsistent(s: DecompressorState, m: Message, unpack: Unpacker)
    requires Consistent(s) && !s.activeBatch
    requires StartsCompressedBatch(m) && SupportedCompression(m) && unpack(m.contents).None?
    ensures Step(s, m, unpack) == StepOutcome(Err(DecodeFailed), s.(activeBatch := true))
    ensures !Consistent(Step(s, m, unpack).next)
  {
  }

  /** A second batch start during an active batch, and a start naming an
      algorithm other than lz4, are rejected without any change. */
  lemma StepRejectsBatchStart(s: DecompressorState, m: Message, unpack: Unpacker)
    requires StartsCompressedBatch(m)
    ensures s.activeBatch ==> Step(s, m, unpack) == StepOutcome(Err(MultipleActiveBatches), s)
    ensures !s.activeBatch && !SupportedCompression(m) ==>
      Step(s, m, unpack) == StepOutcome(Err(UnsupportedCompression), s)
  {
  }

  /** An accepted batch start holds the decoded value and counts the message.
      It gets element `processedCount` (0 in a well-formed state), or throws
      when the contents decode to `null`. */
  lemma StepBatchStart(s: DecompressorState, m: Message, d: Decoded, unpack: Unpacker)
    requires !s.activeBatch && StartsCompressedBatch(m) && SupportedCompression(m)
    requires unpack(m.contents) == Some(d)
    ensures Step(s, m, unpack).next == DecompressorState(true, Some(d), s.processedCount + 1)
    ensures d.Indexable? ==>
      Step(s, m, unpack).result == Ok(ProcessingResult(NewMessage(m, ElementAt(d.items, s.processedCount)), Accepted))
    ensures d.JsonNull? ==> Step(s, m, unpack).result == Err(NullContents)
  {
  }

  /** Inside a batch whose contents are held, a message without batch
      metadata must have no contents; then it gets the next element. */
  lemma StepContinuation(s: DecompressorState, m: Message, unpack: Unpacker)
    requires s.activeBatch && s.rootMessageContents.Some? && Meta(m, "batch") == Undefined
    ensures m.contents != Undefined ==> Step(s, m, unpack) == StepOutcome(Err(ExpectingEmptyMessage), s)
    ensures m.contents == Undefined ==> Step(s, m, unpack).next == s.(processedCount := s.processedCount + 1)
    ensures m.contents == Undefined && s.rootMessageContents.value.Indexable? ==>
      Step(s, m, unpack).result == Ok(ProcessingResult(
        NewMessage(m, ElementAt(s.rootMessageContents.value.items, s.processedCount)), Accepted))
    ensures m.contents == Undefined && s.rootMessageContents.value.JsonNull? ==>
      Step(s, m, unpack).result == Err(NullContents)
  {
  }

  /** The end of a batch gets the next element and resets all three fields;
      with `null` contents the read throws after counting, and nothing is reset. */
  lemma StepBatchEnd(s: DecompressorState, m: Message, unpack: Unpacker)
    requires s.rootMessageContents.Some? && EndsBatch(m)
    ensures s.rootMessageContents.value.Indexable? ==> Step(s, m, unpack) == StepOutcome(
      Ok(ProcessingResult(NewMessage(m, ElementAt(s.rootMessageContents.value.items, s.processedCount)), Processed)),
      Initial)
    ensures s.rootMessageContents.value.JsonNull? ==>
      Step(s, m, unpack) == StepOutcome(Err(NullContents), s.(processedCount := s.processedCount + 1))
  {
  }

  /** A single compressed op outside a batch gets element 0 and changes
      nothing; inside a batch it is an error and changes nothing. */
  lemma StepSingleCompressed(s: DecompressorState, m: Message, unpack: Unpacker)
    requires IsSingleCompressed(m)
    ensures !s.activeBatch && unpack(m.contents).Some? && unpack(m.contents).value.Indexable? ==>
      Step(s, m, unpack) == StepOutcome(
        Ok(ProcessingResult(NewMessage(m, ElementAt(unpack(m.contents).value.items, 0)), Processed)), s)
    ensures !s.activeBatch && unpack(m.contents) == Some(JsonNull) ==>
      Step(s, m, unpack) == StepOutcome(Err(NullContents), s)
    ensures !s.activeBatch && unpack(m.contents).None? ==>
      Step(s, m, unpack) == StepOutcome(Err(DecodeFailed), s)
    ensures s.activeBatch && s.rootMessageContents.None? ==>
      Step(s, m, unpack) == StepOutcome(Err(CompressedMessageInBatch), s)
    ensures s.activeBatch && s.rootMessageContents.Some? && m.contents != Undefined ==>
      Step(s, m, unpack) == StepOutcome(Err(ExpectingEmptyMessage), s)
  {
  }

  /** Exactly the messages no rule applies to are skipped, and they are
      passed through as they are with no change of state. */
  lemma StepSkipped(s: DecompressorState, m: Message, unpack: Unpacker)
    ensures (Step(s, m, unpack).result.Ok? && Step(s, m, unpack).result.value.state == Skipped)
      <==> NoRuleApplies(s, m)
    ensures NoRuleApplies(s, m) ==> Step(s, m, unpack) == StepOutcome(Ok(ProcessingResult(m, Skipped)), s)
  {
  }

  datatype RunOutcome = RunOutcome(results: seq<Result<ProcessingResult, Error>>, final: DecompressorState)

  /** Successive calls of `processMessage` on `msgs`, starting in state `s`. */
  function Run(s: DecompressorState, msgs: seq<Message>, unpack: Unpacker): (o: RunOutcome)
    ensures |o.results| == |msgs|
    ensures WellFormed(s) ==> WellFormed(o.final)
    decreases |msgs|
  {
    if msgs == [] then
      RunOutcome([], s)
    else
      var first := Step(s, msgs[0], unpack);
      var rest := Run(first.next, msgs[1..], unpack);
      RunOutcome([first.result] + rest.results, rest.final)
  }

  /** Processing `a + b` is processing `a`, then `b` from where `a` left off. */
  lemma {:induction false} RunAppend(s: DecompressorState, a: seq<Message>, b: seq<Message>, unpack: Unpacker)
    ensures var ra := Run(s, a, unpack);
      var rb := Run(ra.final, b, unpack);
      Run(s, a + b, unpack) == RunOutcome(ra.results + rb.results, rb.final)
    decreases |a|
  {
    if a != [] {
      assert (a + b)[0] == a[0];
      assert (a + b)[1..] == a[1..] + b;
      RunAppend(Step(s, a[0], unpack).next, a[1..], b, unpack);
    } else {
      assert a + b == b;
    }
  }

  lemma RunCons(s: DecompressorState, msgs: seq<Message>, unpack: Unpacker)
    requires msgs != []
    ensures var first := Step(s, msgs[0], unpack);
      var rest := Run(first.next, msgs[1..], unpack);
      Run(s, msgs, unpack) == RunOutcome([first.result] + rest.results, rest.final)
  {
  }

  lemma {:induction false} ContinuationsFinal(arr: seq<JsValue>, k: nat, conts: seq<Message>, unpack: Unpacker)
    requires forall i :: 0 <= i < |conts| ==> IsContinuation(conts[i])
    ensures Run(DecompressorState(true, Some(Indexable(arr)), k), conts, unpack).final == DecompressorState(true, Some(Indexable(arr)), k + |conts|)
    decreases |conts|
  {
    if conts != [] {
      var s := DecompressorState(true, Some(Indexable(arr)), k);
      StepContinuation(s, conts[0], unpack);
      RunCons(s, conts, unpack);
      ContinuationsFinal(arr, k + 1, conts[1..], unpack);
    }
  }

  /** Once a batch start has stored `null` contents, the decompressor keeps
      them for good: whatever messages follow, it stays active with `null`
      contents and never returns to the initial state. */
  lemma {:induction false} NullContentsStayActive(c: nat, msgs: seq<Message>, unpack: Unpacker)
    ensures var o := Run(DecompressorState(true, Some(JsonNull), c), msgs, unpack);
      o.final.activeBatch && o.final.rootMessageContents == Some(JsonNull)
    decreases |msgs|
  {
    if msgs != [] {
      var s := DecompressorState(true, Some(JsonNull), c);
      var first := Step(s, msgs[0], unpack);
      assert first.next == DecompressorState(true, Some(JsonNull), first.next.processedCount);
      RunCons(s, msgs, unpack);
      NullContentsStayActive(first.next.processedCount, msgs[1..], unpack);
    }
  }

  /** With `null` contents held, every continuation or end of the batch
      throws, and so does every further compressed batch start (0x4b8), so the
      batch can never end. A single compressed op has no batch metadata and is
      taken as a continuation, which throws as well. */
  lemma {:induction false} NullContentsBlockBatch(c: nat, msgs: seq<Message>, unpack: Unpacker)
    requires forall i :: 0 <= i < |msgs| ==>
      Meta(msgs[i], "batch") == Undefined || EndsBatch(msgs[i]) || StartsCompressedBatch(msgs[i])
    ensures var o := Run(DecompressorState(true, Some(JsonNull), c), msgs, unpack);
      forall i :: 0 <= i < |msgs| ==> o.results[i].Err?
    decreases |msgs|
  {
    if msgs != [] {
      var s := DecompressorState(true, Some(JsonNull), c);
      var first := Step(s, msgs[0], unpack);
      assert first.result.Err?;
      assert first.next == DecompressorState(true, Some(JsonNull), first.next.processedCount);
      RunCons(s, msgs, unpack);
      assert forall i :: 0 <= i < |msgs[1..]| ==> msgs[1..][i] == msgs[i + 1];
      NullContentsBlockBatch(first.next.processedCount, msgs[1..], unpack);
    }
  }

  /** The results a run of continuations should give when it starts after `k`
      processed messages: Accepted copies carrying elements k, k + 1, ... */
  function Unrolled(conts: seq<Message>, arr: seq<JsValue>, k: nat): (r: seq<Result<ProcessingResult, Error>>)
    ensures |r| == |conts|
    decreases |conts|
  {
    if conts == [] then []
    else [Ok(ProcessingResult(NewMessage(conts[0], ElementAt(arr, k)), Accepted))] + Unrolled(conts[1..], arr, k + 1)
  }

  lemma {:induction false} UnrolledAt(conts: seq<Message>, arr: seq<JsValue>, k: nat, i: nat)
    requires i < |conts|
    ensures Unrolled(conts, arr, k)[i] == Ok(ProcessingResult(NewMessage(conts[i], ElementAt(arr, k + i)), Accepted))
    decreases i
  {
    if i > 0 {
      UnrolledAt(conts[1..], arr, k + 1, i - 1);
      assert conts[1..][i - 1] == conts[i];
    }
  }

  lemma {:induction false} ContinuationsUnroll(arr: seq<JsValue>, k: nat, conts: seq<Message>, unpack: Unpacker)
    requires forall i :: 0 <= i < |conts| ==> IsContinuation(conts[i])
    ensures Run(DecompressorState(true, Some(Indexable(arr)), k), conts, unpack).results == Unrolled(conts, arr, k)
    decreases |conts|
  {
    if conts != [] {
      var s := DecompressorState(true, Some(Indexable(arr)), k);
      StepContinuation(s, conts[0], unpack);
      RunCons(s, conts, unpack);
      ContinuationsUnroll(arr, k + 1, conts[1..], unpack);
    }
  }

  /** Running a whole compressed batch: the start, the continuations and the
      end each give their element, and the state returns to the initial one. */
  lemma {:induction false} CompressedBatchRun(
    s: DecompressorState, start: Message, conts: seq<Message>, end: Message,
    arr: seq<JsValue>, unpack: Unpacker)
    requires WellFormed(s) && !s.activeBatch
    requires StartsCompressedBatch(start) && SupportedCompression(start)
    requires unpack(start.contents) == Some(Indexable(arr))
    requires forall i :: 0 <= i < |conts| ==> IsContinuation(conts[i])
    requires EndsBatch(end)
    ensures Run(s, [start] + conts + [end], unpack) == RunOutcome(
      [Ok(ProcessingResult(NewMessage(start, ElementAt(arr, 0)), Accepted))]
        + Unrolled(conts, arr, 1)
        + [Ok(ProcessingResult(NewMessage(end, ElementAt(arr, 1 + |conts|)), Processed))],
      Initial)
  {
    var batch := [start] + conts + [end];
    var s1 := DecompressorState(true, Some(Indexable(arr)), 1);
    StepBatchStart(s, start, Indexable(arr), unpack);
    assert Step(s, start, unpack).next == s1;
    RunCons(s, batch, unpack);
    assert batch[0] == start && batch[1..] == conts + [end];
    ContinuationsFinal(arr, 1, conts, unpack);
    ContinuationsUnroll(arr, 1, conts, unpack);
    var sn := DecompressorState(true, Some(Indexable(arr)), 1 + |conts|);
    RunAppend(s1, conts, [end], unpack);
    RunCons(sn, [end], unpack);
    StepBatchEnd(sn, end, unpack);
  }

  /** A whole compressed batch: the start, any number of continuations and the
      end. The k-th message of the batch gets element k of the decoded array;
      all but the last are Accepted, the last is Processed, and afterwards the
      state is that of a freshly constructed decompressor. */
  lemma {:induction false} CompressedBatchUnrolls(
    s: DecompressorState, start: Message, conts: seq<Message>, end: Message,
    arr: seq<JsValue>, unpack: Unpacker)
    requires WellFormed(s) && !s.activeBatch
    requires StartsCompressedBatch(start) && SupportedCompression(start)
    requires unpack(start.contents) == Some(Indexable(arr))
    requires forall i :: 0 <= i < |conts| ==> IsContinuation(conts[i])
    requires EndsBatch(end)
    ensures var batch := [start] + conts + [end];
      var o := Run(s, batch, unpack);
      && o.final == Initial
      && forall k :: 0 <= k < |batch| ==>
           o.results[k] == Ok(ProcessingResult(
             NewMessage(batch[k], ElementAt(arr, k)),
             if k < |batch| - 1 then Accepted else Processed))
  {
    var batch := [start] + conts + [end];
    CompressedBatchRun(s, start, conts, end, arr, unpack);
    var all := Run(s, batch, unpack).results;
    forall k | 0 <= k < |batch|
      ensures all[k] == Ok(ProcessingResult(
                NewMessage(batch[k], ElementAt(arr, k)),
                if k < |batch| - 1 then Accepted else Processed))
    {
      if 0 < k < |batch| - 1 {
        assert batch[k] == conts[k - 1];
        UnrolledAt(conts, arr, 1, k - 1);
      }
    }
  }

  /** The decompressor object: the three fields of `OpDecompressor`, updated in place. */
  class OpDecompressor {
    var activeBatch: bool
    var rootMessageContents: Option<Decoded>
    var processedCount: nat

    function State(): DecompressorState
      reads this
    {
      DecompressorState(activeBatch, rootMessageContents, processedCount)
    }

    predicate Valid()
      reads this
    {
      WellFormed(State())
    }

    constructor ()
      ensures Valid() && State() == Initial
    {
      activeBatch := false;
      rootMessageContents := None;
      processedCount := 0;
    }

    /** `processMessage`: the five rules, tried in order. An Err result stands
        for the assertion or exception the call throws. */
    method ProcessMessage(message: Message, unpack: Unpacker) returns (r: Result<ProcessingResult, Error>)
      requires Valid()
      modifies this
      ensures Valid()
      ensures r == Step(old(State()), message, unpack).result
      ensures State() == Step(old(State()), message, unpack).next
    {
      if Meta(message, "batch") == Bool(true)
         && (Truthy(Meta(message, "compressed")) || message.compression != Undefined)
      {
        // beginning of a compressed batch
        if activeBatch {
          return Err(MultipleActiveBatches);
        }
        if Truthy(message.compression) && message.compression != Lz4 {
          return Err(UnsupportedCompression);
        }
        activeBatch := true;
        var decoded := unpack(message.contents);
        if decoded.None? {
          return Err(DecodeFailed);
        }
        rootMessageContents := decoded;
        var k := processedCount;
        processedCount := processedCount + 1;
        if decoded.value.JsonNull? {
          return Err(NullContents);
        }
        return Ok(ProcessingResult(NewMessage(message, ElementAt(decoded.value.items, k)), Accepted));
      }

      if rootMessageContents.Some? && Meta(message, "batch") == Undefined && activeBatch {
        // continuation of a compressed batch
        if message.contents != Undefined {
          return Err(ExpectingEmptyMessage);
        }
        var k := processedCount;
        processedCount := processedCount + 1;
        if rootMessageContents.value.JsonNull? {
          return Err(NullContents);
        }
        return Ok(ProcessingResult(NewMessage(message, ElementAt(rootMessageContents.value.items, k)), Accepted));
      }

      if rootMessageContents.Some? && Meta(message, "batch") == Bool(false) {
        // end of a compressed batch
        var k := processedCount;
        processedCount := processedCount + 1;
        if rootMessageContents.value.JsonNull? {
          return Err(NullContents);
        }
        var returnMessage := NewMessage(message, ElementAt(rootMessageContents.value.items, k));
        activeBatch := false;
        rootMessageContents := None;
        processedCount := 0;
        return Ok(ProcessingResult(returnMessage, Processed));
      }

      if Meta(message, "batch") == Undefined
         && (Truthy(Meta(message, "compressed")) || message.compression == Lz4)
      {
        // single compressed message
        if activeBatch {
          return Err(CompressedMessageInBatch);
        }
        var decoded := unpack(message.contents);
        if decoded.None? {
          return Err(DecodeFailed);
        }
        if decoded.value.JsonNull? {
          return Err(NullContents);
        }
        return Ok(ProcessingResult(NewMessage(message, ElementAt(decoded.value.items, 0)), Processed));
      }

      return Ok(ProcessingResult(message, Skipped));
    }
  }
}
