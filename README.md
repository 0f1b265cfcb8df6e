# Op decompressor and test-report filters, modelled in Dafny

This project models three pieces of the FluidFramework repository and proves
properties of the models.

- **The op decompressor** of the container runtime (`OpDecompressor` in
  `opLifecycle/opDecompressor.ts`). It is a state machine that receives
  sequenced op messages one at a time and unrolls compressed batches. A batch
  start carries the packed contents of the whole batch. Decoding them gives an
  array, and the k-th message of the batch gets element k of that array as
  its contents. A single compressed op outside a batch gets element 0. Any
  other message is passed through as `Skipped`. Each produced message is a copy
  of the received one with `compression` cleared and a `compressed: true` flag
  set to `undefined`.
  - `op_decompressor.dfy`, module `OpLifecycle`. The class `OpDecompressor`
    keeps the source's three fields (`activeBatch`, `rootMessageContents`,
    `processedCount`). Its `ProcessMessage` method changes them step by step,
    as the source does. The method is proved equal to the pure function `Step`
    on the old state. The properties are proved about `Step` and about `Run`,
    which is a sequence of calls.
  - Assertion failures and exceptions become `Err` results of type `Error`:
    `MultipleActiveBatches` (0x4b8), `UnsupportedCompression` (0x4b9),
    `ExpectingEmptyMessage`, `CompressedMessageInBatch` (0x4ba),
    `DecodeFailed` and `NullContents`. `NullContents` is the TypeError of
    reading an element of contents that decode to `null`. Reading an index
    past the end of the decoded value gives JavaScript's `undefined`
    (`ElementAt`), not an error.
  - Two invariants are kept apart. `WellFormed` says held contents imply an
    active batch, and the count is 0 outside a batch. Every call keeps it, on
    every path. `Consistent` adds that a batch is active exactly when its
    contents are held. Every call keeps it except one kind of failure: the
    source sets `activeBatch = true` before it decodes, so a batch start whose
    decoding throws leaves an active batch with no contents
    (`StepDecodeFailureBreaksConsistent`).
  - Inside a consistent active batch, an individually compressed op reaches
    the continuation rule first. If it carries contents, it fails there with
    `ExpectingEmptyMessage`. Without contents it is taken as a continuation
    and gets the next element, or throws when the held contents are `null`.
    Assertion 0x4ba can only fail in the state that a failed decoding leaves
    behind.
  - A batch start whose contents decode to `null` stores them and counts the
    message before the read throws. After that the decompressor stays active
    with `null` contents whatever follows (`NullContentsStayActive`). Every
    continuation, batch end and further compressed batch start throws
    (`NullContentsBlockBatch`).
- **`findFailedTests`** of the two test-report parsers
  (`tools/test-tools/helper/testReportParser.mjs`, xml2js, and
  `tools/pipelines/helper/testReportParser.mjs`, xml2json). The two copies of
  the function are identical. They differ only in the shape of the parsed
  value they receive. `test_report_parser.dfy`, module `TestReportParser`,
  models the function once, as `FindFailedTests` over the value of
  `obj.testsuite.testcase`:
  - a missing property, or a lone object (xml2json's shape for a suite with a
    single test case), throws a TypeError;
  - an empty array falls through to `undefined`;
  - otherwise the result is the filter, or `undefined` when the filter is empty.
- **The JUnit-report scanner** (`tools/helper/test.py`).
  `report_scanner.dfy`, module `ReportScanner`, models the parsed document as
  a tree of `Element`s. `ElementTree.iter` is a pre-order traversal that
  includes the root (`Iter`). It is proved equal to an independent reference:
  every node in document order, filtered by tag. The script's loop is the
  method `Scan`, which builds the printed lines. The printed form of the root
  is an opaque line, `RootRepr`.

Shared helpers: `wrappers.dfy` (Option and Result) and `js_values.dfy`: the
JavaScript values the code tests (`undefined`, `null`, booleans, numbers,
strings, opaque objects), their truthiness, and property reads on plain
objects. A plain object can hold a key whose value is `undefined`.

A failure element without text is printed as Python's `None`; the model's
line is `Text(None)`.

## Model

| member | source | states |
|---|---|---|
| `OpLifecycle.OpDecompressor.constructor` | packages/runtime/container-runtime/src/opLifecycle/opDecompressor.ts:21-23 | A new decompressor has no active batch, no held contents and a count of 0 (`Initial`), and is well formed. |
| `OpLifecycle.OpDecompressor.ProcessMessage` | packages/runtime/container-runtime/src/opLifecycle/opDecompressor.ts:25-98 | The in-place method gives exactly the result and the new field values of `Step` on the old fields, and keeps the object well formed. |
| `OpLifecycle.Step` | packages/runtime/container-runtime/src/opLifecycle/opDecompressor.ts:25-98 | One call in any state. From a well-formed state (held contents imply an active batch; count 0 outside a batch) the next state is well formed, on error paths too. |
| `OpLifecycle.StepErrorKeepsState` | packages/runtime/container-runtime/src/opLifecycle/opDecompressor.ts:30-92 | A failed call leaves the state unchanged, with two exceptions. A batch start whose decoding throws has already set `activeBatch`. A read from `null` contents has already stored them and incremented the count. On a batch start it has also set `activeBatch`. |
| `OpLifecycle.StepPreservesConsistent` | packages/runtime/container-runtime/src/opLifecycle/opDecompressor.ts:40-70 | Every call other than a batch start whose decoding throws keeps the invariant "a batch is active exactly when its contents are held, and the count is 0 outside a batch". This includes single ops whose decoding fails. |
| `OpLifecycle.StepDecodeFailureBreaksConsistent` | packages/runtime/container-runtime/src/opLifecycle/opDecompressor.ts:40-45 | From a consistent idle state, a batch start whose decoding throws gives `DecodeFailed` and leaves `activeBatch` true with no contents, which breaks that invariant. |
| `OpLifecycle.StepRejectsBatchStart` | packages/runtime/container-runtime/src/opLifecycle/opDecompressor.ts:30-38 | A compressed batch start (`batch === true` with `compressed` truthy or `compression` set) while a batch is active fails with 0x4b8. Outside a batch, a truthy `compression` other than lz4 fails with 0x4b9. Neither changes the state. |
| `OpLifecycle.StepBatchStart` | packages/runtime/container-runtime/src/opLifecycle/opDecompressor.ts:40-51 | An accepted batch start holds the decoded value, marks the batch active and increments the count. It returns element `processedCount` as Accepted, or throws when the contents decode to `null`. |
| `OpLifecycle.StepContinuation` | packages/runtime/container-runtime/src/opLifecycle/opDecompressor.ts:54-62 | In an active batch with held contents, a message without batch metadata must have `undefined` contents, or the call fails with no change. Otherwise the count goes up by one and the message gets the next element, as Accepted, or the read throws on `null` contents. |
| `OpLifecycle.StepBatchEnd` | packages/runtime/container-runtime/src/opLifecycle/opDecompressor.ts:64-76 | With held contents, `batch === false` gets the next element as Processed and resets all three fields to their initial values. With `null` contents the read throws after incrementing the count, and nothing is reset. |
| `OpLifecycle.StepSingleCompressed` | packages/runtime/container-runtime/src/opLifecycle/opDecompressor.ts:78-92 | Outside a batch, a single compressed op gets element 0 of its decoding as Processed. If decoding throws or gives `null`, it fails. In every case the state is unchanged. In an active batch without held contents it fails with 0x4ba. In one with held contents, an op with contents fails with `ExpectingEmptyMessage`. All these failures leave the state unchanged. |
| `OpLifecycle.StepSkipped` | packages/runtime/container-runtime/src/opLifecycle/opDecompressor.ts:94-97 | A call returns Skipped exactly when no rule applies. The message is then returned as it is and the state does not change. |
| `OpLifecycle.StepOutputStripped` | packages/runtime/container-runtime/src/opLifecycle/opDecompressor.ts:48-92 | Every message produced rather than passed through has `compression` undefined, no `compressed: true` flag, metadata present, the received message's value for every other metadata key, and its other fields. |
| `OpLifecycle.Run` | packages/runtime/container-runtime/src/opLifecycle/opDecompressor.ts:20-98 | Successive calls give one result per message. A run from a well-formed state ends in a well-formed state. |
| `OpLifecycle.ContinuationsUnroll` | packages/runtime/container-runtime/src/opLifecycle/opDecompressor.ts:54-61 | In a batch holding `arr` after k messages, the i-th continuation gets element k + i, as Accepted. |
| `OpLifecycle.CompressedBatchRun` | packages/runtime/container-runtime/src/opLifecycle/opDecompressor.ts:40-75 | A start, n continuations and an end give element 0, then elements 1..n, then element n + 1. The run ends in the initial state, so the object then behaves like a new one. |
| `OpLifecycle.CompressedBatchUnrolls` | packages/runtime/container-runtime/src/opLifecycle/opDecompressor.ts:48-75 | The k-th message of a compressed batch (k = 0 is the start) gets element k of the decoded array. Every message before the end is Accepted, the end is Processed, and the state returns to the initial one. |
| `OpLifecycle.NullContentsStayActive` | packages/runtime/container-runtime/src/opLifecycle/opDecompressor.ts:46-70 | After a batch start whose contents decode to `null`, any sequence of messages leaves the decompressor active with `null` contents, so the batch never ends and the initial state is never reached again. |
| `OpLifecycle.NullContentsBlockBatch` | packages/runtime/container-runtime/src/opLifecycle/opDecompressor.ts:30-61 | With `null` contents held, every continuation or end message throws, and so does every compressed batch start (0x4b8). A single compressed op without batch metadata is taken as a continuation and throws too. |
| `OpLifecycle.NewMessage` | packages/runtime/container-runtime/src/opLifecycle/opDecompressor.ts:101-124 | The copy, as the source makes it, carries the new contents and the original's other fields, and `compression` is undefined. It always has metadata, with exactly the original's keys (none for a message without metadata). A `compressed: true` flag becomes `undefined`, and every other key keeps its value. |
| `OpLifecycle.NewMessageCorrected` | packages/runtime/container-runtime/src/opLifecycle/opDecompressor.ts:101-124 | Corrected copy: as `NewMessage`, except that a `compressed: true` flag is deleted. Its metadata is absent exactly when that flag was the only key. Otherwise it is the original's metadata without the key `compressed`, with every other key present and unchanged. |
| `OpLifecycle.NewMessageVersionsAgree` | packages/runtime/container-runtime/src/opLifecycle/opDecompressor.ts:101-124 | The copy as written and the corrected copy give the same value for every message property and metadata key. Their metadata differs exactly when the flag was `true`. Then the as-written copy keeps the key `compressed`, and the corrected one drops it, or has no metadata when it was the only key. |
| `OpLifecycle.StripCompressionMarkers` | packages/runtime/container-runtime/src/opLifecycle/opDecompressor.ts:112-124 | Corrected version. It clears `compression` and deletes the key `compressed` when its value is `true`. Metadata left with no keys is dropped. Otherwise the metadata is exactly the original's without that key. A message whose flag is not `true` keeps its metadata as it is. |
| `OpLifecycle.StripCompressionMarkersAsWritten` | packages/runtime/container-runtime/src/opLifecycle/opDecompressor.ts:112-124 | As written: `compression` is cleared, and a `true` flag is replaced by `undefined`, so the metadata object is never dropped. Metadata whose flag is not `true` is kept unchanged, as are the contents and other fields. |
| `OpLifecycle.StripAsWrittenNeverDropsMetadata` | packages/runtime/container-runtime/src/opLifecycle/opDecompressor.ts:115-120 | As written, a message whose `compressed` was `true` still has metadata afterwards, and that metadata still has the key `compressed`. |
| `OpLifecycle.StripAsWrittenKeepsEmptiedMetadata` | packages/runtime/container-runtime/src/opLifecycle/opDecompressor.ts:113-120 | Metadata `{compressed: true}` becomes `{compressed: undefined}` as written, but is removed by the corrected version. |
| `TestReportParser.FindFailedTests` | tools/test-tools/helper/testReportParser.mjs:27-36 | Throws exactly when `testcase` is not an array. An empty array gives undefined. The result is undefined exactly when no test case failed. A defined result has length 1 to the length of the input. It holds only failing test cases, in input order, every failing one, each as often as in the input. |
| `TestReportParser.FailedOnly` | tools/test-tools/helper/testReportParser.mjs:31-33 | The filter keeps only test cases whose `failure` is not undefined, takes them from the input, and is no longer than the input. |
| `TestReportParser.FailedOnlyComplete` | tools/test-tools/helper/testReportParser.mjs:31-33 | Every input test case with a `failure` entry is in the filter's result. |
| `TestReportParser.FailedOnlyIsSubsequence` | tools/pipelines/helper/testReportParser.mjs:28-30 | The filter's result is a subsequence of the input: the input's order is kept. |
| `TestReportParser.FailedOnlyExact` | tools/pipelines/helper/testReportParser.mjs:28-30 | Each failing test case occurs in the result exactly as often as in the input, and no other occurs. The length is the number of failing test cases. |
| `TestReportParser.FailedOnlyEmpty` | tools/pipelines/helper/testReportParser.mjs:28-31 | The filter is empty exactly when no test case has a failure. This is the case `findFailedTests` reports as undefined rather than `[]`. |
| `ReportScanner.WithTag` | tools/helper/test.py:11 | The matching keeps only elements whose tag is exactly the given one, keeps every such element, and is empty exactly when no element has that tag. |
| `ReportScanner.IterIsPreOrderWithTag` | tools/helper/test.py:11 | `iter('failure')` yields exactly the elements of the whole tree, the root included, whose tag is `failure`, in document (pre-)order. |
| `ReportScanner.Scan` | tools/helper/test.py:1-13 | The output has 1 + 2N lines for N failure elements, so one line when there are none. The root's printed form comes first. For the j-th failure in document order come the root again and then that failure's text, printed even when it is None. |

## Findings

| source | as written | input that shows it | evidently intended | confidence | as-written member | corrected member |
|---|---|---|---|---|---|---|
| packages/runtime/container-runtime/src/opLifecycle/opDecompressor.ts:116-120 | `metadata.compressed = undefined` keeps the key, so `Object.keys(metadata).length === 0` can never hold afterwards and the metadata is never removed | a single compressed op whose metadata is `{compressed: true}`: its copy keeps metadata `{compressed: undefined}` | the key deleted, and the metadata removed when no key is left (the comment at lines 109-111 asks for the markers to be removed) | high; not executed | `OpLifecycle.StripAsWrittenKeepsEmptiedMetadata` | `OpLifecycle.StripCompressionMarkers` |

The state machine (`NewMessage`, `Step`, `ProcessMessage`) makes its copies
as the source does, with `StripCompressionMarkersAsWritten`. The corrected
copy is `NewMessageCorrected`, built on `StripCompressionMarkers`.
`NewMessageVersionsAgree` shows that the two versions read alike for every key
and differ only in whether the key `compressed` and the metadata object exist.

## Left out

- The decoding of packed contents is a parameter, `unpack`. It stands for the `packedContents` read, base64 decoding, lz4 decompression, UTF-8 decoding and `JSON.parse`. It returns the decoded value, or None when any of these throws. The two rules use two UTF-8 decoders (`Uint8ArrayToString` and `TextDecoder`); both are the same `unpack` here.
- A decoded value is kept only as far as indexing can tell it apart. It is either `null`, or the items its indices read: array elements, one-character strings of a string, or an object's index-key values with `undefined` at gaps. Anything else the decoded value holds is not modelled.
- `CompressionAlgorithms.lz4` is taken to be the string `"lz4"`. `containerRuntime.ts`, which defines it, is not part of this model.
- JavaScript numbers are integers here, so NaN and fractions are left out of truthiness. Object and array values are opaque references, because the code only tests or forwards them.
- A top-level `compression` property that is absent is not told apart from one that is `undefined`. The code only compares it with `undefined` and lz4 and tests its truthiness. Metadata keys do keep that distinction, because `Object.keys` depends on it.
- What happens to the thrown assertion errors is left out. The callers of `processMessage` are not part of this model.
- `parseTestReport` in both parsers is left out: the file read, `process.argv`, the xml2js/xml2json parsing and the `console.log` loop are I/O and foreign parsers. A missing `obj.testsuite`, which also throws, is not modelled; the input is the value of `obj.testsuite.testcase`.
- In `test.py`, `ET.parse` with its file and parse errors and Python's `print`/`repr` formatting are left out. The tree is given, and the root's printed form is one opaque line. The `newsitems` list is declared as an unused local in `Scan` and has no effect on the output.
- The other repository files (`localNode.ts`, `containerContext.ts`, `forestIndex.ts`, `documentService.ts`, `ClientDebugger.test.ts`, `core/index.ts`, `printReports.js`) are plumbing, delegation, re-exports, network or filesystem code, and are not part of this model.
