# Synchronicity, modelled and proved

A Dafny model of the deciding code of Synchronicity, with proofs of what that code promises. Synchronicity keeps
trees of files in step between machines: content-addressed objects move as range sets with hash-tree proofs, tries
publish records under signed heads, small eBPF programs serve sockets, and a control plane keeps its database behind
a sandboxed process. The model follows the code in its own form: loops over buffers stay loops over buffers, objects
stay objects, protocols are state machines, and pure code is functions.

`dafny verify dfyconfig.toml` checks everything.

## Where to look

| files | part |
|---|---|
| `Elf`, `Relocs`, `Machine`, `Simulation`, `Fold`, `FoldProof`, `ElfView`, `FoldMeaning` | folding `.text` into the entrypoints of an eBPF object, and why the folded program does the same |
| `Budget`, `Lowering`, `LoweringProof`, `LoweringBudget`, `Relowering` | rewriting of clang's memory intrinsics: which calls, to what text, and what a second pass would do |
| `Ranges`, `Fetch` | range sets and the windowed fetch over them |
| `ProofTree`, `ProofNodes`, `ProofBound`, `ProofWalk` | hash-tree proofs, the bound on their size, and the windows cut by it |
| `Seccomp` | the system-call filter and its interpreter |
| `Codec`, `Tlv`, `Csqlite`, `Serving`, `Port`, `PortLayout` | the SQLite port: values, requests, responses, the loop, and the bytes on the wire |
| `AtomicWrite` | atomic replacement of a file under concurrency, failure and crashes |
| `AcceptRate` | the listener's sliding window |
| `Text`, `Keys`, `Sorting`, `Postcard`, `Delegations`, `Heads` | paths, keys, delegation records and signed heads |
| `Strings`, `Declarations`, `DeclarationText` | a socket program's declaration and its stored text |
| `Civil`, `Git` | calendar arithmetic and git-aware paths |
| `Words`, `Bytes`, `Numerals` | fixed-width integers, byte layouts and numerals |

Some results differ from what the code's own comments say; the code is followed.

- The bound on proof nodes is documented as an upper bound without condition. It is one exactly for objects of at most
  `2^33` stop widths, or `3 * 2^32` groups when the proof goes down to single groups (`ProofBound.BoundExact`).
- A rebuilt object does not keep the declared size of a `.bss` section, nor bytes behind the reserved section 0
  (`Elf.BssSizeLost`, `Elf.ReadBack`).
- Several relocations on one call into `.text` are applied one after the other, each to what the last left. Folding
  keeps the meaning exactly when they agree (`Simulation.FoldPreservesIff`); repeats against a symbol with a value do,
  and a repeat against one without does not (`Simulation.ValuedAgree`, `Simulation.TwiceMisdirected`).
- A memory helper the module defines on a line that is itself rewritten is called and no longer declared
  (`LoweringProof.CalledIsDeclared`, `LoweringProof.DefinitionLost`).
- Parsing a file key does not check the length bound that building one does (`Keys.FileKeyOfParse`,
  `Keys.OverlongKey`).
- A declaration that validates can have a rule that is empty or ends in a space, and such a rule is not read back as it
  was (`Declarations.BoundedSurvives`, `Declarations.EmptyRuleLost`).
- A read-only list under the older stamp is lost on the way through the encoding (`Delegations.DecodeOfEncode`).

What the model takes as given, always as a parameter: what SQLite answers, what a provider serves, the effect of
eBPF instructions other than calls, jumps and exits, the clock, Unicode composition (idempotent, keeps text valid,
makes no control characters), the JSON of a capability (one trimmed line that reads back), the class of a path inside a
git directory, and what becomes of a file that was never flushed before a crash.

## Model

| member | source | states |
|---|---|---|
| `FoldMeaning.FoldTextPreservesRuns` | crates/synch-cc/src/fold.rs:91-209 | End to end, by position: in any object that lays out as ELF64 with an entrypoint that calls `.text`, the bytes and relocations that stand for that entrypoint in the object `fold_text` returns, run alone, reach the lifted state of the original run with `.text`, the symbols taken from the symbol table and the targets from their values or the immediates, for every instruction semantics, start state and number of steps that did not fault |
| `FoldMeaning.CallerFolds` | crates/synch-cc/src/fold.rs:139-209 | An object with an entrypoint that calls `.text` is never returned unfolded |
| `FoldMeaning.CompiledObjectFolds` | crates/synch-cc/src/fold.rs:91-209 | An object whose relocations sit on instructions, one to a call, with targets in `.text`, is never refused, but for a layout no file can have |
| `FoldMeaning.CompiledFolds` | crates/synch-cc/src/fold.rs:135-263 | Such an entrypoint folds without error |
| `FoldMeaning.CompiledAgrees` | crates/synch-cc/src/fold.rs:224-263 | And its relocations agree, so its runs are kept |
| `FoldMeaning.PruneIff` | crates/synch-cc/src/fold.rs:266-282 | Pruning fails if and only if a call relocation is off the instructions of its section |
| `FoldMeaning.RewriteKeeps` | crates/synch-cc/src/fold.rs:255-261 | A rewrite changes the source register and the immediate of one call and nothing else |
| `FoldMeaning.RestKept` | crates/synch-cc/src/fold.rs:205-209 | In the object that comes out every section has its header but for offset and size, and every section that is neither an entrypoint nor its relocations has its bytes |
| `ElfView.DescribedParses` | crates/synch-cc/src/fold.rs:91-135 | What the pass works from is what stands in the object: the first `.text`, the first symbol table, its symbols, and the relocations of `.text` |
| `ElfView.ObjectIff` | crates/synch-cc/src/fold.rs:91-112 | The sections read are exactly those whose headers and bytes stand at their positions |
| `ElfView.SymbolsRead` | crates/synch-cc/src/fold.rs:326-346 | A symbol table of 24-byte entries (name, info, other, section, value, size) reads as name, section and value of each |
| `ElfView.RelsIff` | crates/synch-cc/src/fold.rs:358-377 | The relocations read are exactly those whose offset and info stand in the 16-byte entries |
| `Simulation.SameCall` | crates/synch-cc/src/fold.rs:212-222 | A relocation is taken for a call into `.text` exactly when its type is 10 and its symbol is in `.text` or has that string for its name |
| `Simulation.SameDestination` | crates/synch-cc/src/fold.rs:241-249 | The target the pass computes is the machine's own: the symbol's value over 8, or the signed immediate counted from the next instruction |
| `FoldProof.FoldedRuns` | crates/synch-cc/src/fold.rs:91-209 | The same result from what the pass itself reads |
| `Simulation.FoldPreservesRuns` | crates/synch-cc/src/fold.rs:135-263 | The same on values: position `i` of `.text` becomes position `original / 8 + i`, and every run of the program is matched state for state by the folded section |
| `Simulation.FoldPreservesIff` | crates/synch-cc/src/fold.rs:135-263 | The exact condition: all runs of a program that folds are matched, whatever the instructions do, if and only if on every call the relocations into `.text` agree |
| `Simulation.KeepsIff` | crates/synch-cc/src/fold.rs:224-263 | Any list of relocations on one call leaves it at the target of the first if and only if the last target named by value, plus the distance to the copy for every relocation without a value after it, is that target |
| `Simulation.ValuedAgree` | crates/synch-cc/src/fold.rs:241-249 | Repeated relocations against symbols with the same value in `.text` are harmless |
| `Simulation.UnvaluedAgree` | crates/synch-cc/src/fold.rs:241-249 | Relocations that go by the immediate agree if and only if there is one, or the call is the first instruction of the copy |
| `Simulation.TwiceMisdirected` | crates/synch-cc/src/fold.rs:224-263 | A concrete object with one relocation recorded twice folds, and its call goes elsewhere: no semantics makes its runs match |
| `Simulation.FoldRefines` | crates/synch-cc/src/fold.rs:173-209 | The folded code and relocations refine the program: every instruction and every fixup of either section is found, moved, in the result |
| `Simulation.StepSim` | crates/synch-cc/src/fold.rs:224-263 | One step that does not fault is one step of the folded section, calls, returns and two-slot instructions included |
| `Simulation.RefinesRuns` | crates/synch-cc/src/fold.rs:135-263 | Whole runs follow from single steps |
| `Simulation.SweepInsn` | crates/synch-cc/src/fold.rs:173-194 | After the sweep an instruction is what it was, or the relative call with the displacement its text relocations leave when applied in order |
| `Simulation.SweepFixups` | crates/synch-cc/src/fold.rs:173-194 | The relocations a sweep keeps fix up every window of the code exactly as before, shifted |
| `Simulation.PruneFixups` | crates/synch-cc/src/fold.rs:266-282 | Pruning drops only relocations no instruction sees |
| `Simulation.RewriteTwice` | crates/synch-cc/src/fold.rs:224-263 | The rewrite applied a second time against a symbol without a value leaves the displacement alone if and only if the call is the first instruction of the copy |
| `Fold.FoldText` | crates/synch-cc/src/fold.rs:91-209 | The imperative pass computes the specified outcome: error, nothing to do, or the rebuilt object |
| `Fold.FoldAll` | crates/synch-cc/src/fold.rs:139-209 | The loop over targets computes the specified fold, first error included |
| `Fold.FoldOne` | crates/synch-cc/src/fold.rs:151-205 | One target: data, code and relocations as specified, or the error |
| `FoldProof.AllTargetsDone` | crates/synch-cc/src/fold.rs:139-209 | Every entrypoint and relocation section ends as its own fold says, and every other section keeps its bytes |
| `FoldProof.OutputReadsBack` | crates/synch-cc/src/fold.rs:205-209 | The returned object reads back as the folded sections |
| `FoldProof.FoldedSection` | crates/synch-cc/src/fold.rs:151-205 | A folded section of the output holds the folded code, and its relocation section the relocations that go with it |
| `FoldProof.OutputParses` | crates/synch-cc/src/fold.rs:91-135 | The returned object parses to the same context with the folded sections in place |
| `FoldProof.FoldLeavesPlain` | crates/synch-cc/src/fold.rs:173-205 | After a fold no relocation calls `.text` and the relocations are pruned |
| `FoldProof.FoldIdempotent` | crates/synch-cc/src/fold.rs:139-209 | Folding the returned object again finds nothing to fold, when names and strings are in sections the pass leaves alone |
| `Fold.RelsRoundTrip` | crates/synch-cc/src/fold.rs:358-386 | Relocations encoded in 16-byte entries read back the same |
| `Fold.EncodeAll` | crates/synch-cc/src/fold.rs:379-386 | The encoding loop |
| `Relocs.RewriteCallInPlace` | crates/synch-cc/src/fold.rs:224-263 | The in-place rewrite computes the specified bytes, and changes nothing when it fails |
| `Relocs.SweepInPlace` | crates/synch-cc/src/fold.rs:173-194 | The in-place sweep computes the specified data, kept relocations and first error |
| `Relocs.PruneRels` | crates/synch-cc/src/fold.rs:266-282 | The pruning loop with its set of seen offsets |
| `Relocs.PruneIsPruned` | crates/synch-cc/src/fold.rs:266-282 | What is left has at most one call relocation on each offset, each on a call instruction inside the code, all from the input |
| `Relocs.PruneFixpoint` | crates/synch-cc/src/fold.rs:266-282 | Pruning what is pruned changes nothing |
| `Elf.ReadSections` | crates/synch-cc/src/fold.rs:284-324 | The header loop: every section or the first error |
| `Elf.Rebuild` | crates/synch-cc/src/fold.rs:389-426 | The rebuild loops produce the specified layout |
| `Elf.ReadBack` | crates/synch-cc/src/fold.rs:284-324 | A rebuilt object reads back the same sections, placed, if and only if the reserved section 0 has no bytes |
| `Elf.HeaderReadBack` | crates/synch-cc/src/fold.rs:389-426 | The file header is kept but for the table offset, which names the new table |
| `Elf.ExtentsDisjoint` | crates/synch-cc/src/fold.rs:389-435 | File extents of different sections never overlap and each starts on its alignment |
| `Elf.BssSizeLost` | crates/synch-cc/src/fold.rs:389-426 | A `.bss` header keeps its size only if it was zero |
| `Elf.HeaderRoundTrip` | crates/synch-cc/src/fold.rs:296-308 | A section header encodes and decodes to itself |
| `Elf.AlignTo` | crates/synch-cc/src/fold.rs:428-435 | Padding extends the buffer to a multiple of the alignment |
| `Elf.AlignPads` | crates/synch-cc/src/fold.rs:428-435 | The padding is zero bytes and reaches the least such multiple |
| `Ranges.FromRanges` | crates/synch-core/src/wire.rs:507-518 | Any ranges become a canonical list of the same groups |
| `Ranges.CanonicalUnique` | crates/synch-core/src/wire.rs:411-432 | Canonical lists of the same groups are equal |
| `Ranges.CountIsCardinality` | crates/synch-core/src/wire.rs:527-532 | On a canonical list the saturating count is the number of groups |
| `Ranges.CountSaturatesUnnormalized` | crates/synch-core/src/wire.rs:527-532 | On a list that is not canonical it can saturate |
| `Ranges.Overlaps` | crates/synch-core/src/wire.rs:547-555 | Binary search answers whether any group is covered |
| `Ranges.Covers` | crates/synch-core/src/wire.rs:558-566 | Binary search answers whether every group is covered |
| `Ranges.Intersect` | crates/synch-core/src/wire.rs:586-605 | Canonical, a subset of both inputs whatever their order, exactly the common groups on canonical ones, in linear steps |
| `Ranges.Union` | crates/synch-core/src/wire.rs:644-646 | Exactly the groups of either set, canonical |
| `Ranges.Difference` | crates/synch-core/src/wire.rs:608-641 | Exactly the groups of the first and not the second, canonical, in linear steps |
| `Ranges.Take` | crates/synch-core/src/wire.rs:650-667 | The leading part of the set with exactly `min(n, total)` groups |
| `Ranges.TotalOfDifference` | crates/synch-core/src/wire.rs:608-641 | Removing a window removes exactly its groups from the count |
| `Fetch.WindowedWalk.constructor` | crates/synch-net/src/blob.rs:87-93 | The walk begins with the canonical request and no empty answers |
| `Fetch.WindowedWalk.Retire` | crates/synch-net/src/blob.rs:95-106 | The window leaves what remains, and four empty answers in a row give up |
| `Fetch.FetchInto` | crates/synch-net/src/blob.rs:1068-1104 | Whatever a provider answers, the windows are in order and partition the request in `ceil(groups / 512)` exchanges, ending early if and only if the last four were empty |
| `ProofTree.ShapeSound` | crates/synch-store/src/proof.rs:252-282 | The halves a subtree splits into keep the shape of the whole tree |
| `ProofNodes.ProofIs` | crates/synch-store/src/proof.rs:380-440 | The proof over an object is exactly the nodes wider than the stop that meet the ranges, where a node is a span at a multiple of a power of two, that wide or cut short by the end; and they come in pre-order, each once |
| `ProofNodes.EmittedIff` | crates/synch-store/src/proof.rs:380-440 | The same of any subtree |
| `ProofTree.StraddleCost` | crates/synch-store/src/proof.rs:380-440 | Two groups across a split cost both boundary paths in full |
| `ProofTree.PrefixCost` | crates/synch-store/src/proof.rs:380-440 | A run from a subtree's start costs at most one path more than its share of interior nodes |
| `ProofTree.FullCost` | crates/synch-store/src/proof.rs:380-440 | A covered subtree costs at most its groups over the stop width |
| `ProofBound.BoundExact` | crates/synch-core/src/wire.rs:44-65 | The bound covers every range set over an object if and only if the object has at most `2^33` stop widths (`3 * 2^32` groups at level 0); the documented bound does not hold for taller trees |
| `ProofBound.BoundHolds` | crates/synch-core/src/wire.rs:44-65 | Below that size every canonical range set emits at most the bound |
| `ProofBound.BoundFails` | crates/synch-core/src/wire.rs:44-65 | Above it two groups across one split exceed the bound |
| `ProofBound.SubsetEmitsLess` | crates/synch-store/src/proof.rs:380-440 | A subset of ranges never emits more nodes |
| `ProofBound.UnionEmitted` | crates/synch-store/src/proof.rs:380-440 | Range sets together emit no more than apart, and share the root |
| `ProofBound.DepthIff` | crates/synch-store/src/proof.rs:252-282 | A tree is at most `k` levels above the stop level if and only if it has at most `2^k` stop widths |
| `ProofWalk.Children` | crates/synch-store/src/proof.rs:252-282 | Both halves with the right one collapsed to a node that exists |
| `ProofWalk.StopTest` | crates/synch-store/src/proof.rs:391-395 | The stop test on the span is the test on the groups covered |
| `ProofWalk.Walk.Descend` | crates/synch-store/src/proof.rs:380-440 | The walk has emitted exactly the pre-order proof clipped to the budget, and `truncated_at` is the start of the first node left out, or unset when none is |
| `ProofWalk.WalkProof` | crates/synch-store/src/proof.rs:449-478 | One proof is the pre-order list of overlapping interior nodes clipped to the budget, with the start of the first node left out |
| `ProofWalk.ProofWindow` | crates/synch-net/src/blob.rs:122-160 | The window is the largest leading part of the request whose bound is within the node budget, and never empty |
| `ProofWalk.WindowNeverTruncates` | crates/synch-net/src/blob.rs:108-122 | A provider holding any part of such a window of an object the bound is right for never truncates |
| `ProofWalk.LeadsWithinBudget` | crates/synch-net/src/blob.rs:161-167 | One group always fits, so the fallback for an empty window is never taken |
| `Seccomp.ProgramIsPolicy` | control-plane/csqlite/wrapper.c:402-459 | For allowlists of any length the emitted filter answers every call, and allows exactly when the architecture matches, the number is below the x32 bit and it is a guarded call without `PROT_EXEC` or any other listed call |
| `Seccomp.Emit` | control-plane/csqlite/wrapper.c:402-453 | Emission stays within `17 + 2N` slots, fills them only with every guard live, and writes the specified program |
| `Seccomp.EmitProtBlocks` | control-plane/csqlite/wrapper.c:439-451 | The loop over guarded calls |
| `Seccomp.EmitAllowPairs` | control-plane/csqlite/wrapper.c:453-458 | The loop over the allowlist |
| `Seccomp.ProgramAdmitted` | control-plane/csqlite/wrapper.c:402-459 | Every jump lands inside the program and it ends in a return, so the kernel can refuse it only for its length |
| `Seccomp.RunProtBlocks` | control-plane/csqlite/wrapper.c:424-451 | A guarded call is answered by its block; any other leaves the blocks with its number still loaded |
| `Seccomp.WordsOfCall` | control-plane/csqlite/wrapper.c:407-424 | The loads read the architecture, the number and the low half of the third argument |
| `Tlv.ValuesRead` | control-plane/csqlite/wrapper.c:740-815 | A value is read exactly where a readable value was written: reading and writing are inverse both ways |
| `Codec.ReadManyIff` | control-plane/csqlite/wrapper.c:740-815 | A run of items is read exactly where the run was written, item by item |
| `Tlv.Buf.Reserve` | control-plane/csqlite/wrapper.c:590-606 | The buffer grows by doubling and keeps its contents |
| `Tlv.Buf.PutBytes` | control-plane/csqlite/wrapper.c:632-639 | Appends the bytes |
| `Tlv.Buf.PutColumn` | control-plane/csqlite/wrapper.c:780-815 | Appends the tagged value |
| `Tlv.Buf.PatchU32` | control-plane/csqlite/wrapper.c:937-940 | Overwrites four bytes in place |
| `Tlv.Cur.GetWord` | control-plane/csqlite/wrapper.c:667-695 | All bytes of the integer, or none and the mark of a short frame; the cursor never passes the end |
| `Tlv.Cur.GetU64` | control-plane/csqlite/wrapper.c:697-700 | Two words make the long one |
| `Tlv.Cur.GetBytes` | control-plane/csqlite/wrapper.c:702-712 | A slice of the frame or the mark of a short one |
| `Tlv.Cur.BindParam` | control-plane/csqlite/wrapper.c:740-778 | The next parameter if and only if the frame holds a whole one |
| `Csqlite.PutRows` | control-plane/csqlite/wrapper.c:913-936 | The 32-bit row count cannot wrap: rows are counted exactly until the response is over the cap |
| `Csqlite.ReplyRows` | control-plane/csqlite/wrapper.c:900-943 | The result set with its row count patched in, the error of a broken run, or the error of a result over the cap |
| `Csqlite.HandleExec` | control-plane/csqlite/wrapper.c:817-943 | The reply of an EXEC frame, every refusal in its order; the layout rows below say what the reply is |
| `PortLayout.ResponseLayout` | control-plane/csqlite/wrapper.c:716-735 | Every response stands in its payload to the byte: OK, DONE with changes then row id, ROWS with its column count, ERROR with its code, length and message |
| `PortLayout.FinishedReceived` | control-plane/csqlite/wrapper.c:888-899 | A statement without columns that finishes is answered with its changes and then its row id |
| `PortLayout.BrokenReceived` | control-plane/csqlite/wrapper.c:716-730 | One that breaks off is answered with its code in 32 bits and its message |
| `PortLayout.ResultAnswered` | control-plane/csqlite/wrapper.c:900-943 | A result is answered with its rows, or over 64 MiB with error 18 |
| `PortLayout.ValueLayout` | control-plane/csqlite/wrapper.c:780-815 | A value is its tag, then nothing, eight bytes, or a length in four and the bytes |
| `PortLayout.ExecLayout` | control-plane/csqlite/wrapper.c:817-835 | An EXEC frame is opcode 2, the text after its length, the parameter count in two bytes and the parameters |
| `PortLayout.ExecAnswered` | control-plane/csqlite/wrapper.c:1115-1120 | On an open session EXEC runs what its frame orders and is answered with what came of it |
| `PortLayout.ExecRefused` | control-plane/csqlite/wrapper.c:817-880 | An EXEC frame that orders nothing is refused and leaves the session |
| `PortLayout.TrailingIff` | control-plane/csqlite/wrapper.c:846-851 | A second statement is text after the first other than spaces, tabs, ends of lines and semicolons |
| `PortLayout.AcknowledgedIff` | control-plane/csqlite/wrapper.c:1052-1160 | OPEN, SCRIPT, RESET and CLOSE are acknowledged if and only if the engine takes the path and mode of the frame, the bytes after the opcode, or the path and mode opened before |
| `PortLayout.RefusedWith` | control-plane/csqlite/wrapper.c:1052-1168 | What is refused before the engine is asked is error 21; what the engine refuses keeps its code |
| `Csqlite.BindParams` | control-plane/csqlite/wrapper.c:859-873 | Parameters are bound one by one up to the first that is short or rejected |
| `Csqlite.BindAllReads` | control-plane/csqlite/wrapper.c:859-873 | They are bound exactly when they all read and none is rejected |
| `Csqlite.GoesOn` | control-plane/csqlite/wrapper.c:846-851 | Text after the statement other than blanks and semicolons |
| `Port.ExecIff` | control-plane/csqlite/wrapper.c:817-880 | A statement is run if and only if the frame is the strict encoding of its text and parameters and the engine takes it |
| `Port.ResultReceived` | control-plane/csqlite/wrapper.c:900-943 | Whatever a statement returns under the cap, the other end reads exactly its columns and rows |
| `Port.Dispatch` | control-plane/csqlite/wrapper.c:1049-1168 | One request: the new session, the response and whether it closes |
| `Port.Serve` | control-plane/csqlite/wrapper.c:1032-1167 | The loop writes the frames of the responses to the complete requests |
| `Port.SessionKept` | control-plane/csqlite/wrapper.c:1052-1113 | An open session knows what RESET reopens, and only a successful OPEN changes it |
| `Port.SessionFollowed` | control-plane/csqlite/wrapper.c:1052-1160 | Throughout a run of the loop the session is the one the other end works out from the requests and the responses it has read, and while the database is open there is always something to reopen |
| `Serving.ServedInOrder` | control-plane/csqlite/wrapper.c:1032-1167 | Response `i` answers request `i` in the session the requests before it made |
| `Serving.ServedAll` | control-plane/csqlite/wrapper.c:1032-1167 | No request goes unanswered but those after CLOSE or from the first answer no frame can hold |
| `Serving.RequestsOf` | control-plane/csqlite/wrapper.c:1032-1048 | Frames written one after another are the requests read |
| `Serving.RequestsFrom` | control-plane/csqlite/wrapper.c:1032-1048 | Reading stops exactly where no whole frame of 1 byte to 64 MiB stands |
| `Serving.FrameLayout` | control-plane/csqlite/wrapper.c:641-657 | A frame is its length in four bytes, most significant first, and the bytes |
| `Serving.RepliesReceived` | control-plane/csqlite/wrapper.c:641-657 | From the bytes sent the other end takes exactly the responses, with nothing left over |
| `Serving.ReadFrame` | control-plane/csqlite/wrapper.c:1032-1048 | The next complete frame, or none where the loop stops |
| `AcceptRate.RunWithinBudget` | crates/synch-cli/src/connect.rs:86-122 | Over every run with a clock that does not go back, no half-open interval one window long admits more than 64 connections or 8 from one address |
| `AcceptRate.RunRefusesWhenFull` | crates/synch-cli/src/connect.rs:102-122 | In every run an attempt is refused if and only if the window ending now is really full |
| `AcceptRate.RefusedWhenFull` | crates/synch-cli/src/connect.rs:102-122 | The same for one call, from the queue's invariant |
| `AcceptRate.Window.constructor` | crates/synch-cli/src/connect.rs:95-100 | An empty window |
| `AcceptRate.Window.Admit` | crates/synch-cli/src/connect.rs:102-122 | The call keeps the queue true to the log of admissions and the budgets, and admits exactly when both have room |
| `AtomicWrite.ReaderSeesWhole` | crates/synch-core/src/fs.rs:135-167 | At every moment of every interleaving of any number of writers and processes, a reader finds the first contents or the whole data of one writer that renamed |
| `AtomicWrite.CrashLeavesWhole` | crates/synch-core/src/fs.rs:135-167 | So does the machine after a crash at any step, whatever became of unflushed files |
| `AtomicWrite.SavedIsNotLost` | crates/synch-core/src/fs.rs:147-167 | After a save whose directory flush went through, a crash shows that save or a later one |
| `AtomicWrite.WriteCompletes` | crates/synch-core/src/fs.rs:135-167 | At any moment of any run, a live writer that has not begun can make all its calls in turn, and then readers find its data and, the directory flushed, so does a crash |
| `AtomicWrite.StepKeeps` | crates/synch-core/src/fs.rs:147-167 | Every system call, failure, start and death of a process keeps the invariant |
| `AtomicWrite.TemporaryInjective` | crates/synch-core/src/fs.rs:40-55 | Temporary names agree if and only if the process id and the wrapped counter do, and are never the target |
| `Delegations.DecodeOfEncode` | crates/synch-core/src/record.rs:467-526 | A record survives encoding if and only if it carries no read-only list or has the stamp for one; bytes after it are ignored |
| `Delegations.WellFormedSurvives` | crates/synch-core/src/record.rs:415-526 | Every well-formed record survives |
| `Delegations.EncodeLayout` | crates/synch-core/src/record.rs:467-483 | A record is its version, the spaces, the expiry, the note and from version 2 the read-only list, in that order |
| `Delegations.WellFormedIff` | crates/synch-core/src/record.rs:433-452 | A record is well formed exactly under version, count, name and distinctness conditions written out |
| `Delegations.EncodeExtendsPlain` | crates/synch-core/src/record.rs:467-483 | A version-1 record is byte for byte the four-field record; a later one only appends |
| `Delegations.EarlierBuildsRefuse` | crates/synch-core/src/record.rs:21-23 | A four-field reader decodes every record, and refuses by its stamp every well-formed one naming a read-only space |
| `Delegations.WellFormedIsDisjoint` | crates/synch-core/src/record.rs:433-452 | A well-formed grant names every space once |
| `Postcard.VarintRead` | crates/synch-core/src/record.rs:541-549 | A 64-bit varint reads back |
| `Postcard.VarintByte` | crates/synch-core/src/record.rs:541-549 | Byte `i` of a varint is worth `128^i`, all but the last are marked, and there is none too many |
| `Postcard.StringsLayout` | crates/synch-core/src/record.rs:541-549 | A list of strings is its count and each string after its length |
| `Postcard.StringsRead` | crates/synch-core/src/record.rs:541-549 | A list of strings reads back |
| `Sorting.DedupIsDistinct` | crates/synch-core/src/record.rs:444-451 | Sorting, deduplicating and comparing lengths finds a repeat anywhere |
| `Keys.NormalizePath` | crates/synch-core/src/path.rs:37-72 | The component loop accepts, rejects and rebuilds exactly as specified |
| `Keys.NormalizeIff` | crates/synch-core/src/path.rs:37-72 | Exactly these paths are accepted: not empty, no leading slash, no control character, at most 4096 bytes composed, and no component that is empty, `.` or `..` |
| `Keys.NormalizeErrors` | crates/synch-core/src/path.rs:37-72 | The error of a refused path is the first check that fails, and among components the first bad one |
| `Text.ControlIff` | crates/synch-core/src/path.rs:44-46 | The byte test finds exactly the characters of category Cc in valid text |
| `Text.Utf8Decodes` | crates/synch-core/src/record.rs:620-641 | Valid text is the encoding of its characters, all of them scalar values |
| `Text.EncodedIsUtf8` | crates/synch-core/src/record.rs:620-641 | And the encoding of any scalar values is valid text |
| `Keys.NormalizeIsCanonical` | crates/synch-core/src/path.rs:37-72 | A normalized path normalizes to itself |
| `Keys.ParseOfFileKey` | crates/synch-core/src/record.rs:581-641 | A key built for a file parses to its space and canonical path |
| `Keys.ParseIff` | crates/synch-core/src/record.rs:620-641 | A key parses to a space and path if and only if it is `f:`, a space of 1 to 63 bytes, a slash and a canonical path, all valid text |
| `Keys.ParsedStaysInside` | crates/synch-core/src/record.rs:620-641 | No path that parses out of a key has a leading slash or a component that is empty, `.` or `..` |
| `Keys.FileKeyIff` | crates/synch-core/src/record.rs:581-594 | A key is built exactly for such a space and a path that normalizes, within 4096 bytes, and is those bytes |
| `Keys.FileKeyOfParse` | crates/synch-core/src/record.rs:620-641 | A key that parses is the key of its parts, unless it is over the length bound parsing does not check |
| `Keys.LongKeyParses` | crates/synch-core/src/record.rs:620-641 | The key of any canonical path parses back to its parts whatever its length, and is built if and only if it is within the bound |
| `Keys.OverlongKey` | crates/synch-core/src/record.rs:620-641 | Concrete keys over the bound that parse, to parts no key is built for |
| `Keys.DirPrefixIff` | crates/synch-core/src/record.rs:608-617 | A file key starts with a directory prefix if and only if the space is the same and the path lies under the directory by whole components |
| `Keys.DirPrefixText` | crates/synch-core/src/record.rs:608-617 | Slashes around a directory do not count, slashes alone mean the space, and the prefix is `f:`, the space, the directory and a slash |
| `Keys.SpacesApart` | crates/synch-core/src/record.rs:597-605 | Key ranges of different spaces are disjoint |
| `Heads.HeldIsGreatest` | crates/synch-core/src/head.rs:109-120 | Folding heads in any order with any repeats ends at one of them whose sequence number is the greatest and, among those, whose root is the greatest 256-bit number |
| `Heads.HeldAgrees` | crates/synch-core/src/head.rs:109-120 | Nodes that saw the same heads hold the same head |
| `Heads.HeldNeverRegresses` | crates/synch-core/src/head.rs:109-120 | A held head gives way only to one with a greater sequence number, or the same and a root at least as great, and ends no less than any head seen |
| `Heads.SigningInputInjective` | crates/synch-core/src/head.rs:39-58 | No two assignments of the five fields are signed as the same bytes |
| `Heads.SigningLayout` | crates/synch-core/src/head.rs:39-58 | Where each field stands in what is signed, to the byte |
| `Budget.StoresAreFewest` | crates/synch-cc/src/lower.rs:54-71 | For every power-of-two width, no expansion into power-of-two stores of at most that width is shorter than the count |
| `Budget.StoresAreEnough` | crates/synch-cc/src/lower.rs:54-71 | One expansion reaches the count, for every power-of-two width |
| `Budget.WiderIsFewer` | crates/synch-cc/src/lower.rs:54-71 | Stores of any greater power-of-two width never need more of them |
| `Budget.KeptFitsWider` | crates/synch-cc/src/lower.rs:54-71 | What is kept under the budget fits any backend that stores wider, in any power of two |
| `Lowering.SplitList` | crates/synch-cc/src/lower.rs:233-254 | The scan of an argument list with its depth counter |
| `Lowering.SplitOfJoin` | crates/synch-cc/src/lower.rs:233-254 | A list written with balanced, trimmed arguments is split into exactly those |
| `Lowering.CallRecognized` | crates/synch-cc/src/lower.rs:146-193 | A call site is taken apart into its indentation and its first three arguments verbatim |
| `Lowering.LowerMemIntrinsics` | crates/synch-cc/src/lower.rs:99-139 | The imperative pass with its counter, helper list and pointer flag computes the specified text; the rows below say what that text is |
| `LoweringBudget.KeptIff` | crates/synch-cc/src/lower.rs:146-193 | A printed call with a numeral for its length is kept if and only if that length can be made up of at most 128 power-of-two stores no wider than the alignment of the destination, for a copy the lesser of both, up to eight bytes |
| `LoweringBudget.UnknownRewritten` | crates/synch-cc/src/lower.rs:180-192 | A printed call whose length is no numeral is always rewritten |
| `LoweringBudget.PrintedRecognized` | crates/synch-cc/src/lower.rs:146-180 | A call as clang prints it is taken apart into indentation, helper, pointer spelling and its first three arguments |
| `LoweringBudget.RecognizedOnly` | crates/synch-cc/src/lower.rs:146-180 | Nothing else is: a recognized line is no declaration, names an intrinsic that goes on with `p0`, and has four arguments, the third an `i64`, the last `false` |
| `LoweringBudget.CopyText` | crates/synch-cc/src/lower.rs:219-230 | The text a copy becomes |
| `LoweringBudget.ConstantSetText` | crates/synch-cc/src/lower.rs:199-218 | The text a fill with a constant becomes, the constant modulo 256 |
| `LoweringBudget.ValueSetText` | crates/synch-cc/src/lower.rs:199-218 | The two lines a fill with a value becomes |
| `LoweringProof.TextIsLines` | crates/synch-cc/src/lower.rs:99-139 | The text is its lines: those of each rewritten line, every other line as it was, then the appendix |
| `LoweringProof.OutputRead` | crates/synch-cc/src/lower.rs:99-139 | Read back line by line it is those lines, none of them broken, but for carriage returns at their ends |
| `LoweringProof.SiteLinesDefine` | crates/synch-cc/src/lower.rs:193-226 | A rewrite writes one line for each of its names, and line j defines name j |
| `LoweringProof.RewrittenDistinct` | crates/synch-cc/src/lower.rs:193-226 | Over a whole module every line the rewrites write defines a value, and no two define the same one |
| `LoweringProof.IntroducedDistinct` | crates/synch-cc/src/lower.rs:99-226 | If no line of the module defines a value under the names of this pass, no two lines of the output define the same one |
| `LoweringProof.ArgumentsCarried` | crates/synch-cc/src/lower.rs:193-226 | The argument list of an emitted call splits into the destination and length verbatim and the source or widened byte between them |
| `LoweringProof.CallsIff` | crates/synch-cc/src/lower.rs:110-123 | A helper is called if and only if some line is rewritten to it |
| `LoweringProof.TypedIff` | crates/synch-cc/src/lower.rs:110-126 | The declarations use the older pointer spelling if and only if some rewritten line does |
| `LoweringProof.DeclarationText` | crates/synch-cc/src/lower.rs:124-137 | The text of the two declarations |
| `LoweringProof.DeclarersOfOutput` | crates/synch-cc/src/lower.rs:90-139 | The output declares a helper as often as the kept lines do, plus once if a rewritten call needs it and the module did not |
| `LoweringProof.CalledIsDeclared` | crates/synch-cc/src/lower.rs:90-139 | A helper a rewritten line calls is declared or defined in the output if and only if it was not in the module, or on a line that is kept |
| `LoweringProof.DefinitionLost` | crates/synch-cc/src/lower.rs:90-139 | A concrete module whose helper is defined on the rewritten line ends up calling what it no longer declares |
| `LoweringProof.SameLowering` | crates/synch-cc/src/lower.rs:146-193 | A carriage return at the end of a line does not change what becomes of it |
| `Relowering.CallAgain` | crates/synch-cc/src/lower.rs:146-226 | An emitted call is rewritten again exactly as the intrinsic its own arguments name would be |
| `Relowering.WideningNever` | crates/synch-cc/src/lower.rs:146-226 | An emitted widening is never rewritten |
| `Relowering.OutputSettled` | crates/synch-cc/src/lower.rs:99-226 | No line of the output is rewritable if and only if no emitted call has such an intrinsic among its arguments |
| `Relowering.SecondPass` | crates/synch-cc/src/lower.rs:99-226 | A second pass changes nothing if and only if that holds and no kept line ends in a carriage return |
| `Relowering.SecondPassStrips` | crates/synch-cc/src/lower.rs:99-139 | A concrete text a second pass does change |
| `Civil.CivilOfDays` | crates/synch-core/src/civil.rs:12-39 | Every date of the calendar survives the trip to a day count and back |
| `Civil.DaysOfCivil` | crates/synch-core/src/civil.rs:12-39 | Every day count, negative ones too, is the count of a valid date |
| `Civil.DaysCountDays` | crates/synch-core/src/civil.rs:12-19 | The count is 0 at the epoch and goes up by one from each day to the next |
| `Civil.DaysMonotone` | crates/synch-core/src/civil.rs:12-19 | One date is before another if and only if its count is less |
| `Civil.UnixRoundTrip` | crates/synch-core/src/civil.rs:43-47 | A timestamp is its date and time of day |
| `Civil.CivilNeverOverflows` | crates/synch-core/src/civil.rs:23-39 | Every value `civil_from_days` computes fits 64 bits if and only if the shift to the era base does |
| `Civil.DaysNeverOverflow` | crates/synch-core/src/civil.rs:12-19 | Every value `days_from_civil` computes fits 64 bits if and only if the date is between those of the first and the last day count that `civil_from_days` takes |
| `Git.Classify` | crates/synch-core/src/git.rs:186-255 | The scan with its byte offsets finds the innermost root by components |
| `Git.ClassifiedParts` | crates/synch-core/src/git.rs:186-255 | An accepted path is a final `.git`, or its root, a slash and what is inside, classified by that, and never empty when no component is |
| `Git.OutsideIff` | crates/synch-core/src/git.rs:186-255 | A path is outside if and only if no component is `.git`, and none but the last a longer name that ends in it |
| `Git.PointerIff` | crates/synch-core/src/git.rs:186-255 | It is a pointer if and only if the first such component is the last |
| `Git.ReachedIsRoot` | crates/synch-core/src/git.rs:186-255 | Where the two rules (`worktrees/<name>`, `modules/<name...>`) lead from the first root and lead no further is where the root ends |
| `Git.RootIsReached` | crates/synch-core/src/git.rs:186-255 | And every root ends at such a place |
| `Git.SubmoduleRoot` | crates/synch-core/src/git.rs:234-242 | A root, `modules` and a name up to the first name git keeps at the top make the root, and the rest is inside |
| `Git.WorktreeRoot` | crates/synch-core/src/git.rs:229-233 | A root, `worktrees` and one name make the root, and the rest is inside |
| `Git.PrefixOnlyLengthens` | crates/synch-core/src/git.rs:186-255 | Directories above that open no root change only the root's prefix |
| `Declarations.ReadOfRender` | crates/synch-core/src/sock.rs:794-885 | For every declaration, each item is read back as one of the same kind, its text escaped and without trailing space, or not at all; nothing else is read back |
| `Declarations.RenderLines` | crates/synch-core/src/sock.rs:794-836 | Rendering gives one line for each item |
| `DeclarationText.RulesAscend` | crates/synch-core/src/sock.rs:800-806 | Rules are written in code point order, each once |
| `DeclarationText.NumbersAscend` | crates/synch-core/src/sock.rs:807-827 | Capabilities are written by ascending number, all of them |
| `DeclarationText.KindsInOrder` | crates/synch-core/src/sock.rs:794-836 | Name, rules, processes, transfers, writes and limits come in that order |
| `DeclarationText.LineText` | crates/synch-core/src/sock.rs:794-836 | The line of each kind of item |
| `DeclarationText.UnsafeEscaped` | crates/synch-core/src/sock.rs:617-627 | An unsafe character is written as its number in hexadecimal between braces |
| `DeclarationText.RuleReadIff` | crates/synch-core/src/sock.rs:845-856 | A rule is read exactly from its directive and safe text after one space |
| `DeclarationText.UnknownIgnored` | crates/synch-core/src/sock.rs:838-885 | A directive of no known kind is passed over |
| `Declarations.SurvivesIff` | crates/synch-core/src/sock.rs:794-885 | A declaration is read back as itself, sorted and without repeats, if and only if its texts are safe, tidy and not empty rules, its counts and frame size within bounds |
| `Declarations.BoundedSurvives` | crates/synch-core/src/sock.rs:661-885 | One that validates is, if and only if its name and rules have no trailing space and no rule is empty |
| `Declarations.EmptyRuleLost` | crates/synch-core/src/sock.rs:661-885 | An empty rule validates and is not read back |
| `Declarations.RenderStable` | crates/synch-core/src/sock.rs:794-836 | The canonical declaration has the same text |
| `Declarations.EscapeSafe` | crates/synch-core/src/sock.rs:617-627 | Escaped text holds only safe characters |
| `Declarations.Parse` | crates/synch-core/src/sock.rs:845-885 | The line loop computes the specified declaration |

## Left out

- Hash values in proofs: the walk emits positions; chaining values, their check against the parent and the list of proven subtrees are not modelled.
- The fallback of `proof_window` for an empty window: it is never taken (`ProofWalk.LeadsWithinBudget`).
- `fold_text` on a relocation at offset `2^64 - 8` panics on overflow; the model answers an error. An allocation the machine cannot make is an error too.
- Section names other than `.text`: only that name is compared, so their validity as UTF-8 is not modelled.
- FoldMeaning.FoldTextPreservesRuns: asks for relocation entries of 16 bytes, a reserved section 0, relocations inside their section and relocations on one call that agree, which is when the code keeps the meaning.
- FoldMeaning.CompiledObjectFolds: goes one way; with several relocations on one call whether the fold fails depends on every displacement on the way.
- FoldProof.FoldIdempotent: asks for relocation entries of 16 bytes, a reserved section 0, and names and strings in sections that are neither entrypoints nor their relocations.
- AtomicWrite.StepKeeps: a process takes fewer than `2^64` temporary names, since past that the counter repeats them; at the start the target and the temporary names lead to different files; one target in one directory; permissions are not modelled.
- AcceptRate.RunWithinBudget: asks for a clock that does not go back, which the monotonic clock promises.
- Declarations.BoundedSurvives: of validation it has the counts, the plain values and the frame size; the checks on the fields of capabilities are not modelled.
- Delegations.DecodeOfEncode: strings are valid UTF-8 and lists shorter than `2^64`, as their types say; error texts are not modelled.
- LoweringProof.IntroducedDistinct: asks that the module itself use no name of this pass; without that, `LoweringProof.RewrittenDistinct` still keeps the introduced names apart.
- Lowering.CallRecognized: asks that the line name no other intrinsic first and be no declaration.
- Port.Serve: running out of memory and a closed pipe end the process and are not modelled.
- Seccomp.Emit: which calls a platform names is a parameter; the installed length is the program's, which fits 16 bits for any list the kernel admits.
- `class_of` in the git classifier: the table of names is a parameter.
- The rest of the wire messages, lock shapes, replica claims and other records: derived encodings without logic of their own.
- Networking, storage, the reconciler, the daemon, the command line, the web front end and the load balancer: orchestration around code that is not part of this model.
- Signatures, BLAKE3, SQLite, clang and llc themselves.
