# radjax_student: a verified model of its checkpoints, codecs and run logic

radjax_student trains a language model from precomputed behavioural data and insists that
its results be replayable: a run may be interrupted anywhere, checkpoints are published
atomically, and every tree of arrays has one canonical name and one canonical byte form.
This project models that logic in Dafny and proves what the code and its documentation
promise about it, and, where the code keeps less than it promises, exactly when it does.

| files | what they model |
|---|---|
| `RunState`, `Continuation`, `SegmentMeaning`, `ResumeEquivalence`, `MappingOutcomes`, `StoppedSaves` | the run state, the run loop with lazily built states, and interruption and resume |
| `Publication` | the two checkpoint savers as a transition system over an abstract filesystem, with crashes and readers |
| `KeypathCodec`, `NameDecoding`, `NpyMember`, `NpzCodec`, `NpzReading`, `NpzAcceptance`, `PytreeDigest`, `FormatMeaning`, `CarryDescriptor` | member names, NPY headers, the deterministic archive and back, the hashed stream, the two descriptors |
| `Layout`, `OrderAlignment` | parameter layouts against nested mappings, and the attribution of changed parameters |
| `SplitPolicy`, `Materialize`, `LookupAgreement`, `ExemplarJoin`, `Sealing` | the balanced split, the partitioned batches, the lookups from global rows, the exemplar join, and the sealed constructor |
| `TopMass`, `CorridorObjective`, `CorridorMeaning`, `RealArithmetic` | the corridor loss over exact reals |
| `Hooks`, `HookRuns`, `HookMeaning` | hook dispatch, what holds over a run of events, and what a dispatch calls and reports |
| `Compatibility`, `CompatibilityMeaning`, `CompatibilityFindings` | the compatibility evaluator, what its verdict means, and the cause of every finding |
| `Trees`, `NestedDicts`, `Ordering`, `Division`, `Basics` | nested mappings as values and as objects on the heap, sorting, remainders, small types |

Code that works by updating things is imperative here and proved against a specification
function: the run loop (`Continuation.RunSegment`), the nested dictionaries filled in place
(`NestedDicts.Dict`), the name decoder, the writer and reader loops, the recursive visitor
with its shared list, the greedy split, the objective's accumulators, hook dispatch and its
observer, and the compatibility checks that append to shared finding lists. Theorems are
stated about the specification functions. For each main operation one theorem says what that
function yields in the terms of its inputs alone, without the functions it is made of: the
files named `...Meaning`, `NpzAcceptance`, `NameDecoding`, `CompatibilityFindings`, and the
lemmas whose names end in `Exactly` or `SpelledOut`.

## What the code keeps, exactly

* A layout may be accepted although one leaf's keypath is a prefix of another's. Then
  `mapping_tree` fails, while `update_mask` and `validate_materialized_parameters` accept a
  tree that lacks a leaf: they accept exactly the trees whose leaves are the minimal keypaths.
* A layout attributes every change to its own parameters exactly when its keypaths, taken in
  the order of the logical paths, ascend. Over an alphabet without '.' all layouts do exactly
  when every key byte is above '.'; for a key byte below it a changed parameter is reported
  under another's name.
* Member names never collide. Decoding one gives the keypath back exactly when every part is
  shorter than 2^32 bytes; reading an archive does not decode names. The decoder also accepts
  every such name with one more underscore before the suffix, and `k_.npy` as the empty
  keypath, though neither is written.
* An archive reads back as exactly the original mapping when no leaf is big-endian, and only then.
* The architecture's carry descriptor and the codec's agree exactly on trees without empty
  sub-mappings and without big-endian or inadmissible leaves.
* Naming a corridor row by indexing the partition's IDs with the registry's row is right
  exactly when the partition holds the first examples of the registry, and raises otherwise;
  so it raises for the training batch or for the held-out batch of every materialisation, and
  for the training batch, the one used, of every canonical registry of five or more examples.
* A stored run state whose schedule or ledger is a JSON text or object, not a list, loads: the
  text is split into characters, the object gives its keys. It is stored back as it was exactly
  when both are lists.
* A saver that stops between removing an empty destination and renaming leaves the
  destination absent, besides its hidden temporary directory; nothing else is ever lost.
* Resuming is transparent when every counter reported before the last item equals its
  default. In general a stop builds a state the whole run does not build, from the report of
  the item before it: an optimizer step, global step or retry count survives exactly when that
  report equals the default or the last item reports the counter
  (`MappingOutcomes.StopShowsExactly`, which also decides the epoch; `StoppedSaves` decides
  the states saved on the way).
* A profile that declares no limit fails every artifact, so dropping a limit is not a
  widening, while dropping the tokenizer list is.

## Modelling choices

Text that is ordered or encoded is its UTF-8 byte sequence; byte order and code-point order
agree. SHA-256 over canonical JSON is one injective function of the value. `int(text, 16)`,
`bytes.fromhex`, UTF-8 validity, `np.lib.format.read_array`, the byte swap to little-endian,
entropy, the run loop's callbacks and the answers of hooks are parameters; an assumption
about one of them is a named predicate (`KeypathCodec.ReadsBack`, `NameDecoding.ReadsOnly`,
`NpzReading.ReadsLeaves`, `PytreeDigest.TellsApart`, `HookRuns.ValidAnswers`). The strict
hexadecimal reader of `NameDecoding.StrictReadsOnly` satisfies the first two, and
`NpzReading.ReadableIffTold` says when the third can be satisfied. The third and fourth speak
only of the leaves of the trees at hand. The host is little-endian. A softmax output is a probability vector of exact reals.
A filesystem call is one step; names of temporary directories are unique to their saver, as
mkdtemp guarantees; rename onto a directory succeeds when the target is absent or an empty
directory, as rename() of IEEE Std 1003.1-2017 says. The model checkpoint that the
continuation saver nests inside its own temporary directory is a write step there. A corridor
batch holds one record per assignment row instead of four parallel arrays. A finding is one
constructor per code and message with its details.

## Model

| member | source | states |
|---|---|---|
| RunState.StateAtValid | src/radjax_student/behavior/continuation.py:189-201 | the default state at any later position is accepted and has the run's identity |
| RunState.FoldIsStateAt | src/radjax_student/behavior/continuation.py:288-319 | calling advance once per scheduled item, counters incremented, never fails and gives the default state at each position |
| RunState.StateAtTwice | src/radjax_student/behavior/continuation.py:288-319 | going on from an intermediate default state is going on from the start |
| RunState.AcceptedStates | src/radjax_student/behavior/continuation.py:130-187 | the states the constructor accepts: this schema, nonempty names and authority, counters not negative, batches of one, a positive interval, and as ledger the first next_item_index items of the schedule |
| RunState.SameRun | src/radjax_student/behavior/continuation.py:189-201 | two states have the same run identity if and only if they agree on everything but counters, position and ledger |
| RunState.Reloads | src/radjax_student/behavior/continuation.py:203-286 | writing a state field by field as JSON and loading it gives an equal state: the ledger's representation is all that may change |
| RunState.StoredBackIffLists | src/radjax_student/behavior/continuation.py:203-286 | for every payload that loads, the loaded state stores the same payload if and only if the schedule and the ledger are lists in it |
| RunState.TextIsSplit | src/radjax_student/behavior/continuation.py:150-158 | a payload with texts there loads as the run whose items are their characters, and is stored differently |
| Continuation.RunOneItem | src/radjax_student/behavior/continuation.py:482-553 | one turn of the loop: when a state is built, which counters it reads, when the checkpoint callback is called, every failure |
| Continuation.RunBehaviorContinuation | src/radjax_student/behavior/continuation.py:449-479 | the schedule and stop arguments are checked before anything runs |
| Continuation.RunSegment | src/radjax_student/behavior/continuation.py:471-564 | the loop equals the fold over items, the rebuild after it is unreachable and the result constructor never rejects |
| SegmentMeaning.SavesExactly | src/radjax_student/behavior/continuation.py:484-541 | for every callback and stop: a position passed is among the saved ones, which ascend, if and only if a checkpoint callback is given and the start state's optimizer step plus the items since is a multiple of the interval or the schedule ends there; only behind an item that fails may the save be missing |
| SegmentMeaning.SegmentExactly | src/radjax_student/behavior/continuation.py:471-564 | call by call, field by field: the state each item is given, each state saved and returned with every counter it carries, the identities collected, where the segment stops, and the cause of each error |
| ResumeEquivalence.SegmentIsExactlyOnce | src/radjax_student/behavior/continuation.py:438-564 | whatever the callbacks answer, a segment executes a contiguous run of the schedule once each, passing every item a state fewer than interval items back, and saves at exactly the due or final positions, with states of the same run identity |
| ResumeEquivalence.LagBounded | src/radjax_student/behavior/continuation.py:484-524 | whatever the callbacks answer, the state passed to each item lags by fewer items than the checkpoint interval, and however a segment ends, at most interval items (one that raised included) come after the last state it saved or started from |
| ResumeEquivalence.SegmentIsExact | src/radjax_student/behavior/continuation.py:482-564 | when no item but the last reports a counter other than its default, every saved state is the exact state of its position and the returned one is exact |
| ResumeEquivalence.PlayOnTrack | src/radjax_student/behavior/continuation.py:438-447 | after any finite pattern of interruptions the run stands where the uninterrupted one passes |
| ResumeEquivalence.ResumeEquivalent | src/radjax_student/behavior/continuation.py:438-564 | whenever the reports before the last item equal the defaults, and whatever accepted counters the last item reports, any pattern of stops, raising items, failing saves and resumes from the returned or the last saved state, through storage or not, ends in the uninterrupted state, and the saved states strung together are the uninterrupted ones |
| ResumeEquivalence.DefaultsAgree | src/radjax_student/behavior/continuation.py:492-514 | outcomes that are no mappings are such reports |
| MappingOutcomes.StopShowsExactly | src/radjax_student/behavior/continuation.py:438-564 | for callbacks answering by position with any counters and any stop k of any run: the stopped and resumed run completes like the uninterrupted one; optimizer step, global step and retry count each end the same if and only if the report at k equals the default there or the last item reports the counter; the epoch so if and only if the last item reports it or the latest epoch reported before it, on the cadence of the whole run and on the one the report at k gives the resumed run, is the same; nothing else can differ |
| MappingOutcomes.TransparentIffKept | src/radjax_student/behavior/continuation.py:438-564 | so a stop is transparent if and only if it keeps all four counters of the last state |
| MappingOutcomes.EpochKeptSimply | src/radjax_student/behavior/continuation.py:492-514 | when the optimizer step reported at the stop keeps the cadence, the epoch is kept if and only if it is reported last or where a later state is built, or a state is built at k anyway, or the report at k leaves it |
| StoppedSaves.SavesShowExactly | src/radjax_student/behavior/continuation.py:482-553 | what the stopped and the resumed segment save is, strung together, what the whole run saves if and only if after the stop both save at the same positions and the stop keeps all four counters of every state saved there |
| MappingOutcomes.StopCanShow | src/radjax_student/behavior/continuation.py:492-514 | at every stop boundary of every run there are reports (one more retry, once) for which the final states differ |
| Publication.InvOverRun | src/radjax_student/checkpoints/v3.py:328-489 | the protocol's invariant holds in every world of every run |
| Publication.AtomicPublication | src/radjax_student/behavior/continuation.py:596-648 | at any time the destination is as found, an emptied absence, or one saver's complete output, and at most one saver has published |
| Publication.ReturnedMeansPublished | src/radjax_student/behavior/continuation.py:640-648 | a call that returned has published; one that raised after the rename has published all the same |
| Publication.PublishedForever | src/radjax_student/behavior/continuation.py:586-591 | once published, the destination never changes again |
| Publication.OccupiedStays | src/radjax_student/checkpoints/v3.py:328-334 | a destination that is neither absent nor an empty directory is never touched |
| Publication.OccupiedIsRefused | src/radjax_student/checkpoints/v3.py:328-334 | over such a destination every saver gives up before it makes its temporary directory |
| Publication.LoadsAreComplete | src/radjax_student/behavior/continuation.py:652-672 | a reader that accepts has read one complete checkpoint, never a mixture or a part |
| Publication.UndisturbedSaverPublishes | src/radjax_student/checkpoints/v3.py:338-489 | a saver left alone from any point on its way with a suitable destination returns having published |
| Publication.ExactlyOneSucceeds | src/radjax_student/behavior/continuation.py:596-648 | from an absent or empty destination, however many savers interleave without a fault of their own: when all have finished, exactly one has returned and published, and every other has raised |
| KeypathCodec.DecodeMemberName | src/radjax_student/checkpoints/npz_codec.py:32-55 | the consuming loop computes the decoding, and ends on every string and for every answer of int and fromhex |
| KeypathCodec.KeypathRoundTrip | src/radjax_student/checkpoints/npz_codec.py:17-55 | decoding an encoded keypath gives it back if and only if every part is under 2^32 bytes |
| KeypathCodec.EncodeInjective | src/radjax_student/checkpoints/npz_codec.py:17-29 | no two keypaths share a member name, however long their parts |
| KeypathCodec.StrictReadsBack | src/radjax_student/checkpoints/npz_codec.py:41-47 | the assumption on int and fromhex is satisfiable: a strict hexadecimal reader meets it |
| NameDecoding.DecodesExactly | src/radjax_student/checkpoints/npz_codec.py:32-55 | with int and fromhex reading exactly what formatting writes, the names accepted are those of keypaths with UTF-8 parts under 2^32 bytes, the same with one more underscore before the suffix, and k_.npy for the empty keypath |
| NameDecoding.StrictReadsOnly | src/radjax_student/checkpoints/npz_codec.py:41-47 | the strict hexadecimal reader meets both assumptions on int and fromhex |
| FormatMeaning.NameSpelledOut | src/radjax_student/checkpoints/npz_codec.py:17-29 | a keypath has a name if and only if it and all its parts are nonempty: the texts of its parts in order, underscores between, from k_ to .npy |
| FormatMeaning.PartSpelledOut | src/radjax_student/checkpoints/npz_codec.py:24-28 | the text of a part is its byte length read as eight lower-case hexadecimal digits and then its bytes, two digits each |
| NpyMember.MemberAligned | src/radjax_student/checkpoints/npz_codec.py:215-233 | preamble and header fill 16-byte blocks with padding under 16, the length fits 16 bits, and the data follows |
| NpyMember.ShapeInjective | src/radjax_student/checkpoints/npz_codec.py:236-241 | the shape text determines the shape |
| NpyMember.MemberInjective | src/radjax_student/checkpoints/npz_codec.py:215-233 | dtype text, shape and data can be recovered from a member's bytes |
| FormatMeaning.MemberSpelledOut | src/radjax_student/checkpoints/npz_codec.py:211-241 | a member is the magic bytes, version 1.0, the header length in two bytes, the dict literal with dtype, order and shape, spaces to the block boundary, a newline, and the data |
| NpzCodec.FlattenIsFlat | src/radjax_student/checkpoints/npz_codec.py:186-200 | flattening succeeds exactly on nonempty mappings with nonempty keys and lists the leaves depth first, whatever the insertion order |
| NpzCodec.WriteDeterministicNpz | src/radjax_student/checkpoints/npz_codec.py:91-122 | the writer's loop computes the archive value, failures included |
| NpzCodec.WriteLeavesHolds | src/radjax_student/checkpoints/npz_codec.py:102-121 | the collision branch never fires, and each member and descriptor entry is the canonical one of its leaf |
| NpzCodec.WriteTheorem | src/radjax_student/checkpoints/npz_codec.py:91-128 | writing succeeds exactly when the tree is acceptable and every leaf can be stored, and then holds exactly the canonical leaves in depth-first order |
| FormatMeaning.WrittenSpelledOut | src/radjax_student/checkpoints/npz_codec.py:91-128 | writing succeeds exactly on nested nonempty mappings with nonempty keys and storable leaves, and then there is one descriptor entry and one member for each leaf, in ascending keypath order, with the leaf's name, shape, native dtype and little-endian bytes |
| NpzReading.CheckExpected | src/radjax_student/checkpoints/npz_codec.py:159-165 | the first loop accepts exactly descriptors with distinct keypaths whose members are their encodings |
| NpzReading.ReadDeterministicNpz | src/radjax_student/checkpoints/npz_codec.py:152-183 | the reader fills nested dictionaries in place that mirror the tree the specification builds, and fails exactly when it does |
| NpzAcceptance.ReadsExactlyAuthentic | src/radjax_student/checkpoints/npz_codec.py:152-183 | given what read_array returns, an archive is read as a tree if and only if it has the codec, one entry for each leaf of the tree and no other, no other members, and each entry names its keypath's member, from which the leaf is read with the entry's shape and dtype and whose bytes are the leaf's canonical ones |
| NpzReading.NpyBytesInjective | src/radjax_student/checkpoints/npz_codec.py:215-233 | a member's bytes determine its array but for the name of an extension dtype, which the header does not spell |
| NpzReading.ReadableIffTold | src/radjax_student/checkpoints/npz_codec.py:174-176 | some reader reads back all members of a tree if and only if different canonical leaves have different members: exactly what the assumption on read_array asks for |
| NpzReading.RoundTrip | src/radjax_student/checkpoints/npz_codec.py:91-183 | reading what was written gives the tree with canonical leaves |
| NpzReading.ExactRoundTrip | src/radjax_student/checkpoints/npz_codec.py:91-183 | reading gives back exactly the original mapping if and only if no leaf is big-endian |
| NpzReading.ArchiveIdentifiesTree | src/radjax_student/checkpoints/npz_codec.py:91-128 | two trees give the same archive if and only if they are the same mapping of canonical leaves: insertion order never shows |
| PytreeDigest.StreamInjective | src/radjax_student/checkpoints/npz_codec.py:75-88 | the length-framed byte stream is uniquely decodable, given that JSON tells the hashed descriptors apart |
| FormatMeaning.HashedAsWritten | src/radjax_student/checkpoints/npz_codec.py:62-88 | what is hashed for a tree is, for each entry of the descriptor the writer records for it, the entry's JSON and then the leaf's little-endian data, each behind its length in eight big-endian bytes |
| PytreeDigest.DigestIdentifiesTree | src/radjax_student/checkpoints/npz_codec.py:62-88 | two trees feed the hash the same bytes if and only if they are the same mapping of canonical leaves |
| CarryDescriptor.Visitor.Visit | src/radjax_student/architecture/carry_descriptor.py:22-38 | the recursive visitor appends exactly the specified entries to the shared list, or fails exactly when specified |
| CarryDescriptor.DescribeMappingCarry | src/radjax_student/architecture/carry_descriptor.py:19-46 | the declared descriptor is the visitor's list from an empty one |
| CarryDescriptor.VisitedIsFlat | src/radjax_student/architecture/carry_descriptor.py:22-40 | on trees without empty mappings the visitor lists the depth-first leaves |
| CarryDescriptor.ListsExactly | src/radjax_student/architecture/carry_descriptor.py:22-40 | when the visitor does not raise, its entries are exactly those of the leaves, with shape and dtype, and of the empty mappings, with no shape and dtype dict |
| CarryDescriptor.DescriptorsAgree | src/radjax_student/checkpoints/npz_codec.py:131-149 | the architecture's descriptor equals the codec's, leaf for leaf and in order, if and only if no sub-mapping is empty and no leaf is big-endian or inadmissible |
| CarryDescriptor.DescribeIsWritten | src/radjax_student/checkpoints/npz_codec.py:131-138 | the descriptor made without writing is the one the writer returns |
| NestedDicts.SetMappingLeaf | src/radjax_student/checkpoints/npz_codec.py:264-272 | on the objects: stores one leaf and changes no other, and fails exactly when the keypath repeats, extends or is extended by a stored one |
| NestedDicts.BuildInPlace | src/radjax_student/contracts/layout.py:282-299 | filling nested dictionaries entry by entry succeeds exactly on prefix-free keypaths and then mirrors the built tree |
| Trees.FlattenBuild | src/radjax_student/checkpoints/npz_codec.py:152-200 | building from the flattened leaves of a tree gives the tree back |
| Trees.BuildInverts | src/radjax_student/checkpoints/npz_codec.py:264-272 | building from any list of a tree's leaves, in any order, gives that tree |
| Trees.FlatSorted | src/radjax_student/checkpoints/npz_codec.py:186-200 | depth-first traversal with sorted keys lists keypaths in strictly ascending order |
| Layout.MakeWellFormed | src/radjax_student/contracts/layout.py:156-175 | an accepted layout is sorted by distinct logical paths with distinct keypaths, and is a rearrangement of the entries |
| Layout.MakeExactly | src/radjax_student/contracts/layout.py:156-175 | a layout is made exactly from entries of which no two share a logical path, a keypath or a distribution key, and there must be one |
| Layout.MakeForgetsOrder | src/radjax_student/contracts/layout.py:156-175 | the accepted layout does not depend on the order of the entries |
| Layout.MappingTreeInPlace | src/radjax_student/contracts/layout.py:282-299 | mapping_tree on the objects succeeds if and only if the keypaths are prefix-free, and walking the result finds each entry's leaf and nothing else |
| Layout.MappingTreeForgetsOrder | src/radjax_student/contracts/layout.py:282-299 | the built tree does not depend on the order of the entries |
| Layout.AcceptsMinimal | src/radjax_student/contracts/layout.py:226-247 | for every layout update_mask accepts exactly the trees without empty mappings whose leaves are the minimal keypaths |
| Layout.MaskTheorem | src/radjax_student/contracts/layout.py:196-249 | on prefix-free layouts update_mask accepts exactly the trees with the layout's leaves, and the mask is mapping_tree of the selection, has the tree's shape and at each entry's keypath says whether the entry is selected |
| Layout.MaskCoversIffPrefixFree | src/radjax_student/contracts/layout.py:226-247 | an accepted tree carries every leaf of the layout if and only if the keypaths are prefix-free |
| Layout.OverlapIsALayout | src/radjax_student/contracts/layout.py:156-175 | the constructor accepts an overlapping layout that mapping_tree refuses |
| Layout.OverlapLosesLeaf | src/radjax_student/contracts/layout.py:251-280 | for it both checkers accept a tree that lacks one of its leaves |
| Layout.CheckIsMaskAndMatch | src/radjax_student/contracts/layout.py:251-280 | validate_materialized_parameters accepts exactly what update_mask accepts with matching shapes and dtypes |
| OrderAlignment.AlignedWithTree | src/radjax_student/contracts/layout.py:166 | with key bytes above '.', entries sorted by logical path list the keypaths in depth-first order |
| OrderAlignment.AttributionCorrect | src/radjax_student/behavior/corridor_pass.py:261-269 | then every changed flag is attributed to the parameter it belongs to |
| OrderAlignment.AttributionIffAscending | src/radjax_student/behavior/corridor_pass.py:261-269 | for each prefix-free layout: every possible change is attributed to its own parameters if and only if the keypaths, in the order of the logical paths, ascend |
| OrderAlignment.AlignmentExact | src/radjax_student/contracts/layout.py:166 | over an alphabet without '.', the orders agree for all layouts if and only if every letter is above '.' |
| OrderAlignment.Misattributed | src/radjax_student/behavior/corridor_pass.py:261-269 | for a key byte below '.', a layout and a change for which the wrong parameter is named |
| SplitPolicy.AssignGreedily | src/radjax_student/behavior/policies.py:43-56 | the greedy loop assigns the pinned outer exemplars and alternates over the other IDs in canonical order |
| SplitPolicy.SplitExamples | src/radjax_student/behavior/policies.py:27-72 | every error in its order, otherwise the alternating split |
| SplitPolicy.SplitsExactly | src/radjax_student/behavior/policies.py:27-42 | an input is split if and only if the identity is a SHA-256, the example IDs are distinct and nonempty, and the exemplars are examples, at least two of them different |
| SplitPolicy.SideSpelledOut | src/radjax_student/behavior/policies.py:43-72 | the bytewise least exemplar trains, the greatest is held out, and any other example trains exactly when an even number of such examples come before it |
| SplitPolicy.SplitBalanced | src/radjax_student/behavior/policies.py:43-56 | training gets ceil(n/2) and held-out floor(n/2) examples |
| SplitPolicy.SplitAssignsOnce | src/radjax_student/behavior/policies.py:43-72 | each example, and nothing else, is on exactly one side |
| SplitPolicy.SplitHasExemplars | src/radjax_student/behavior/policies.py:43-46 | each side holds an exemplar-bearing ID |
| SplitPolicy.SplitForgetsOrder | src/radjax_student/behavior/policies.py:27-87 | the split does not depend on how examples and exemplars are listed |
| Materialize.RowsPartitioned | src/radjax_student/behavior/materialize.py:296-326 | every assignment row lands in exactly one partition, occurrences and order kept |
| Materialize.SealsIffCovered | src/radjax_student/behavior/models.py:228-234 | a built batch seals if and only if every example of the partition has an assignment row, and then its distinct rows are the selected ones |
| LookupAgreement.LookupsAgree | src/radjax_student/behavior/evaluation.py:367-385 | zip over sorted unique rows, rank by searchsorted and example_ids.index all lead to the tensor row of the example the global index names |
| LookupAgreement.FoundIsRanked | src/radjax_student/behavior/learning_batch.py:276-301 | a found coordinate is one assignment row's, and the local row found is its rank |
| LookupAgreement.CoordinatesAre | src/radjax_student/behavior/models.py:228-245 | the coordinates of a built batch are those of its rows, each with the ID the registry gives its global index, as often as they occur, by ID bytes, position and mode |
| LookupAgreement.OrderedBatchExact | src/radjax_student/behavior/corridor_pass.py:298-322 | naming the rows of a batch by the global index is right if and only if the partition holds the registry's first examples, which is if and only if it does not raise |
| LookupAgreement.OneSideRaises | src/radjax_student/behavior/corridor_pass.py:298-322 | of the training and the held-out batch of one registry, at least one cannot be named that way |
| LookupAgreement.CanonicalTrainingRaises | src/radjax_student/behavior/corridor_pass.py:298-322 | on every canonically listed registry of five or more examples, whichever bear exemplars, naming the rows of the training batch raises |
| LookupAgreement.TrainingRaises | src/radjax_student/behavior/corridor_pass.py:298-322 | an accepted registry of two whose sealed training batch, the one the corridor pass orders, raises |
| ExemplarJoin.JoinIsBijection | src/radjax_student/behavior/materialize.py:183-221 | the join succeeds exactly on joinable lists and then pairs rearrangements of both lists key by key, in key order |
| ExemplarJoin.JoinAscends | src/radjax_student/behavior/materialize.py:183-221 | joined records stand by the bytes of the ID, then the position, then the bytes of the fingerprint |
| ExemplarJoin.JoinForgetsOrder | src/radjax_student/behavior/materialize.py:183-221 | the joined lists do not depend on the order of either input |
| ExemplarJoin.SideKeys | src/radjax_student/behavior/models.py:206-225 | the sorted keys of one side are the authoritative keys filtered by the split |
| ExemplarJoin.ExemplarsSeal | src/radjax_student/behavior/models.py:185-225 | every joined and partitioned list passes the sealed constructor's exemplar checks; the sides are disjoint and lose nothing |
| Sealing.SealsIffEveryExampleAssigned | src/radjax_student/behavior/models.py:127-225 | once split, join and both corridor batches exist, the descriptor is derived and the sealed constructor accepts if and only if every example of the registry has an assignment row |
| Sealing.MaterialisesExactly | src/radjax_student/behavior/materialize.py:55-112 | once split and joined, the corridor and exemplar batches are built and sealed if and only if every example has an assignment row and every exemplar has its position in its row and an accepted sparse target |
| Sealing.ConstructorAccepts | src/radjax_student/behavior/models.py:173-225 | none of the constructor's partition checks, corridor IDs against the split included, rejects what the earlier steps built |
| Sealing.ValidExactly | src/radjax_student/behavior/models.py:173-225 | the constructor's partition checks pass exactly when every batch carries its side's label, corridor batches hold exactly their side's examples, authoritative keys are assigned, no exemplar key occurs twice, and each side's exemplars are the authoritative ones of that side |
| Sealing.DescriptorTells | src/radjax_student/behavior/models.py:127-172 | the descriptor of accepted batches names their split and lists each side's coordinates and, ascending, each side's exemplar keys |
| Sealing.ExemplarsOnBothSides | src/radjax_student/behavior/materialize.py:329-372 | no exemplar partition is ever empty |
| TopMass.TopIsMaximum | src/radjax_student/behavior/objectives.py:80-83 | the top-k mass is the maximum over all sets of min(k, vocabulary) tokens, and is attained |
| TopMass.TopMonotone | src/radjax_student/behavior/objectives.py:80-83 | more tokens never have less mass, all mass is at most one, and the whole vocabulary has mass one |
| CorridorObjective.StatisticsRange | src/radjax_student/behavior/objectives.py:85-91 | margin, top-8 and top-32 mass are ordered probabilities, the tail is the nonnegative remainder and vanishes for small vocabularies |
| CorridorMeaning.StatisticsSpelledOut | src/radjax_student/behavior/objectives.py:78-91 | the margin is between the two most likely tokens, and the tail is what the thirty-two most likely leave of one |
| CorridorObjective.Accumulate | src/radjax_student/behavior/objectives.py:96-122 | the loop over the five statistics computes the weighted means and shares of the assignments |
| CorridorMeaning.SquaredIsDistance | src/radjax_student/behavior/objectives.py:101-104 | the distance charged is the square of the distance to some point of the interval, and at most that to any other |
| CorridorMeaning.ReportSpelledOut | src/radjax_student/behavior/objectives.py:96-122 | with any such distance: the mean distances and rates are the weighted means over the assignments, and the loss is the sum over the five statistics of policy weight times mean squared distance |
| CorridorObjective.CorridorObjective | src/radjax_student/behavior/objectives.py:59-122 | fails exactly as validated, otherwise reports on the items of the batch with a positive total weight |
| CorridorObjective.AcceptedInRange | src/radjax_student/behavior/objectives.py:174-213 | every lookup of an accepted batch is in range |
| CorridorMeaning.AcceptsExactly | src/radjax_student/behavior/objectives.py:174-213 | exactly these batches are accepted: one distribution of at least two tokens per position and input, no more examples with rows than inputs, rows inside the inputs and of modes that declare all five intervals, effective weights that are not negative with a positive sum |
| CorridorObjective.ItemIsItsExample | src/radjax_student/behavior/objectives.py:71-95 | each item is built from the distribution, mask and intervals of the example its global row names |
| CorridorObjective.ReportMeaning | src/radjax_student/behavior/objectives.py:96-122 | loss is nonnegative, and zero iff every positively weighted assignment is inside all five intervals iff the all-inside rate is one; that rate is at most each single rate |
| CorridorObjective.ObjectiveForgetsOrder | src/radjax_student/behavior/objectives.py:59-122 | permuting the assignment rows changes neither the verdict nor the report |
| Hooks.DispatchHooks | src/radjax_student/learning/hooks.py:271-376 | the dispatch loop computes the specified result, errors included |
| HookMeaning.DispatchCalls | src/radjax_student/learning/hooks.py:285-292 | the receipts of a completed dispatch are those of eligible given hooks, each before the next in priority or, for equal priority, in the bytes of the ID; every eligible hook before the last one called is called, and all are when nothing blocks |
| HookMeaning.DispatchTells | src/radjax_student/learning/hooks.py:290-376 | receipts, metrics, warnings, blockers, disabled set and status of a completed dispatch, told from the answers of the hooks called and the policy |
| HookRuns.DispatchForgetsOrder | src/radjax_student/learning/hooks.py:287-289 | the outcome does not depend on the order hooks are given in |
| HookRuns.DispatchMeaning | src/radjax_student/learning/hooks.py:290-376 | receipts name the queued hooks once each in order and tell their answers, metrics are the accepted answers' and the counts add up, at most one blocker and only with the last receipt under fail_fast, the disabled set grows by exactly the failures under disable_hook, and the status fits |
| HookRuns.ResultAccepted | src/radjax_student/learning/hooks.py:233-258 | the result constructor rejects if and only if the caller passed an empty disabled ID |
| HookRuns.DisabledIsFailures | src/radjax_student/steps/loop.py:174-193 | over any run of events the disabled set is the initial one and, under disable_hook, every hook that has failed |
| HookRuns.NeverCalledAgain | src/radjax_student/steps/loop.py:174-193 | under disable_hook a hook that failed at one event is called at no later one, and a hook disabled at the start never |
| HookRuns.Observer.Observe | src/radjax_student/steps/loop.py:174-193 | one event: number, event list, disabled set, metrics and warnings after it, also when dispatch raises; the run stays one threaded run |
| Compatibility.CheckSurfaces | src/radjax_student/artifacts/compatibility.py:231-313 | the surface loop appends each surface's findings to the blockers if the plan needs it and to the warnings otherwise, and sorts the IDs into supported and unsupported |
| Compatibility.CheckDimension | src/radjax_student/artifacts/compatibility.py:335-364 | passes exactly when value and limit are declared and fit; either one missing blocks |
| Compatibility.CheckPlan | src/radjax_student/artifacts/compatibility.py:392-469 | the plan scan appends exactly the specified blockers and fails exactly when there are some |
| Compatibility.Deduplicate | src/radjax_student/artifacts/compatibility.py:490-500 | the first occurrence of every finding is kept, in order |
| CompatibilityMeaning.FirstOccurrences | src/radjax_student/artifacts/compatibility.py:490-500 | deduplicating a longer list adds the new element at the end if and only if it has not occurred before |
| Compatibility.Evaluate | src/radjax_student/artifacts/compatibility.py:59-155 | the whole report from the shared lists |
| CompatibilityMeaning.VerdictExact | src/radjax_student/artifacts/compatibility.py:137-138 | no blockers if and only if identity, capabilities, planned surfaces (known, with kind, kind and schema, and scope listed), limits, tokenizer and plan all fit, each told in the fields of defaults and profile; optional surfaces never matter |
| CompatibilityFindings.BlockersExact | src/radjax_student/artifacts/compatibility.py:158-469 | each blocker is reported exactly when its cause is there, in the fields of the defaults and the profile |
| CompatibilityFindings.WarningsExact | src/radjax_student/artifacts/compatibility.py:177-505 | each warning is reported exactly when its cause is there |
| CompatibilityMeaning.PlanExact | src/radjax_student/artifacts/compatibility.py:392-469 | a nonempty plan passes if and only if its features are supported, its surfaces exist and its order linearises its prerequisites |
| CompatibilityMeaning.EnlargingKeepsPass | src/radjax_student/artifacts/compatibility.py:59-155 | enlarging a profile never turns pass into fail and keeps every supported surface |
| CompatibilityMeaning.SurfacesPartitioned | src/radjax_student/artifacts/compatibility.py:231-313 | supported and unsupported surface IDs together are the available ones, occurrence by occurrence |
| CompatibilityMeaning.ListedAsSupported | src/radjax_student/artifacts/compatibility.py:231-313 | an ID is listed as supported (unsupported) exactly when a surface with it is known and has its kind, schema and scope listed by the profile (or is not) |
| CompatibilityMeaning.ScopesTell | src/radjax_student/artifacts/compatibility.py:289-302 | each surface has its scope report in order, a failed one comes with a blocker, and a supported surface's scope passes |
| CompatibilityMeaning.CapabilitiesSplit | src/radjax_student/artifacts/compatibility.py:68-71 | required capabilities are listed once each in order and split into declared and missing ones |
| RunState.PrefixIsTuple | src/radjax_student/behavior/continuation.py:41-79 | the constant-size prefix view has the length, the items and every index (negative ones and errors included) of the tuple it stands for |
| RunState.LedgerIsPrefix | src/radjax_student/behavior/continuation.py:130-187 | in every accepted state the completed ledger is the schedule's prefix of length next_item_index, whichever representation holds it |
| CompatibilityMeaning.UndeclaredLimitFails | src/radjax_student/artifacts/compatibility.py:344-353 | a profile without a declared limit fails every artifact |

## Left out

- Numerics outside exact reals: JAX execution, gradients, optimizer updates, softmax and log internals, float rounding and the exemplar cross-entropy.
- The ZIP container, `np.lib.format`, SHA-256 and JSON internals, real file input and output, and what fsync makes durable.
- The exact checks of the checkpoint loaders (hashes, sizes, schemas): a reader may reject at any point, and one that accepts has read every declared file.
- Admission of producer artifacts through `radjax_contract`, the command line, rendering, measurement scripts and acceptance receipts.
- Serialisation and validation of the plain frozen records (architecture, objective, learning and optimizer models), and type tests that Dafny's types make.
- Constant descriptor fields (`schema_version`, `tree_kind`), profile and artifact identity fields and claim lists of the compatibility report.
- The mode statistics of `_mode_statistics`, and what sparse targets contain: whether one is accepted is a parameter of `Sealing.Materialise`.
- MappingOutcomes.StopShowsExactly: one stop, callbacks whose reports depend on the position only and never make a rejected state.
- RunState.StoredBackIffLists: counters are integers and policy identifiers texts; from_dict checks neither's type, and stores back unchanged whatever else it accepts there.
- NestedDicts.Dict: a dictionary's insertion order is not part of it; results are compared as mappings, which is how they are used.
- Publication.LoadsAreComplete: a reader's later checks of contents are one nondeterministic rejection.
- FormatMeaning.PartSpelledOut: a part of 2^32 bytes or more, whose length takes more than eight digits; `KeypathCodec.EncodeInjective` covers it.
- NpzReading.RoundTrip: assumes that `np.lib.format.read_array` reads back the members of the canonical leaves of the tree at hand; a tree with leaves of an extension dtype, whose name the header does not spell, is outside wherever the library returns the raw dtype.
- Hooks.DispatchHooks: the answers of hooks are given by hook and context; hooks that share state with each other through other means are not modelled.
- Continuation.RunOneItem: counters reported by a mapping outcome are integers; conversions by `int` that raise are not modelled.
