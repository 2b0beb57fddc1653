# Verification of mpif's hard core

mpif is a layer between Fortran callers and an MPI library. Most of it forwards calls. This project models the parts
that decide something themselves, in Dafny, and proves what they promise.

| files | what they model |
|---|---|
| `MpiDatatypes`, `SectionLayout`, `DescriptorWalk`, `DescriptorWalker` | `mpif_cdesc_create_datatype`: a Fortran array section is compiled into a derived MPI datatype |
| `SlotPool`, `CallbackPool` | the pools of trampolines behind reduction operators and error handlers, under interleaving and as a class |
| `KeyvalProtocol`, `Callbacks`, `KeyvalTable` | the attribute callbacks' keyval table, under interleaving and as a class |
| `CallbackBoxes` | the heap boxes behind generalized requests and data representations |
| `FieldAgreement`, `NodeLayout`, `CollectiveCheck` | the collective half of `mpif_check_environment`: the field loop, the node check, and the protocol with both in it |
| `SplitWrappers`, `CppLines` | two programs on text: the splitter of marked files, and the conditional filter of a checking script |
| `FortranStrings`, `RemovedRoutines` | string conversion, and the MPI-1 routines with 32-bit addresses |
| `Options`, `Procedures`, `MpiConstants` | shared vocabulary |

How the models are made:

- A function of the source that changes state is a method, on a class where the source has an object or a table; its
  loop is a loop. Beside it stands a function on values that says what it computes, and the lemmas are about that.
- What runs concurrently is a state machine: any number of threads, each with a program counter and one atomic operation
  per step; of ranks, each of which makes a call or returns from one; or of callbacks, which are entered, assign to
  their extra state and return. A run is any sequence of steps. Some fields are history, marked as such: no step looks
  at them.
- A datatype is a typemap with a lower and an upper bound (MPI-5.0, sections 5.1.1, 5.1.2, 5.1.6, 5.1.7). A descriptor
  is its extents and byte strides (Fortran 2018, sections 18.5.2 and 18.5.3). The specification of the walker is array
  element order: element k lies at the sum of its digits, in the mixed radix of the extents, times the strides.
- The MPI library answers as it likes: an arbitrary outcome function, or a parameter, decides which calls fail.
- Sizes that are constants in the source (128 operators, 64 error handlers, 256 keyvals) are parameters here, so the
  results hold for any.

Where the source and what it says of itself part:

- `src/mpif_cdesc.c:97-99` says that an hvector level restores extent == span only when its stride is the inner extent,
  takes that for the contiguous case, and concludes that what is lost stays lost. Over a strided level it is not the
  contiguous case: three 4-byte elements 8 bytes apart have extent 20 and span 24, and two of those at stride 20 have
  extent 40 again (`MpiDatatypes.HvectorRestoresExtent`). The code drops to hvector for good all the same, which is
  right in any case (`DescriptorWalk.WalkBuildsLayout`), and the flag it keeps has a closed form
  (`DescriptorWalk.DenseIffPacked`).
- `src/mpif_check.c:535-536` says that ranks with an unset node variable defer to those that state one. With a negative
  statement they do not: of two ranks that state -1 and nothing, the first is refused
  (`FieldAgreement.UnsetDoesNotDefer`). `FieldAgreement.AllPassIffAgreed` has the exact condition, and
  `FieldAgreement.AgreedNonNegative` the promised one, where it holds.
- A reserve that answers NULL has not always found the pool full. `SlotPool.NothingFoundThoughFreeIff` says exactly when
  it may not have: there is another thread, and some slot is not yet retired. `SlotPool.NothingFoundMeansFull` proves
  it of every run in which no cancel ends while the thread looks.
- A Fortran string comes back whole from C exactly if it contains no NUL (`FortranStrings.FortranRoundTrip`); "a", NUL, "b"
  comes back as "a" and two blanks (`FortranStrings.NulIsLost`).

## Model

| member | source | states |
|---|---|---|
| DescriptorWalker.CreateDatatype | src/mpif_cdesc.c:16-128 | For every rank, extents, strides (negative too), element length, old type and count, and whichever library calls fail: success exactly if the old type is live, the count is acceptable and no call failed; then the typemap is the section's in array element order, and exactly one new committed type lives, which is not the old one. Every other type made was freed once; on error nothing new lives and the caller's variable is untouched |
| DescriptorWalker.FoldFactor | src/mpif_cdesc.c:27-46 | The units per element are folded into the base type, or the call ends with nothing made and the right error |
| DescriptorWalker.WalkDimensions | src/mpif_cdesc.c:54-114 | The loop with its frees and its two exits refines the walk on values, for any answers of the library |
| DescriptorWalker.WrapLevel | src/mpif_cdesc.c:91-106 | One level wraps the current type and frees it if it was made here; if the library refuses, everything made so far is gone |
| DescriptorWalker.Fail | src/mpif_cdesc.c:124-127 | The failure exit restores the library to what lived at the start, the old type included |
| DescriptorWalker.Deliver | src/mpif_cdesc.c:116-127 | The type is committed and handed over, or, if MPI refuses, everything made is gone and the caller's variable untouched |
| DescriptorWalk.CompileIsSectionTypemap | src/mpif_cdesc.c:27-114 | Without library failures: accepted exactly if the old type has bytes, an element is a whole number of it, the old count's bytes are a whole number of elements, and the elements end on a row of the first dimension they reach; then the typemap is that of elements that hold their bytes' worth of the old type, at the section's places |
| DescriptorWalk.SectionKeepsBytes | src/mpif_cdesc.c:20-26 | An element's typemap has exactly the element's bytes, the elements have the bytes of the old count of the old type, and so has the section |
| DescriptorWalk.DescribableIff | src/mpif_cdesc.c:79-90 | The counts that can be described are those that are some whole number, at most the extent, of what lies below some dimension |
| DescriptorWalk.WalkBuildsLayout | src/mpif_cdesc.c:48-114 | The walk, with or without the contiguous shortcut, builds the first `count` elements in array element order, and succeeds exactly on the describable counts |
| DescriptorWalk.WalkFrom | src/mpif_cdesc.c:79-109 | The loop invariant of the walk from any dimension on, including a last dimension covered in part |
| DescriptorWalk.ShortcutRefinesHvectorWalk | src/mpif_cdesc.c:58-72 | The walk with the shortcut succeeds where the walk with hvector at every level does, and builds the same typemap |
| DescriptorWalk.DenseIffPacked | src/mpif_cdesc.c:58-77 | `dense` in closed form: the base fills an element and every dimension so far steps by exactly the bytes below it; while it holds, the type starts at 0 and its extent is the bytes covered |
| DescriptorWalk.SpanOnlyMisplacesReplica | src/mpif_cdesc.c:58-68 | At any level of any section: where the stride is the span below but the extent below is not, a contiguous level misplaces every entry of every replica but the first |
| DescriptorWalk.SpanOnlyRightIff | src/mpif_cdesc.c:58-68 | A walk that compares strides with the span alone is right on rows of strided elements only if they are not strided |
| DescriptorWalk.SpanOnlyMisplacesRow | src/mpif_cdesc.c:59-67 | Otherwise it misplaces every entry of every row but the first |
| SectionLayout.LayoutAt | src/mpif_cdesc.c:48-53 | The section typemap entry by entry: entry j of element k is entry j of the base, moved to element k's offset |
| SectionLayout.OffsetOfSubscripts | src/mpif_cdesc.c:48-53 | The offset of the element at any subscripts is the sum of the subscripts times the strides, its position being that of array element order |
| SectionLayout.DigitIsRemainder | src/mpif_cdesc.c:80-86 | The digits that the model counts down to are C's remainder and quotient of non-negative integers |
| SectionLayout.OffsetAppend | src/mpif_cdesc.c:107-108 | Offsets in mixed radix split at any dimension into an inner and an outer part |
| SectionLayout.ReplicateLayout | src/mpif_cdesc.c:91-96 | Repeating the elements of the inner dimensions at a dimension's stride gives the elements of one dimension more, wholly or partly covered |
| MpiDatatypes.ContiguousIsHvectorIff | src/mpif_cdesc.c:58-66 | Contiguous and hvector build the same typemap exactly if at most one copy is made, the type is empty, or the stride is the extent |
| MpiDatatypes.HvectorExtent | src/mpif_cdesc.c:59-63 | An hvector level's extent, forward or backward, is the stride's size times (n - 1) plus the inner extent: the bytes it spans only if the stride's size is the inner extent |
| MpiDatatypes.HvectorRestoresExtent | src/mpif_cdesc.c:97-99 | Over a strided level whose extent is not its span, an hvector level can have extent equal to span again |
| SlotPool.ExactlyOneOwner | src/mpif_callbacks.c:623-647 | However threads interleave, a slot is in use exactly while it has an owner, it never has two, a holder finds its own procedure there, and a free slot has none |
| SlotPool.HolderHasItsProcedure | src/mpif_callbacks.c:623-632 | Whatever the other threads do, the slot that a reserve returns has the procedure that this reserve was called with |
| SlotPool.RunKeepsInv | src/mpif_callbacks.c:623-647 | The invariant behind that, kept by every step of every run |
| SlotPool.TrampolineIsForever | src/mpif_callbacks.c:365-383 | A trampoline that MPI has made an object with reaches that object's procedure in every later state |
| SlotPool.ObjectIsForever | src/mpif_callbacks.c:368-374 | An object's slot is never written again |
| SlotPool.AtMostOneObjectPerSlot | src/mpif_callbacks.c:376-383 | No run makes more objects than there are slots |
| SlotPool.CreationsAreKept | src/mpif_callbacks.c:368-383 | The slots that objects keep count the successful creations |
| SlotPool.NothingFoundMeansFull | src/mpif_callbacks.c:624-639 | Whatever step ends a thread's reserve with nothing, the pool is full then, provided that no cancel ended while it looked; and that step changes nothing else |
| SlotPool.NothingFoundThoughFreeIff | src/mpif_callbacks.c:624-647 | From any state in which a thread is about to reserve, some run leads to where its reserve can end with nothing although a slot is free, if and only if there is another thread and some slot is not yet retired |
| SlotPool.FullPoolFails | src/mpif_callbacks.c:642-647 | On a full pool with a slot not yet retired, the run is this: the thread looks at all slots, and then the other gives its slot up |
| SlotPool.ReleaseFirstLosesProcedure | src/mpif_callbacks.c:645-646 | With the two stores of cancel swapped, a run loses the procedure of a thread that holds the slot |
| CallbackPool.Pool.Reserve | src/mpif_callbacks.c:623-640 | The first free slot gets the procedure and nothing else changes; none is found exactly if all are taken |
| CallbackPool.Pool.Cancel | src/mpif_callbacks.c:642-647 | The slot is free again and nothing else changes; a number that is no slot is ignored |
| CallbackPool.HandlerReachesItsProcedure | src/mpif_callbacks.c:658-717 | Whatever handlers are created after it, with or without success, calling the trampoline of a created handler reaches the procedure it was created with |
| CallbackPool.SlotsAreSuccesses | src/mpif_callbacks.c:658-663 | After any creations, the slots in use are those in use before and one per success |
| CallbackPool.Pool.ReserveErrhandler | src/mpif_callbacks.c:878-909 | No trampoline exactly if the pool is full or the kind is none of the four, and then the pool is as it was; otherwise the trampoline is of that kind and of the slot taken |
| CallbackPool.CreateErrhandler | src/mpif_removed.c:221-237 | Creating an error handler happens wholly or leaves pool, library and the caller's handle as they were; success takes exactly the first free slot, whose trampoline MPI keeps, and the slot has the given procedure |
| KeyvalProtocol.TableIsRight | src/mpif_callbacks.c:121-164 | However registrations and dispatches interleave: no keyval has two slots, each holds what was registered last for it, a lookup finds its own keyval's slot, never a reserved one, and misses none published when it began, and a registration gives up only when no slot is free |
| KeyvalProtocol.SlotAdvances | src/mpif_callbacks.c:127-133 | A slot goes from free to reserved to a keyval, which it keeps |
| KeyvalProtocol.StepAdvancesSlot | src/mpif_callbacks.c:319-338 | No step takes a slot any other way |
| KeyvalProtocol.DispatchCallsRegistered | src/mpif_callbacks.c:187-221 | A trampoline called for a keyval in a role calls the procedure registered last for that keyval in that role, or none if there is none, whatever other keyvals are registered meanwhile; and it does not return without |
| KeyvalProtocol.DispatchesStayRight | src/mpif_callbacks.c:187-221 | The same of every further call that the thread makes for the keyval |
| KeyvalProtocol.RegistrationRecords | src/mpif_callbacks.c:311-353 | A registration records the procedure it was given, for the keyval and in the role it was given, and leaves the other role; or it finds no slot free and none with the keyval, and records nothing; nothing else ends it |
| KeyvalProtocol.ComesToItsEnd | src/mpif_callbacks.c:158-164 | From every reachable state, a thread by itself ends its registration or dispatch within a bounded number of steps |
| KeyvalProtocol.RunKeepsInv | src/mpif_callbacks.c:311-353 | The invariant behind these, kept by every step of every run |
| KeyvalTable.PredefinedCallback | src/mpif_callbacks.c:106-116 | A procedure is recognised exactly if it is one of Fortran's own, and gets the sentinel that goes with it |
| KeyvalTable.Table.RegisterCallback | src/mpif_callbacks.c:311-353 | A user's procedure is recorded for keyval and role; refused exactly if it is a user's, the keyval is new and every slot is taken, and then nothing changes; one of Fortran's own changes nothing |
| KeyvalTable.Table.Find | src/mpif_callbacks.c:158-164 | The first slot with the keyval, or none exactly if no slot has it |
| KeyvalTable.Table.Claim | src/mpif_callbacks.c:318-339 | A new keyval gets a slot with no procedures; refused exactly if all are taken |
| KeyvalTable.Table.Store | src/mpif_callbacks.c:341-352 | One role of one keyval changes and nothing else |
| KeyvalTable.Table.Dispatch | src/mpif_callbacks.c:187-221 | A trampoline calls what is recorded for its keyval and role, or answers MPI_ERR_OTHER |
| KeyvalTable.Table.TakenIsRegistered | src/mpif_callbacks.c:156-156 | Slots taken are keyvals with a user's callback, counted |
| KeyvalTable.ReplayRecordsLast | src/mpif_callbacks.c:311-353 | After any history of registrations, what is recorded for a keyval that has a slot is the last user's procedure per role |
| KeyvalTable.ReplayKeys | src/mpif_callbacks.c:317-335 | After any history, the keyvals with slots are those tried with a user's callback, all of them unless the table is full |
| KeyvalTable.TakenIsKeyvals | src/mpif_callbacks.c:147-156 | In a table of distinct keyvals, taken slots and keyvals are equally many, and it is full exactly if no slot is free |
| CallbackBoxes.BoxesAreRight | src/mpif_callbacks.c:930-995 | Over every run, with callbacks of different objects overlapping and objects started or released while others' procedures run: no freed box is touched by a trampoline, a procedure or a release; the boxes are exactly those of live requests and data representations, one each; every open call's box is there; every call was of the object's own procedure for that role (query, free, cancel; read, write, extent), which found the extra state as the object's procedures left it, or as started; no callback follows the free callback |
| CallbackBoxes.EnterCalls | src/mpif_callbacks.c:971-995 | Each callback that MPI may make is made, to the object's procedure for its role, which finds what is in the box; nothing else changes |
| CallbackBoxes.SetExtraReachesBox | src/mpif_callbacks.c:974-993 | What a procedure assigns to its extra state is in its own object's box, and in no other |
| CallbackBoxes.LeaveReleases | src/mpif_callbacks.c:979-986 | When the free callback returns, the box is gone; when another returns, nothing is |
| CallbackBoxes.StartDecides | src/mpif_callbacks.c:969-969 | A start that MPI refuses takes the box with it |
| CallbackBoxes.ExtraStateStays | src/mpif_callbacks.c:934-935 | Between assignments by an object's own procedures, its extra state stays |
| CallbackBoxes.StartedWith | src/mpif_callbacks.c:952-967 | The procedures that a request is started with and the variable's value then are those of all its calls, ever after |
| CallbackBoxes.RunKeepsInv | src/mpif_callbacks.c:952-1054 | The invariant behind that, kept by every event of every run |
| CallbackBoxes.DatarepStays | src/mpif_callbacks.c:997-1003 | A registered data representation and its box are there for good |
| CallbackBoxes.VariablesAreTheCallers | src/mpif_callbacks.c:934-935 | No callback writes the caller's variable; an extra state starts as the variable's value at the start |
| CallbackBoxes.InitialIsFixed | src/mpif_callbacks.c:962-966 | What a request was started with never changes |
| FieldAgreement.FieldLoop | src/mpif_check.c:561-574 | The loop on one rank finds the first field that is not consistent, or none |
| FieldAgreement.AllPassIffAgreed | src/mpif_check.c:531-574 | The loop passes on every rank exactly if all version fields are equal and the stated node variables agree |
| FieldAgreement.AgreedNonNegative | src/mpif_check.c:535-536 | With node variables that are not negative, agreement is: versions equal everywhere, and non-zero statements equal per variable |
| FieldAgreement.UnsetDoesNotDefer | src/mpif_check.c:535-567 | Of two ranks that state -1 and nothing for MPIF_NUM_NODES, the first fails the loop and the second passes |
| CollectiveCheck.SameCollectives | src/mpif_check.c:514-713 | In every run of any number of ranks, and however early MPI lets calls return, all ranks make the same calls in the same order, the gather among them exactly if some rank states a positive node variable, and a rank that is done has made them all; a job whose ranks agree, load one library and lie on nodes as stated is never aborted, and any other never comes to its end |
| CollectiveCheck.NeverHangs | src/mpif_check.c:621-624 | However early calls have returned so far, until the job is aborted or done some rank can take a step, even if from then on MPI makes every rank wait for every other in each collective |
| CollectiveCheck.RunsAreBounded | src/mpif_check.c:514-713 | No run has more than sixteen steps per rank that have an effect |
| CollectiveCheck.RunsOut | src/mpif_check.c:514-713 | Every run can be carried on until nothing more can happen |
| CollectiveCheck.EveryRunEndsRightly | src/mpif_check.c:514-713 | Where nothing more can happen, an acceptable job has all ranks done, and any other is aborted |
| CollectiveCheck.DoneMeansAsStated | src/mpif_check.c:642-710 | Of a job that comes to its end: a positive MPIF_NUM_NODES is the number of different names, a positive MPIF_NODE_SIZE is how many ranks have each name, and both multiply to the number of ranks |
| CollectiveCheck.OwnDecisionHangs | src/mpif_check.c:533-535 | Were each rank to decide by its own variables, a job whose root states one that another rank does not would hang, though the loop accepts it: every run can be carried on to where nothing more can happen, the job is not aborted and the root waits |
| CollectiveCheck.RingPairs | src/mpif_check.c:597-602 | The neighbours are the next and the previous rank, around the end; each rank's left neighbour sends to it, on any number of ranks |
| NodeLayout.PadName | src/mpif_check.c:630-633 | The name stays, and all behind it becomes NUL |
| NodeLayout.StrEqualIsEqual | src/mpif_check.c:312-317 | On zero-padded records strcmp finds equal exactly what memcmp does |
| NodeLayout.MemLeqAntisymmetric | src/mpif_check.c:315-317 | memcmp orders records completely |
| NodeLayout.WalkRun | src/mpif_check.c:690-696 | The inner loop takes one run of equal records and counts it |
| NodeLayout.PrintRuns | src/mpif_check.c:662-687 | The printing walk lists the first eight runs and counts all |
| NodeLayout.PrintWalk | src/mpif_check.c:643-687 | It reports as many nodes as there are distinct names among those gathered, at most eight of them, each once and with its multiplicity |
| NodeLayout.CheckRuns | src/mpif_check.c:688-708 | The checking walk accepts exactly if every run has the stated size and there are as many runs as stated |
| NodeLayout.CheckWalk | src/mpif_check.c:688-708 | Its verdict is about the names as gathered: accepted exactly if every name's multiplicity and the number of names are as stated, and a refusal names a true one |
| NodeLayout.RunsAreDistinct | src/mpif_check.c:688-703 | After the sort, the runs are one per distinct name |
| NodeLayout.RunSizes | src/mpif_check.c:691-696 | After the sort, each run is as large as its name is frequent |
| NodeLayout.RunsTotal | src/mpif_check.c:689-703 | The runs account for every process |
| NodeLayout.LayoutIsProduct | src/mpif_check.c:698-708 | A layout accepted with both variables stated has MPIF_NUM_NODES times MPIF_NODE_SIZE processes |
| SplitWrappers.Split | ci-scripts/split-wrappers.sh:77-166 | On raw lines: the script succeeds exactly on documents with an MPI_ region and no two of one name; each MPI_ region is then one part, in order, every part begins with the prologue, the other regions make up the rest, and no two paths are equal; otherwise the error is the one that the first pass finds first, or else the second |
| SplitWrappers.FirstPass | ci-scripts/split-wrappers.sh:97-121 | Accepts exactly if markers alternate and end closed, says what is wrong otherwise, and collects the outside lines with blank runs cut |
| SplitWrappers.SecondPass | ci-scripts/split-wrappers.sh:123-166 | On an accepted file the unchecked depth stays 0 or 1, and the parts are the document's; refused exactly if two share a path, naming the first that is not new, or there is none |
| SplitWrappers.WritePart | ci-scripts/split-wrappers.sh:136-147 | A part is added unless its path has been written before |
| SplitWrappers.AcceptedIffDocument | ci-scripts/split-wrappers.sh:97-121 | The files accepted are exactly those that flatten a document of outside lines and regions |
| SplitWrappers.ParseFlatten | ci-scripts/split-wrappers.sh:92-93 | Parsing undoes flattening, so no line is in doubt |
| SplitWrappers.CollapseRight | ci-scripts/split-wrappers.sh:82-85 | Cutting blank runs loses no other line, leaves no two blank lines together and loses no run altogether |
| SplitWrappers.CutLine | ci-scripts/split-wrappers.sh:126-153 | One line of the second pass keeps parts, rest and paths those of the document so far; it is refused only at the end of a region whose path is taken |
| SplitWrappers.PathsDifferIffFieldsDo | ci-scripts/split-wrappers.sh:127-142 | On raw lines: two parts share a path exactly if the last fields of the marker lines that begin them agree but for case |
| SplitWrappers.ClassifyIs | ci-scripts/split-wrappers.sh:100-115 | A raw line is a beginning, an end, blank or code by the markers in it, the beginning first; a region's name is its first line's last field in small letters |
| SplitWrappers.LastFieldIs | ci-scripts/split-wrappers.sh:129-130 | The last field is what stands between the last blanks but those at the end, and these |
| SplitWrappers.IsMpiIff | ci-scripts/split-wrappers.sh:136-136 | A region gets a part of its own exactly if its first line's last field begins with MPI_, in capitals or not |
| SplitWrappers.PartsOfOne | ci-scripts/split-wrappers.sh:136-153 | What one region becomes: a part of the path of its name, with the prologue before its body, or a piece of the rest |
| SplitWrappers.PartsOfConcat | ci-scripts/split-wrappers.sh:123-159 | Parts, rest and outside lines of two documents, one after the other, are those of the first and then those of the second |
| SplitWrappers.PathsDifferIffNamesDo | ci-scripts/split-wrappers.sh:137-157 | Parts share a path exactly if their regions' names are the same, and none has the path of the rest |
| CppLines.CppLines | dev/check-f08-bindings.jl:415-441 | The lines kept are the recursive meaning of the nested conditionals that the lines spell; an error exactly if they spell none, and it is the first |
| CppLines.ClassifyDirective | dev/check-f08-bindings.jl:420-434 | A raw line that begins with #, blanks apart, is the directive of its first word, of the macro of its second, if it is one of the four |
| CppLines.ClassifyText | dev/check-f08-bindings.jl:420-421 | Any other raw line is text |
| CppLines.ConditionalKeeps | dev/check-f08-bindings.jl:405-412 | Of raw lines with #ifdef or #ifndef, #else and #endif: which branch is kept when the macro is undefined and when not |
| CppLines.RunBlock | dev/check-f08-bindings.jl:417-438 | From any stack, the scan of a block adds its meaning if everything around is on, and leaves the stack as it was |
| CppLines.AcceptsIffNested | dev/check-f08-bindings.jl:421-439 | Whatever is undefined, the lines accepted are exactly those that spell nested conditionals |
| CppLines.Close | dev/check-f08-bindings.jl:428-434 | What is accepted inside a conditional is the remainder of its branches, and then something accepted outside |
| CppLines.EvalIsSelect | dev/check-f08-bindings.jl:435-437 | A line is kept exactly if all guards it stands under hold |
| CppLines.KeptInExactlyOnePass | dev/check-f08-bindings.jl:405-412 | Of two passes that differ in one macro, a line is kept in exactly one if and only if it stands under that macro in one sense only and its other guards hold; never in both if it stands under it, and in both or neither if it does not |
| CppLines.TwoPasses | dev/check-f08-bindings.jl:636-637 | The same for both passes over a whole file, line by line |
| FortranStrings.FStrLen | src/mpif_strings.c:9-15 | The length up to the last character that is not blank |
| FortranStrings.StrdupF2c | src/mpif_strings.c:25-36 | A fresh C string: the Fortran string without its trailing blanks |
| FortranStrings.StrdupF2cTrim | src/mpif_strings.c:53-70 | A fresh C string: the Fortran string's core |
| FortranStrings.StrcpyC2f | src/mpif_strings.c:73-81 | The buffer holds the text, cut or padded with blanks |
| FortranStrings.PadIs | src/mpif_strings.c:75-80 | The buffer character by character |
| FortranStrings.FortranRoundTrip | src/mpif_strings.c:25-81 | To C and back is the same string; through strlen, exactly if it contains no NUL |
| FortranStrings.NulIsLost | src/mpif_strings.c:25-81 | A concrete string with a NUL, and what comes back of it |
| FortranStrings.CRoundTrip | src/mpif_strings.c:25-81 | To Fortran and back is the text cut to the buffer without trailing blanks, hence the same text exactly if it fits and does not end in a blank |
| FortranStrings.CoreIsDelimited | src/mpif_strings.c:38-52 | The core is the one string without blanks at its ends that the string is, between blanks |
| FortranStrings.FCount | src/mpif_strings.c:86-92 | Where there is a blank element, the search ends, at the first |
| FortranStrings.FCount2d | src/mpif_strings.c:97-106 | The strided search is the plain search in the column |
| FortranStrings.ColumnEntry | src/mpif_strings.c:101-102 | Element n of a column is where the stride says |
| FortranStrings.ColumnAt | src/mpif_strings.c:94-102 | The column character by character, in array element order |
| FortranStrings.BlankAtIff | src/mpif_strings.c:88-90 | An element is blank exactly if each of its characters is |
| RemovedRoutines.IdiomDescribesMembersIff | src/mpif_removed.c:18-23 | Of any request for a hindexed or struct type whose displacements are differences of mpi_address_ answers: the type made, used at the base address, is the members' own data exactly if every member that has any is less than 2 GiB away |
| RemovedRoutines.HindexedDescribesMembersIff | src/mpif_removed.c:80-92 | The same of the request that mpi_type_hindexed_ makes |
| RemovedRoutines.StructDescribesMembersIff | src/mpif_removed.c:101-116 | The same of the request that mpi_type_struct_ makes, each member with its own type |
| RemovedRoutines.DisplacementIsExactIff | src/mpif_removed.c:20-23 | The wrapped difference of two truncated addresses is the true one exactly if that is a 32-bit integer |
| RemovedRoutines.Address | src/mpif_removed.c:137-142 | The address modulo 2^32, or 0 on failure |
| RemovedRoutines.TypeExtent | src/mpif_removed.c:165-170 | The extent modulo 2^32, or 0 on failure |
| RemovedRoutines.TypeLb | src/mpif_removed.c:179-185 | The lower bound modulo 2^32, or 0 on failure |
| RemovedRoutines.TypeUb | src/mpif_removed.c:194-200 | The upper bound modulo 2^32, or 0 on failure |
| RemovedRoutines.BoundsFit | src/mpif_removed.c:165-200 | Upper minus lower bound is the extent in 32-bit arithmetic always, and the true extent exactly if that is a 32-bit integer |
| RemovedRoutines.TypeHindexed | src/mpif_removed.c:80-92 | MPI is asked for a type with the same displacements, widened one by one, and none for a count that is not positive; only success has a handle |
| RemovedRoutines.TypeStruct | src/mpif_removed.c:101-116 | The same, with each member's type handle |

## Left out

- Counts and sizes are unbounded integers: overflow of MPI_Count in the walker is not modelled.
- The walker's descriptors have positive extents: zero-size and assumed-size arrays are contiguous and do not come to it (include/mpif_cdesc.h:14-19). The old count is not negative.
- PMPI_Type_free never fails here, as the source ignores its answer. Typemap bounds have no alignment padding, and the bounds of replicated types are those of the outermost copies.
- Memory ordering: atomic operations are steps in one order, and publication of plain fields to other threads is taken from the source's argument (src/mpif_callbacks.c:135-145).
- The trampolines written out by macro (src/mpif_callbacks.c:413-621, 719-876) are one function of slot and kind. Handles, flags and lengths that a trampoline converts on the way are not modelled.
- Which keyvals and when MPI hands them out: two threads never register one keyval at a time, and keyvals of communicators, datatypes and windows, which share the table, are never the same number. A predefined callback leaves an earlier user's procedure for a reused keyval in the table, where MPI will not ask for it.
- CallbackBoxes lets callbacks of one data representation overlap, but not those of one request, which MPI calls one at a time. It works on values, a map from addresses to boxes that are reused once freed: writing through an address is the map's update.
- CollectiveCheck: the earliest return is by data dependence, and duplicating and freeing the communicator may return at once; reductions are exact, point-to-point delivery and the head count work (their checks would find a broken library), and the conversion of the environment's numbers to int is left out, with getenv, strtol and all that comes before the duplicate communicator.
- qsort is its contract: the records sorted by memcmp are a permutation of those gathered.
- Printing, abort messages, running out of memory.
- `mpif_check_version`, `mpif_check_contains`: settled by reading them.
- SplitWrappers: files are values, so parts written before an error exit, the manifest and its stamps are left out.
- CppLines: characters are ASCII, where Julia also takes other letters and spaces. `split_names` and `paren_contents` would add easy members, and the parsing of PDF text depends on another program's layout.
- FortranStrings: memory is a sequence of characters, and aliasing of source and destination, which the source forbids, is not modelled.
- RemovedRoutines: `mpi_type_hvector_` and the error handler setters forward; buffer sentinels become addresses elsewhere. The sum of lower bound and extent is taken to fit 64 bits.
- Handle conversion, attributes, logical values, sizes, constants and the generated wrappers are forwarding or tables.
