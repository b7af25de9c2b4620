# Verified model of the status-code headers

This project models the library under `include/status-code/` and proves properties of the model in
Dafny 4.11. `dafny verify dfyconfig.toml` checks everything.

A *status code* is a domain pointer and a value. A *domain* answers questions about its codes: is it
a failure, is it equivalent to another code, what is its generic (`errc`) code, how is it copied and
destroyed. An *erased* code keeps the domain pointer and the value's bytes and forgets the type. A
*nested* code's value is a pointer to a heap payload holding another code.

| file | models |
|---|---|
| `Codes.dfy` | the codes of nine domains, `_do_failure`, `_do_equivalent`, `_do_generic_code`, `equivalent()` |
| `Comparison.dfy` | what `equivalent()` computes, when it is transitive, what wrapping does, the success law |
| `Reentry.dfy` | the stack depth of a comparison that calls back into `==` |
| `ByDomain.dfy` | the same answers domain by domain, on values, bits and tables |
| `QuickEnum.dfy` | table searches of quick enumerations |
| `HResult.dfy` | wrapping win32 and NT codes into HRESULTs |
| `Ownership.dfy` | erased handles owning nested payloads: a state machine, and the program over plain values it refines |
| `Erasure.dfy`, `ErasedCopy.dfy` | `erasure_cast` on bytes; `clone()` and nothrow copy of byte-copied codes |
| `InPlace.dfy`, `HandleOps.dfy` | status code objects as bytes, read in place by their domains; the handle operations on them, which take the state machine's steps |
| `RefCount.dfy` | atomically counted strings under any interleaving |
| `StringRefs.dfy` | the destroy-and-reconstruct assignments of `string_ref` |
| `Registry.dfy` | the spin-locked table of `std::error_category` domains |
| `Uuid.dfy` | domain ids parsed from UUID text |
| `MessageBuffer.dfy` | the growing conversion buffer of Windows messages |
| `Errored.dfy` | `errored_status_code`, checked on the bytes of erased objects |

## Where the code and its documentation disagree

The model follows the code.

- `status_code.hpp:348` calls `equivalent()` guaranteed transitive. On any family of codes that has the
  errc of each code equivalent to one, it is transitive exactly when codes with such a key compare as
  their keys do and no code without one stands beside a wrapping of it, conditions on the values and
  the tables (`Comparison.TransitiveIff`). `Comparison.InClass` defines a class where that holds, and
  lemmas give families for which it fails: HTTP codes, unmapped win32 and NT codes, quick
  enumerations that share a later errc, and wrapped HTTP codes.
- Which erasures, conversions and copies are accepted is decided by the padded sizes of the objects
  (`status_code.hpp:467`, `status_code_domain.hpp:586`), and casts and moves carry only the bytes of the
  values. So an eight-byte value, or the address of a nested payload, is accepted by an
  `erased_status_code<int>`: a conversion cuts it, and a nothrow copy keeps it in the padding until the
  next move cuts it. What is kept, and when, is `InPlace.CastKeepsAllIff` and
  `InPlace.CopyThenMoveKeepsAllIff`, and when failure is, `InPlace.MoveKeepsFailureIff`;
  `Ownership.IntCutsNested` and `Errored.MoveTurnsFailureIntoSuccess` are what can go wrong.
- Move assignment and `clear()` of an erased code run the storage destructor, not the erased one, so
  an overwritten nested payload is lost. `Ownership.RunLoses` counts exactly those, off the program.
- A nested code is not equal to itself when its payload does not recognise its own generic code (an
  HTTP code, say), nor when its generic code is unknown (an unmapped win32 code).
- The UUID the header tests its parser with has the id 0, which the same header says not to use.
- A message that is only line ends makes the trimming loop read before its buffer, and a counted
  reference whose own allocation fails yields a literal text with errcode 0.
- The message loop never ends for a message of one wide character, nor for two that need more than
  three bytes, unless an allocation fails.
- In a noexcept function, `nested_status_code.hpp:153` allocates outside the try block, so a
  throwing allocator ends the process instead of making the copy fail.

## Assumptions

- Domain ids of different domains differ. Wrapping a wrapped code gives back the inner domain's id,
  because the id is an exclusive or with one constant; the public interface cannot build that, and
  the model gives such codes distinct domains.
- The mapping tables are arbitrary functions (`Codes.Tables`). Where a theorem needs more it says so:
  `NtTablesAgree` and `ErrorsStayErrors` both hold of the rows in `include/status-code/detail/`.
- Atomic operations are sequentially consistent. Allocators never hand out an address in use.
- A copy of a `string_ref` is not raced by a move or a destruction of its source, and fewer than 2^32
  references exist.
- The system's conversion of a message and the failures of its allocations are oracles.
- A status code object is an eight-byte domain pointer, its value, and padding to a multiple of eight;
  value types have any width and sign that holds their values, and need no stricter alignment.
  Padding is indeterminate: each construction and move is given what is in it. `clone()` builds its
  result in place. Following an address a move has cut is a fault.
- An errored code is not assigned through a reference to its base class, which would skip its check.

## Model

| member | source | states |
|---|---|---|
| Comparison.EquivalentToErrc | include/status-code/generic_code.hpp:436-462 | against an errc, `equivalent()` is the domain's own claim or an equal known generic code, for every code |
| Comparison.RecognisesIffInClass | include/status-code/generic_code.hpp:342-354 | a domain recognises its own generic code and no other errc exactly for the codes of the syntactic class |
| Comparison.SameGenericOnClass | include/status-code/generic_code.hpp:436-462 | on the class, with known generic codes, two codes are equivalent exactly when their generic codes agree |
| Comparison.ClassTheorem | include/status-code/nt_code.hpp:193-221 | ... and this holds for all pairs exactly when the NT-to-win32 and NT-to-errno tables agree |
| Comparison.CanonicalCodesFormEquivalence | include/status-code/status_code.hpp:348-352 | on the class `equivalent()` is reflexive, symmetric and transitive |
| Comparison.SameIsAnEquivalence | include/status-code/generic_code.hpp:460-475 | `operator==` is an equivalence on empty and canonical codes together |
| Comparison.StandardErrorCodesAreCanonical | include/status-code/std_error_code.hpp:231-291 | codes of the generic and system categories are canonical and equal the generic and posix codes of their value |
| Comparison.SymmetricAlways | include/status-code/generic_code.hpp:436-462 | `equivalent()` is symmetric on all codes |
| Comparison.EquivalentToOwnGeneric | include/status-code/generic_code.hpp:436-462 | every code equals its known generic code |
| Comparison.KeyMeans | include/status-code/generic_code.hpp:436-462 | which codes are equivalent to an errc at all, and to which; all of the class are, to their generic code |
| Comparison.StrictQueryIsMatch | include/status-code/std_error_code.hpp:231-270 | a strict query, through nesting and re-entered `==`, is decided by a recursion-free condition on the values and tables |
| Comparison.TransitiveIff | include/status-code/status_code.hpp:348-353 | on any family of codes closed under their errc, exactly when it is transitive |
| Comparison.MeetIsEquivalent | include/status-code/generic_code.hpp:436-462 | for any two codes `equivalent()` is a recursion-free condition on the values and tables |
| Comparison.KeylessMeets | include/status-code/nested_status_code.hpp:105-112 | a code equivalent to no errc is equivalent to its innermost code and, when it is that code itself, to every wrapping of it, and to nothing else |
| Comparison.HttpIsNotTransitive | include/status-code/http_status_code.hpp:101-137 | 404 and 410 equal ENOENT and not each other |
| Comparison.UnmappedWin32IsNotTransitive | include/status-code/win32_code.hpp:203-229 | two unmapped values equal `errc::unknown` and not each other |
| Comparison.UnmappedNtIsNotTransitive | include/status-code/nt_code.hpp:83-106 | an NT status without an errno equals a win32 code whose errno it does not equal |
| Comparison.ReflexiveIff | include/status-code/nested_status_code.hpp:105-120 | a code equals itself unless it is nested and its domain does not claim its generic code |
| Comparison.WrappingLosesOnlyForeignMatches | include/status-code/nested_status_code.hpp:99-120 | against an unwrapped code, wrapping never adds an equivalence, and loses one exactly when only the other code's strict query said yes |
| Comparison.WrappingBothLeavesGenericQueries | include/status-code/nested_status_code.hpp:105-112 | two wrapped codes are equivalent exactly when an inner domain claims the other's known generic code; each wrapping only loses |
| Comparison.WrappingAgainstStdError | include/status-code/std_error_code.hpp:231-270 | against a wrapped `std::error_code`, exactly which queries survive and the one that is lost |
| Comparison.WrappedHttpCodesDiffer | include/status-code/nested_status_code.hpp:105-112 | an HTTP 404 equals itself, and two wrapped ones differ |
| Comparison.WrappingPreserves | include/status-code/nested_status_code.hpp:99-120 | on the class wrapping either operand changes neither equivalence nor failure |
| Comparison.SuccessLawIff | include/status-code/status_code.hpp:314-323 | success is equivalence to `errc::success` exactly for the codes of a condition read off domain and bits |
| Comparison.ComBreaksSuccessLaw | include/status-code/com_code.hpp:164-242 | an HRESULT that fails and equals success, and one that succeeds and does not |
| ByDomain.PosixByValue | include/status-code/posix_code.hpp:145-171 | a posix code equals the errc of its value and no other |
| ByDomain.Win32ByTable | include/status-code/win32_code.hpp:109-118 | a win32 code equals and has for generic code its errno in the table, zero being success |
| ByDomain.NtByTable | include/status-code/nt_code.hpp:83-94 | an NT code likewise, success when its top bit is clear |
| ByDomain.ComByBits | include/status-code/com_code.hpp:171-242 | which errc an HRESULT equals and has for generic code, by its bits |
| ByDomain.HttpByStatus | include/status-code/http_status_code.hpp:101-167 | the HTTP statuses of each errc; two HTTP codes are equivalent exactly when they are the same |
| ByDomain.QuickByRow | include/status-code/quick_status_code_from_enum.hpp:101-192 | on the first row of the value: which errcs a quick code equals, that the first listed is its generic code, and when it fails |
| ByDomain.NestedAsPayload | include/status-code/nested_status_code.hpp:99-120 | a wrapped code equals the errcs, fails and has the generic code of the code inside |
| ByDomain.StdErrorByCondition | include/status-code/std_error_code.hpp:274-291 | a wrapped `std::error_code` equals exactly the errc of its conversion and the known one of its default condition, whose value is its generic code |
| ByDomain.StdErrorByConversion | include/status-code/std_error_code.hpp:231-270 | its strict query is by value in its own category, else that of the generic, posix or win32 code it is converted to |
| ByDomain.SystemCodeIsWin32 | include/status-code/std_error_code.hpp:257-264 | on Windows a system code matches a win32 code of the same DWORD or the same known errno |
| ByDomain.StrictPairs | include/status-code/nt_code.hpp:193-221 | the strict query between plain codes: the same code, an NT status and its win32 translation, an HRESULT and what it wraps, nothing else |
| ByDomain.PlainPairs | include/status-code/generic_code.hpp:436-462 | which plain codes are equivalent |
| Reentry.QueryFits | include/status-code/std_error_code.hpp:231-270 | a domain's query finishes within the bound, through nested delegation and re-entered `==` |
| Reentry.CompareFits | include/status-code/generic_code.hpp:436-462 | every comparison finishes within a stack depth computed from its operands, with the same answer |
| Reentry.SixFramesSuffice | include/status-code/std_error_code.hpp:250-268 | six frames do for the codes the public interface builds |
| QuickEnum.FindRow | include/status-code/quick_status_code_from_enum.hpp:101-111 | the loop returns the first row of the value, or null exactly when there is none |
| QuickEnum.QuickFailure | include/status-code/quick_status_code_from_enum.hpp:125-145 | the loop computes the failure the comparison theorems are about |
| QuickEnum.QuickStrictlyEquivalent | include/status-code/quick_status_code_from_enum.hpp:146-174 | the loop computes the strict query the comparison theorems are about |
| QuickEnum.QuickGenericCode | include/status-code/quick_status_code_from_enum.hpp:175-192 | the code returns the first errc listed in the first row of the value, or unknown, which is the generic code the comparison theorems are about |
| QuickEnum.EquivalentToErrcIffListed | include/status-code/quick_status_code_from_enum.hpp:125-192 | equivalent to an errc exactly when it is listed in the first row; success exactly when equal to success |
| QuickEnum.SharedSecondErrcIsNotTransitive | include/status-code/quick_status_code_from_enum.hpp:162-171 | values sharing a later errc equal it and not each other |
| HResult.Win32WrapPreservesIff | include/status-code/com_code.hpp:201-240 | for every win32 value, zero and top-bit values included, exactly when its HRESULT keeps its errc values; failure is always kept |
| HResult.ShortWin32WrapPreserves | include/status-code/com_code.hpp:201-240 | win32 codes up to 0xffff keep errc values and failure, and equal their HRESULT |
| HResult.NtWrapPreservesIff | include/status-code/com_code.hpp:182-235 | a wrapped NT status keeps its errc values exactly when dropping bit 28 keeps its errno; always with bit 28 clear |
| Ownership.StepKeepsInv | include/status-code/status_code.hpp:427-440 | an operation faults exactly when it follows a cut address; every other keeps single ownership and the accounting, cutting ones included |
| Ownership.RunKeepsInv | include/status-code/status_code.hpp:658-681 | in every run: owners hold distinct live payloads, none freed twice, allocated minus freed is live owners plus owners lost |
| Ownership.RunLoses | include/status-code/status_code.hpp:434-440 | the owners a run loses are those its program overwrites by assignment or `clear()` and those it cuts |
| Ownership.CleanIffNothingLost | include/status-code/status_code.hpp:434-440 | once all handles are gone, memory is clean exactly when the program loses nothing |
| Ownership.ClearLeaks | include/status-code/status_code.hpp:820-821 | wrap, clear, destroy leaves the payload allocated |
| Ownership.IntCutsNested | include/status-code/status_code.hpp:460-469 | wrap, convert to the object of an int, destroy faults |
| Ownership.OthersUnchanged | include/status-code/status_code.hpp:427-440 | an operation changes what no other handle shows |
| Ownership.MoveCarriesView | include/status-code/status_code.hpp:709-717 | a move or conversion empties the source and carries over, or cuts, what it showed |
| Ownership.CloneCopiesView | include/status-code/nested_status_code.hpp:139-169 | a clone shows the same code from a payload of its own; the process ends exactly when a payload had to be built and was not |
| Ownership.NothrowCopyAllOrNothing | include/status-code/status_code.hpp:796-817 | empty exactly when the unpadded source is larger than the padded destination or construction threw, leaving no allocation; else the same code; ends the process exactly when a payload not refused is not allocated |
| Ownership.StepRefines | include/status-code/status_code.hpp:427-440 | each operation does to what handles show what it does to plain values |
| Ownership.RunRefines | include/status-code/status_code.hpp:642-681 | every run runs through, ends the process or faults as the program over plain values does, and its handles show what that computes |
| Ownership.UncutNeverFaults | include/status-code/status_code.hpp:460-469 | a program that moves no payload wider than the values it goes through never faults |
| Ownership.RunKeepsProvenance | include/status-code/nested_status_code.hpp:201-223 | every payload alive after a run is a code some operation of the run wrapped |
| Ownership.WrappedCodesKeepTheirMeaning | include/status-code/nested_status_code.hpp:99-169 | after any run that cuts nothing handles show the codes they were made from, and canonical ones compare and fail as those codes unwrapped |
| HandleOps.Process.constructor | include/status-code/status_code.hpp:642-643 | a process starts with no handles and no payloads, satisfying the invariant |
| InPlace.ErasedReadsBack | include/status-code/status_code.hpp:700-717 | a domain reading in place an object erased by either form finds the typed code when the erased type is as wide, else what was cut |
| InPlace.CastArrives | include/status-code/status_code.hpp:709-717 | a move, conversion or unerasure between any accepted widths delivers what `Ownership.Arrives` says |
| InPlace.CastKeepsAllIff | include/status-code/status_code.hpp:460-469 | it keeps what the domain reads, for all values and paddings, exactly when the payload is no wider than either value |
| InPlace.CopyThenMoveKeepsAllIff | include/status-code/status_code.hpp:796-817 | a nothrow copy, then a move, keep it for all values exactly when the payload is no wider than the copy's value |
| InPlace.CopyReadsTheSame | include/status-code/status_code_domain.hpp:580-592 | the default erased copy changes nothing the domain reads |
| InPlace.ErasureKeepsFailure | include/status-code/status_code.hpp:700-717 | failure read in place from erased, converted and copied objects is the typed code's, when the values are as wide |
| HandleOps.Process.ConstructErased | include/status-code/status_code.hpp:700-706 | erasing a typed code into any accepted type takes the step, which may cut it |
| HandleOps.Process.ConstructTyped | include/status-code/status_code.hpp:593-600 | a typed code from an erased one takes the copying step |
| HandleOps.Process.MakeNested | include/status-code/nested_status_code.hpp:201-223 | allocate, construct, give back on a throw: takes the state machine's step |
| HandleOps.Process.MoveConstruct | include/status-code/status_code.hpp:709-717 | casting the value's bytes and nulling the source's pointer hands over or cuts what the domain reads |
| HandleOps.Process.DestructStorage | include/status-code/status_code.hpp:440-440 | ends a handle without releasing what it owns, which is lost |
| HandleOps.Process.MoveAssign | include/status-code/status_code.hpp:434-439 | storage destructor then move construction, on bytes: takes the step and keeps the invariant |
| HandleOps.Process.Clear | include/status-code/status_code.hpp:820-821 | takes the step and keeps the invariant |
| HandleOps.Process.CopyNested | include/status-code/nested_status_code.hpp:139-169 | a copy's error code, memory and termination for each way the allocation and construction can go |
| HandleOps.Process.Clone | include/status-code/status_code.hpp:667-681 | on bytes takes the step; ends the process exactly when the source points to a payload and the copy's is not built |
| HandleOps.Process.NothrowCopy | include/status-code/status_code.hpp:796-817 | compares padded with unpadded object size and on bytes takes the step; ends the process exactly when a payload not refused is not allocated |
| HandleOps.Process.Destroy | include/status-code/nested_status_code.hpp:170-179 | destroys and frees the payload of an owner, which is alive |
| Erasure.BitCastIsStaticCast | include/status-code/config.hpp:303-335 | the two implementations of `bit_cast` between integers agree |
| Erasure.WideningAgreesInPlace | include/status-code/config.hpp:423-460 | both widenings put the value's own bytes first, for every width, sign and value |
| Erasure.NarrowingAgrees | include/status-code/config.hpp:415-437 | narrowing by conversion and by truncating bytes agree on every value |
| Erasure.ErasureRoundTrip | include/status-code/status_code.hpp:593-600 | erasing and unerasing by any mixture of the two forms restores the value |
| Erasure.ReErasureKeepsPayload | include/status-code/config.hpp:405-437 | casting an erased value to any other width keeps the bytes both have |
| Erasure.BigEndianWideningIff | include/status-code/config.hpp:412-460 | on a big-endian machine widening would keep the in-place value only of 0 and -1; padding always does |
| ErasedCopy.DefaultErasedCopy | include/status-code/status_code_domain.hpp:580-592 | refuses when too small leaving the target alone, else copies exactly the source object's bytes |
| ErasedCopy.Clone | include/status-code/status_code.hpp:668-681 | the bytes of a clone: blank for an empty code, else pointer and payload over a blank object |
| ErasedCopy.NothrowCopy | include/status-code/status_code.hpp:796-817 | the bytes of a nothrow copy into an object of any padded size |
| ErasedCopy.IntObjectHoldsPointer | include/status-code/status_code.hpp:460-469 | the objects of a four-byte and of an eight-byte value are equally large |
| ErasedCopy.CopyDecodesTheSame | include/status-code/status_code_domain.hpp:580-592 | a copy decodes to the same domain and typed value |
| ErasedCopy.CloneRawValueIff | include/status-code/status_code.hpp:668-681 | a clone's raw `value()` is the original's exactly when the payload is full width or not negative |
| ErasedCopy.PaddedCloneIsIdentical | include/status-code/config.hpp:391-403 | on the padded path the value of a clone is byte for byte the original's |
| ErasedCopy.CloneOfCloneIsClone | include/status-code/status_code.hpp:668-681 | cloning again changes nothing more |
| ErasedCopy.NothrowCopyAllOrNothing | include/status-code/status_code.hpp:796-817 | empty exactly when the unpadded source is larger than the padded object, else same domain and typed value |
| RefCount.StepKeepsInv | include/status-code/status_code_domain.hpp:355-399 | no step faults; counts are the holders, texts are kept, one freer exactly when nobody holds |
| RefCount.EveryInterleavingIsSafe | include/status-code/status_code_domain.hpp:355-399 | in every interleaving no freed block is touched or freed again, and the invariant holds |
| RefCount.CreateReads | include/status-code/status_code_domain.hpp:403-424 | a message created reads as given and has one holder; without memory the reference is the literal |
| RefCount.CopyReads | include/status-code/status_code_domain.hpp:362-372 | a copy, its add done, reads what its source read and still reads, and joins the holders; so does a copy of a literal |
| RefCount.MoveReads | include/status-code/status_code_domain.hpp:373-381 | a move hands over whatever was read |
| RefCount.SubtractReleases | include/status-code/status_code_domain.hpp:382-396 | a release leaves the holders; the only holder frees, any other is gone |
| RefCount.FreeReleases | include/status-code/status_code_domain.hpp:388-394 | a free takes the block and its reference away |
| RefCount.OthersUntouched | include/status-code/status_code_domain.hpp:355-399 | a step touches no other reference |
| RefCount.EveryReferenceCanEnd | include/status-code/status_code_domain.hpp:355-399 | from every state all references can be released, and then every block has been freed once |
| RefCount.LiveReadsOriginal | include/status-code/status_code_domain.hpp:403-424 | every live reference reads the text its message was created with |
| RefCount.ReadsAreStable | include/status-code/status_code_domain.hpp:362-381 | what a reference reads survives every step of others, and moves hand it on |
| RefCount.CopyReadsSource | include/status-code/status_code_domain.hpp:364-372 | the add of a copy never sees zero, and the copy reads what its source reads |
| RefCount.FreedOnlyAfterTheLast | include/status-code/status_code_domain.hpp:382-396 | a free happens with nobody holding or copying, by the only reference that will free |
| RefCount.BlockHasUser | include/status-code/status_code_domain.hpp:382-396 | a block not freed has a holder or its freer |
| RefCount.NothingLeaks | include/status-code/status_code_domain.hpp:382-396 | with no reference left every block was freed, once |
| StringRefs.StringRef.CopyConstruct | include/status-code/status_code_domain.hpp:236-246 | shares the source's message, or throws and holds nothing |
| StringRefs.StringRef.MoveConstruct | include/status-code/status_code_domain.hpp:248-268 | hands everything over and clears the source, counts untouched |
| StringRefs.StringRef.Destruct | include/status-code/status_code_domain.hpp:304-317 | drops one reference, freeing the message with the last |
| StringRefs.StringRef.CopyAssign | include/status-code/status_code_domain.hpp:270-292 | if the copy fails the target and all counts are as before; else it shares the source and drops exactly its old reference |
| StringRefs.StringRef.CopyAssignNoExceptions | include/status-code/status_code_domain.hpp:286-289 | the other build's order ends in the same state, or in termination |
| StringRefs.StringRef.MoveAssign | include/status-code/status_code_domain.hpp:294-302 | drops the old reference, takes the source's, clears the source; nothing on self |
| StringRefs.OrderDoesNotMatter | include/status-code/status_code_domain.hpp:270-292 | acquiring before or after releasing gives the same counts, also on a shared message |
| StringRefs.AssignmentMovesOneReference | include/status-code/status_code_domain.hpp:364-396 | each message gains and loses exactly the references the assignment moved |
| Registry.TableIsDistinct | include/status-code/std_error_code.hpp:174-192 | the table's categories are distinct and at most 64 |
| Registry.TableGrows | include/status-code/std_error_code.hpp:174-192 | later tables extend earlier ones |
| Registry.NullIffFullAndAbsent | include/status-code/std_error_code.hpp:186-191 | a call returns null exactly when the table is full and the category absent |
| Registry.SlotHoldsCategory | include/status-code/std_error_code.hpp:178-189 | a returned slot holds its category then and ever after |
| Registry.DomainsIdentifyCategories | include/status-code/std_error_code.hpp:139-195 | same category, same domain; different categories, different domains; refused once, refused for ever |
| Registry.Storage.constructor | include/status-code/std_error_code.hpp:142-164 | the table starts empty and unlocked |
| Registry.Storage.Add | include/status-code/std_error_code.hpp:174-192 | alone, the loop over encoded ids is the sequential intern operation; ends the process exactly when a new domain's noexcept constructor throws |
| Registry.IdRecoversCategory | include/status-code/std_error_code.hpp:94-106 | a domain's id gives its category back |
| Registry.StepKeepsInv | include/status-code/std_error_code.hpp:157-192 | no step reads an unconstructed slot; lock, table and threads stay consistent |
| Registry.EveryInterleavingIsLinearizable | include/status-code/std_error_code.hpp:142-195 | under any interleaving the calls form a legal sequential history and published slots never change |
| Registry.InsideCompletes | include/status-code/std_error_code.hpp:174-192 | the thread inside completes by its own steps: it returns what the sequential table answers, leaves that table and a free lock |
| Registry.SpinningCompletes | include/status-code/std_error_code.hpp:157-161 | with the lock free a waiting thread gets it and completes by its own steps |
| Registry.CallCompletes | include/status-code/std_error_code.hpp:139-195 | with the lock free a call of any category completes by its own steps, as the sequential intern operation |
| Registry.EveryCallCanReturn | include/status-code/std_error_code.hpp:157-192 | from every state every call made can return |
| Registry.AtMostOneInside | include/status-code/std_error_code.hpp:157-162 | mutual exclusion |
| Registry.EffectWithinTheCall | include/status-code/std_error_code.hpp:174-192 | a returned call has its result at its own place in the history, after every call that had returned before it was made |
| Uuid.HexDigitSpells | include/status-code/status_code_domain.hpp:78-84 | a character parses exactly when it is a hexadecimal digit, to the number it spells |
| Uuid.IdOfText | include/status-code/status_code_domain.hpp:85-100 | a text of the 8-4-4-4-12 form parses exactly when its halves are hexadecimal, and nibble k of the id is the number of digit k of one half exclusive-or that of the other |
| Uuid.ChangingTextChangesId | include/status-code/status_code_domain.hpp:85-100 | with one half fixed, ids agree exactly when the other halves are the same text up to letter case: no one-digit change keeps the id |
| Uuid.IdNibbles | include/status-code/status_code_domain.hpp:85-100 | nibble k of the id is digit k of one half exclusive-or digit k of the other |
| Uuid.SameIdIff | include/status-code/status_code_domain.hpp:85-100 | two texts have one id exactly when these exclusive ors agree everywhere |
| Uuid.ChangingOneHalfChangesId | include/status-code/status_code_domain.hpp:85-100 | the same for the digit values of any text that parses |
| Uuid.ZeroIdIff | include/status-code/status_code_domain.hpp:430-436 | the id is zero exactly when the halves spell the same digits |
| Uuid.SelfTestIdIsZero | include/status-code/status_code_domain.hpp:116-116 | the header's test text has the id zero |
| Uuid.IdDependsOnDigitValues | include/status-code/status_code_domain.hpp:85-100 | the id, or the failure to parse, depends on the 32 digits only |
| Uuid.CaseNeverMatters | include/status-code/status_code_domain.hpp:78-84 | letter case never matters |
| Uuid.EntryPointsAgree | include/status-code/status_code_domain.hpp:101-112 | braces and the choice of entry point never matter |
| MessageBuffer.GrowthReachesIff | include/status-code/win32_code.hpp:126-158 | the buffer reaches any need exactly from three wide characters up |
| MessageBuffer.OneCharacterNeverFits | include/status-code/win32_code.hpp:126-158 | a one-character message never fits |
| MessageBuffer.PeakBound | include/status-code/win32_code.hpp:156-158 | no buffer exceeds the first size or 5/4 of the need |
| MessageBuffer.TrimIsUnique | include/status-code/win32_code.hpp:145-150 | the trimmed text is determined by its specification |
| MessageBuffer.TrimStaysInsideIff | include/status-code/win32_code.hpp:144-150 | the loop stays in its buffer exactly when the text has a character that is no line end, and then yields the trimmed text |
| MessageBuffer.LineEndAloneReadsBeforeBuffer | include/status-code/win32_code.hpp:145-148 | on a text of one line end the loop reads before its buffer |
| MessageBuffer.TrimLeavesBody | include/status-code/win32_code.hpp:144-150 | of a body, any line feeds and carriage returns, the terminator and whatever follows, exactly the body is left |
| MessageBuffer.MessageIsBody | include/status-code/win32_code.hpp:142-153 | so the message of such a conversion is its body to the last character |
| MessageBuffer.Trim | include/status-code/win32_code.hpp:144-150 | the loop yields the text before the terminator without its final line ends, or faults exactly when that is empty |
| MessageBuffer.MakeStringRef | include/status-code/win32_code.hpp:120-164 | on every input it can end on: which of trimmed text, errno, literal with errcode 0 or fault comes out, and every scratch buffer freed once |
| InPlace.MoveKeepsFailureIff | include/status-code/status_code.hpp:427-432 | on bytes, a domain's failures stay failures in every unchecked move, for all values and paddings, exactly when the bytes of the value decide failure |
| InPlace.NonzeroNeedsWholeValue | include/status-code/posix_code.hpp:140-144 | where only zero is a success, they decide it exactly when the payload is no wider than the value |
| InPlace.FollowingIsPossible | include/status-code/config.hpp:405-437 | what a move leaves is a code of the same domain that shares the bytes carried |
| Errored.NeverASuccess | include/status-code/errored_status_code.hpp:175-311 | in every run whose checked constructions leave codes that last (payload no wider than the value, or failure decided by the value's bytes), every errored code, read through its payload if nested, is empty or a failure |
| Errored.PerformKeepsInv | include/status-code/errored_status_code.hpp:181-277 | no operation on any handle, errored or not, makes an errored code a success, except an unchecked move of one that does not last |
| Errored.UncheckedMoveKeepsContract | include/status-code/errored_status_code.hpp:199-203 | an unchecked move of a code that lasts keeps the contract, whatever the padding; of a nested code, exactly when its address is no wider than the value |
| Errored.MoveTurnsFailureIntoSuccess | include/status-code/errored_status_code.hpp:199-203 | bytes of a failure that a move from an int's object turns into a success |
| Errored.RunIsCheckedValues | include/status-code/errored_status_code.hpp:181-277 | a run over handle states ends by a check, a termination or a fault exactly when the program over plain values does, and otherwise shows its values |
| Errored.InPlaceIsShown | include/status-code/nested_status_code.hpp:99-104 | the failure query on an object's bytes answers for the code its handle shows |
| Errored.ErroredCodes.Check | include/status-code/errored_status_code.hpp:181-187 | the check on the erased bytes ends the process exactly when the shown code is a success |
| Errored.ErroredCodes.ConstructEmpty | include/status-code/errored_status_code.hpp:195-195 | default construction needs no check |
| Errored.ErroredCodes.ConstructFromTyped | include/status-code/errored_status_code.hpp:219-250 | on bytes, ends the process exactly when the code that arrives is a success: the typed code, unless the erased type is narrower |
| Errored.ErroredCodes.ConstructFromErased | include/status-code/errored_status_code.hpp:206-216 | on bytes, ends the process exactly when what is carried over is a success, else shows it, and the source is empty |
| Errored.ErroredCodes.ConstructNothrow | include/status-code/errored_status_code.hpp:299-305 | exactly when it is empty, shows the source's code, or ends the process, by sizes, payload and source |
| Errored.ErroredCodes.MoveFrom | include/status-code/errored_status_code.hpp:199-199 | an unchecked move of a code that lasts never yields a success |
| Errored.ErroredCodes.CopyFrom | include/status-code/errored_status_code.hpp:65-70 | an unchecked typed copy never yields a success |
| Errored.ErroredCodes.ConstructFromUnerased | include/status-code/errored_status_code.hpp:146-159 | ends the process exactly when what arrives from the erased source is a success, else shows it |
| Errored.ErroredCodes.MoveAssign | include/status-code/errored_status_code.hpp:203-203 | an unchecked assignment of a code that lasts never yields a success, whatever it overwrote |
| Errored.ErroredCodes.Clear | include/status-code/status_code.hpp:820-821 | keeps the contract of every errored code and the ownership accounting |
| Errored.ErroredCodes.Destroy | include/status-code/status_code.hpp:658-665 | destroying any handle leaves every errored code a failure or empty |
| Errored.ErroredCodes.IsSuccessful | include/status-code/errored_status_code.hpp:307-308 | the constant `success()` agrees with the query on the code shown |

## Left out

- The rows of the mapping tables in `include/status-code/detail/`, the message texts, and `getaddrinfo_code.hpp`, whose domain answers as the HTTP one does with other constants.
- Typed `status_code<D>` copies and moves, mixins, ADL construction, concepts and ABI markup: no branching of their own.
- Alignment and stateful mixins in erased storage.
- Self-move of an erased code, which reads a destroyed object.
- `strerror_r`, `FormatMessageW`, `WideCharToMultiByte` and `_com_error` beyond the oracle of the message loop; the same loop in `nt_code.hpp` and `com_code.hpp`.
- Weak memory orders of the atomics, and fairness of the spin lock: a waiting thread may wait for ever.
- The registry's destructor at process exit, and `boost_error_code.hpp`, a near copy of it.
- `result.hpp`, `status_error.hpp` and `system_code_from_exception.hpp`, thin layers over `std::variant` and exceptions.
- MessageBuffer.MakeStringRef: the inputs on which the loop never ends are excluded by `Ends`, because a Dafny method terminates; `GrowthReachesIff` shows they are exactly the hopeless ones. After a read before the buffer nothing is said of the scratch buffer.
- HandleOps.Process.Clone: after termination of the process nothing is said of its memory; likewise for `NothrowCopy` and `Errored.ErroredCodes`. Like `Destroy`, they are not called on a cut address, where `Ownership.Step` faults.
- Handles are slots of a table owned by one process object, so two handles never alias.
