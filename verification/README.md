# SGX runtime: a verified model

This project models the hard parts of the untrusted SGX runtime with the MAGE extension
and proves what they are meant to guarantee. Each module follows one component; functions
that only compute are pure, and code that changes fields, buffers or lists in place is a
class or a method proved against such functions. Protocols between threads are state
machines over their atomic steps, and their theorems are about every state of every run.

* **Quad-precision division** (`QuadReciprocal`, `QuadMultiply`, `QuadDivision`,
  `QuadRounding`): the reciprocal iterations, the wide multiply, the rounding step and the
  special operands, down to the bits. Division of finite nonzero numbers returns the number
  nearest to the exact quotient.
* **Switchless calls** (`SwitchlessCalls`, `SwitchlessProgress`, `SignalLines`): callers and
  workers over signal lines; a call runs exactly once, by a worker or by falling back, and from
  every state each call can still return.
* **Loading an image** (`LayoutTable`, `PageBuilding`, `PageContents`, `ImageLoader`): the check
  of the layout table, the walk over it, and the pages added, byte by byte, with the MAGE section
  held back to the end.
* **Threads and enclaves** (`NodeList`, `TcsPool`, `ThreadPool`, `EnclaveLock`,
  `EnclaveProgress`, `EnclavePool`, `EventHandoff`): the pool of trust threads, the lock around calls in and
  out, the lifetime of enclave objects, and the futex event that wakes the thread filler.
* **Page protection** (`PageProtection`): merging adjacent mprotect calls.
* **XML** (`XmlStrings`, `XmlDecoding`, `XmlBuffers`, `XmlWhitespace`, `XmlParser`, `XmlGrammar`,
  `XmlReader`, `XmlRoundTrip`, `XmlTrees`, `XmlErrors`, `XmlLayout`, `XmlPrinter`, `XmlDocuments`): decoding and
  collapsing white space in place, parsing against a grammar, compact and indented printing, and
  the round trip.

`Basics` holds what several modules share.

## Where the code does not keep the property

Each of these has a lemma with a concrete case and a lemma that says exactly when the
property holds.

* The wide multiply drops one carry (`QuadMultiply.CarryCanBeLost`), also on operands the
  division gives it (`QuadDivision.EstimateCanLoseCarry`). Its high half is right
  exactly when no carry is dropped (`QuadMultiply.WideMultiplyValue`); the quotient is still
  correctly rounded, because a dropped carry means the discarded half is tiny.
* The smallest normal number is flushed to zero when it is an exact quotient of equal
  significands (`QuadRounding.SmallestNormalOverOne`, `QuadRounding.FlushedQuotients`). The
  source documents flushing of denormal results only.
* The layout check does not compare an entry's content with its pages, so an accepted table
  can add a page twice (`PageBuilding.AcceptedContentCanOverrun`). For a valid table no page is
  added twice exactly when no two of its ranges, each extended to its content, share a page
  outside MAGE (`PageBuilding.AddedOnceIffNoClash`), and an entry keeps to its checked range
  exactly when its content does not overrun it (`PageBuilding.EntryKeepsToItsRange`).
* A thread that destroys the enclave from inside a call out makes the pool forget its
  reference, and the thread it still has is then handed to a second caller straight from the
  free ones, without any collection (`TcsPool.TeardownHandsOutThread`). Counts and ownership
  are right throughout a run exactly when no teardown or reset unbinds a thread in use
  (`TcsPool.SoundIffNeverForgets`).
* The thread filler unlocks the enclave's lock also when its own call out could not retake it
  (`EnclaveLock.FillerCanUnlockTwice`). The lock is balanced throughout a run exactly when
  that does not happen (`EnclaveLock.BalancedIffNoneFaulty`); in every run the lock's counter is
  the number of holders less the faulty unlocks (`EnclaveLock.CounterIsHoldersLessFaults`).
* So destroying need not be safe if a read lock can be refused without a writer
  (`EnclaveLock.RefusalWithoutWriterIsUnsafe`). It is safe throughout a run exactly when no write
  lock is granted while a thread is inside or past the check and no check is passed while a
  destroyer has the lock (`EnclaveLock.SafeIffNoBreach`). That holds in runs without a faulty
  unlock (`EnclaveLock.SafeWithoutFault`), and with them if locks are refused to writers only
  (`EnclaveLock.SafeIfHonest`).
* A late wake-up leaves the event counter at -1, and the next wake may then be lost: the caller
  waits on its flag while the filler sleeps (`EventHandoff.DebtLosesAWake`). A waiting caller
  has a token or a look of the filler ahead of it throughout a run exactly when no wake of the
  run found the filler about to wait at -1 with the flag wanted
  (`EventHandoff.FlagIsAnsweredIff`).
* A numeric character reference whose digits pass 32 bits reads as another character
  (`XmlStrings.LongNumberWraps`). It reads as its number exactly when each digit's weight and
  product fit (`XmlStrings.ReferenceIsRead`).
* After a known entity an unknown one loses its ampersand to a stale character
  (`XmlDecoding.UnknownIsLost`). It is kept exactly when the text has an
  ampersand at the write position, as it does while nothing before was shortened
  (`XmlDecoding.UnknownIsKeptIff`).
* The indented print puts spaces before an element also after a text, where they read as part
  of the text (`XmlTrees.MixedContentGrows`). A document survives the indented print exactly
  when no text of it stands beside such a gap (`XmlTrees.IndentedIsParsedIff`).

One comment disagrees with its code: at the attribute list it says that duplicates are not
detected; they are, and the model follows the code.

## Model

| member | source | states |
|---|---|---|
| QuadReciprocal.SeedIsClose | sdk/compiler-rt/divtf3.c:77-83 | the linear first estimate is within 11/128 of the reciprocal for every significand |
| QuadReciprocal.NewtonSquaresError | sdk/compiler-rt/divtf3.c:92-93 | one 64-bit step squares the error and adds a bounded truncation term |
| QuadReciprocal.OverflowIsExact | sdk/compiler-rt/divtf3.c:103-107 | a step on an estimate of the iteration gives at most 2^64, and 2^64 only if the high word is 1.0 or one unit above it |
| QuadReciprocal.Recip64IsClose | sdk/compiler-rt/divtf3.c:92-107 | after five steps and the decrement the 64-bit estimate is close, also where it wrapped to zero |
| QuadReciprocal.ProductHighIsExact | sdk/compiler-rt/divtf3.c:116-128 | the two partial products of the full-width step add up to the truncated product |
| QuadReciprocal.Recip128IsClose | sdk/compiler-rt/divtf3.c:109-128 | the full-width step squares the error once more, with at most one unit of truncation on either side |
| QuadReciprocal.ReciprocalIsTight | sdk/compiler-rt/divtf3.c:130-145 | the adjusted 128-bit reciprocal is strictly below 1/b, within 2^-112 of it, and in [0.5, 1) |
| QuadMultiply.WideMultiplyValue | sdk/compiler-rt/fp_lib.h:151-202 | the low half is the exact product modulo 2^128; the high half is exact iff no carry is dropped, else one too small with a low half below 2^64 |
| QuadMultiply.CarryCanBeLost | sdk/compiler-rt/fp_lib.h:185-202 | operands for which the high half is one too small |
| QuadDivision.UnpackIsNormal | sdk/compiler-rt/fp_lib.h:241-245 | every finite nonzero operand, denormals included, gets a significand with its implicit bit |
| QuadDivision.EstimateBounds | sdk/compiler-rt/divtf3.c:137-150 | the quotient estimate is strictly below a/b and within 1.01 units of it |
| QuadDivision.NoTie | sdk/compiler-rt/divtf3.c:161-163 | a quotient is never halfway between two significands |
| QuadDivision.SignificandIsNearest | sdk/compiler-rt/divtf3.c:149-176 | for all significands the shift, residual and round bit give the nearest significand, and rounding carries into the exponent iff they are equal |
| QuadDivision.EstimateCanLoseCarry | sdk/compiler-rt/divtf3.c:149-150 | significands whose quotient estimate, four times the dividend times the reciprocal, loses the carry |
| QuadDivision.SpecialResults | sdk/compiler-rt/divtf3.c:33-63 | the result is a NaN, and quiet, exactly for NaN operands, infinity over infinity and zero over zero; every other result has the sign of the quotient, infinite for infinite dividends and zero divisors, zero for the reverse |
| QuadRounding.UnpackKeepsValue | sdk/compiler-rt/divtf3.c:64-75 | unpacking and renormalising keep the value of the operand |
| QuadRounding.ResultValue | sdk/compiler-rt/divtf3.c:189-199 | the assembled bits denote the rounded significand at the written exponent, with a carry into the exponent too |
| QuadRounding.DivideIsNearest | sdk/compiler-rt/divtf3.c:23-200 | the result is strictly closer to the exact quotient of the operands than every other number |
| QuadRounding.OverflowReturnsInfinity | sdk/compiler-rt/divtf3.c:180-183 | infinity is returned iff the exact quotient is beyond every finite number's last ulp |
| QuadRounding.InfinityIsBeyondFinite | sdk/compiler-rt/divtf3.c:180-183 | a quotient that gives infinity is larger than every finite number |
| QuadRounding.FlushedQuotients | sdk/compiler-rt/divtf3.c:184-188 | a signed zero is returned iff the written exponent is below 1, that is iff the quotient is below the smallest normal number or equals it with equal significands |
| QuadRounding.SmallestNormalOverOne | sdk/compiler-rt/divtf3.c:184-188 | the smallest normal number divided by one gives zero |
| SwitchlessCalls.StepInv | common/src/sl_fcall_mngr_common.c:77-186 | every atomic step of caller, worker or environment keeps the protocol invariant |
| SwitchlessCalls.CallsRunExactlyOnce | psw/uswitchless/sgx_ecall_switchless_untrusted.c:40-76 | in every run, a call that returned 0 was handled by exactly one worker and has its answer, and one that returned -EAGAIN by none, so a fallback never runs twice |
| SwitchlessCalls.NoBug | common/src/sl_fcall_mngr_common.c:77-86 | no consistency check on the status fires and no worker meets a null buffer |
| SwitchlessCalls.WorkersUseLiveBuffers | common/src/sl_fcall_mngr_common.c:84-118 | what a worker reads or writes belongs to a call that has not returned |
| SwitchlessCalls.ReturnedCallsAreNeverServed | common/src/sl_fcall_mngr_common.c:162-186 | after a call has returned, no continuation of the run touches its buffer or serves it |
| SwitchlessCalls.WorkerIsAtPendingCall | common/src/sl_fcall_mngr_common.c:77-118 | a busy worker is the only one at its line, whose call still waits |
| SwitchlessCalls.SignalledLinesAreSubmitted | common/src/sl_siglines_common.c:92-109 | a set event bit belongs to a line of one call with a published, submitted buffer |
| SwitchlessCalls.LinesAreConserved | common/src/sl_siglines_common.c:60-89 | no line has two calls, and free lines plus calls in flight are all lines |
| SwitchlessProgress.GivesUpOverFullWords | common/src/sl_siglines_common.c:60-80 | in every run, a call that returned -EAGAIN without ever having had a line saw each word of the free bitmap full when it scanned it |
| SwitchlessProgress.FreeLineIsFound | common/src/sl_fcall_mngr_common.c:137-139 | so a call does not give up its scan if some line is free whenever it scans |
| SwitchlessProgress.SpinsForItsBudget | common/src/sl_fcall_mngr_common.c:152-162 | while the request stays submitted a call reads the status exactly max_tries times, 2^32 times for zero, and then revokes |
| SwitchlessProgress.SpinStopsWhenTaken | common/src/sl_fcall_mngr_common.c:152-162 | once the request is taken within the budget the call waits for its answer; with max_tries zero and a request taken at the first look it goes by the revoke |
| SwitchlessProgress.EveryCallCanReturn | common/src/sl_fcall_mngr_common.c:126-186 | from every state of every run each call can be brought to return, and to return 0 if it has a line it has not revoked or a free one is still to be scanned |
| SignalLines.SigLines.constructor | psw/uswitchless/sl_siglines_untrusted.c:42-76 | the line count is rounded up to words, all lines are free and none is signalled |
| SignalLines.SigLines.AllocLine | common/src/sl_siglines_common.c:60-80 | takes the lowest free line and no other; fails iff none is free |
| SignalLines.SigLines.FreeLine | common/src/sl_siglines_common.c:82-89 | adds exactly that line to the free ones |
| SignalLines.SigLines.TriggerSignal | common/src/sl_siglines_common.c:92-100 | adds exactly that line to the signalled ones |
| SignalLines.SigLines.RevokeSignal | common/src/sl_siglines_common.c:102-109 | withdraws the signal, and says whether it was still there |
| SignalLines.SigLines.ProcessWord | common/src/sl_siglines_common.c:125-139 | the window from the lowest to the highest set bit misses none |
| SignalLines.SigLines.ProcessSignals | common/src/sl_siglines_common.c:111-143 | the handler is called once per signalled line, in ascending order, no event is left, and the count is the number that were set |
| LayoutTable.PushGroup | psw/urts/loader.cpp:725-734 | one copy of a group appends its entries' ranges, or fails iff one of them is a group |
| LayoutTable.PushCopies | psw/urts/loader.cpp:717-735 | all copies succeed iff the last step fits the enclave and no group is repeated, and give exactly the repeated ranges |
| LayoutTable.CollectRanges | psw/urts/loader.cpp:698-737 | the first loop succeeds iff every item is well formed over unbounded integers, and gives the ranges as computed with wrap-around |
| LayoutTable.NeighboursSuffice | psw/urts/loader.cpp:739-756 | in the sorted list, comparing neighbours decides separation of all pairs, empty ranges included |
| LayoutTable.SeparateSort | psw/urts/loader.cpp:738 | sorting does not change whether ranges are pairwise separate |
| LayoutTable.WrappedRangesDecide | psw/urts/loader.cpp:731-733 | the ranges computed with 64-bit wrap-around are acceptable iff the true ones are, and are then the same |
| LayoutTable.CheckSorted | psw/urts/loader.cpp:739-756 | alignment, containment and neighbour checks over the list, both directions |
| LayoutTable.ValidateLayoutTable | psw/urts/loader.cpp:693-758 | a table is accepted iff over unbounded integers all its ranges are aligned, inside the enclave and pairwise separate, and its contents and groups are well formed |
| LayoutTable.ValidateEnclaveSize | psw/urts/loader.cpp:794-807 | the size is accepted iff it is a power of two within the limit |
| LayoutTable.ValidateDirectories | psw/urts/loader.cpp:808-815 | accepted iff each directory lies in the data of the metadata |
| LayoutTable.ValidatePatchTable | psw/urts/loader.cpp:760-776 | accepted iff each patch takes its bytes from the metadata and puts them inside the enclave |
| LayoutTable.ValidateMetadata | psw/urts/loader.cpp:777-830 | a version error iff the major version is newer, and acceptance iff policy, frame size, enclave size, directories, layout table and patch table are all valid over unbounded integers |
| LayoutTable.Traverse | psw/urts/loader.cpp:520-561 | the recursive walk with wrapped addresses visits the ranges the table lists |
| LayoutTable.VisitsTheCheckedRanges | psw/urts/loader.cpp:372-398 | the walk visits exactly the ranges that were checked, in table order |
| LayoutTable.TraverseAll | psw/urts/loader.cpp:954-1010 | of a valid table the walk visits the checked ranges, each aligned, inside and separate |
| PageBuilding.RegionIsExact | psw/urts/loader.cpp:148-209 | a region's pages are exactly the frames that meet it, MAGE frames aside, each once and ascending, with raw bytes or zeros and write permission iff the relocation bit is set on raw data |
| PageBuilding.MeasuredHoldsBack | psw/urts/loader.cpp:286-318 | no page that overlaps the MAGE section is added before the MAGE step |
| PageBuilding.MageComesLast | psw/urts/loader.cpp:320-370 | the pages of an aligned MAGE section come after all others, each once, ascending, with its flags and the bytes of its first page, and were not added before |
| PageBuilding.FrameIgnoresMage | psw/urts/loader.cpp:304-312 | a frame outside the MAGE section does not depend on MAGE bytes |
| PageBuilding.MeasuredIgnoresMage | psw/urts/loader.cpp:622-645 | images that differ in MAGE bytes only have the same pages before the MAGE step; the signing log is a prefix of the loading log |
| PageBuilding.EntryKeepsToItsRange | psw/urts/loader.cpp:452-495 | where the page behind it is not MAGE's, an entry adds pages of its checked range only, iff its content is not longer than its pages |
| PageBuilding.AddedOnceIffNoClash | psw/urts/loader.cpp:431-561 | for every valid table, building the contexts adds no page twice, iff no two of the ranges the walk lists, each extended to its content, share a page outside MAGE |
| PageBuilding.ClashIsOverlap | psw/urts/loader.cpp:452-495 | without MAGE, two aligned ranges share a page iff both are there and they overlap |
| PageBuilding.AcceptedContentCanOverrun | psw/urts/loader.cpp:699-710 | a table that passes the check and adds a page twice, because content is longer than its pages |
| PageBuilding.EntryPagesAre | psw/urts/loader.cpp:431-519 | the pages of an entry are exactly those it stands for at its placement: whole pages, content at its offset, thread control structures moved by the placement, fill word or zeros |
| PageBuilding.ContextPagesAreExact | psw/urts/loader.cpp:431-561 | for every valid table, the checked ranges are those of entries at their own addresses and at those of their copies, and the pages added for contexts are exactly the ones these entries stand for there: their flags and attributes, their bytes at their places, the fill word or zeros, and thread control structures moved by the address of the copy |
| PageContents.TcsFields | psw/urts/loader.cpp:456-464 | on a thread control page the save area and the two segment bases are moved up modulo 2^64 and every other byte is the template's |
| PageContents.FillReads | psw/urts/loader.cpp:485-492 | a filled page reads as the fill word at every aligned place |
| PageContents.FrameFlags | psw/urts/loader.cpp:134-146 | a frame becomes writable iff it holds raw data and bit f % 8 of byte f / 8 is set, and no other permission changes |
| PageContents.BitsMakeByte | psw/urts/loader.cpp:144 | bit k of a bitmap byte has weight 2^k |
| PageContents.RegionIsItsBytes | psw/urts/loader.cpp:148-209 | the pages of a region laid end to end are zeros up to its address, its raw data, and zeros to the end of its last page |
| PageContents.PaddingIsExact | psw/urts/loader.cpp:222-236 | the padding page is there iff the section starts and ends inside pages that would fit one, and is the page that rounding the size first adds |
| PageContents.HighestIsFirst | psw/urts/loader.cpp:239-243 | the section whose padding is due is the first with the highest address so far, and there is none while all are at zero |
| PageContents.SectionPagesAreExact | psw/urts/loader.cpp:211-265 | for every image the pages added for sections are exactly the frames that meet one and, for version 1.5, the zero page behind the first of the highest sections so far where it ends before the next section, with its flags, outside MAGE |
| PageContents.PagesComeInOrder | psw/urts/loader.cpp:520-561 | for every image, before MAGE come all pages of sections and then the pages of the entries one after the other, in the order in which the walk over the table comes to their ranges |
| ImageLoader.Loader.BuildPages | psw/urts/loader.cpp:286-318 | offers exactly the pages of the run that do not overlap the MAGE section, until the driver refuses |
| ImageLoader.Loader.BuildPartialPage | psw/urts/loader.cpp:267-284 | one page with the bytes at their place and zeros around |
| ImageLoader.Loader.BuildRawPage | psw/urts/loader.cpp:160-193 | the page of one frame with raw data, with its relocation flag |
| ImageLoader.Loader.BuildMemRegion | psw/urts/loader.cpp:148-209 | the loop over raw data and the zero tail give the region's frames, for unaligned sections too |
| ImageLoader.Loader.BuildSection | psw/urts/loader.cpp:218-250 | a section after the padding page of the highest section before it |
| ImageLoader.Loader.BuildSections | psw/urts/loader.cpp:211-265 | all sections with their padding pages, in order |
| ImageLoader.Loader.BuildContext | psw/urts/loader.cpp:431-519 | the pages of one layout entry by kind of content |
| ImageLoader.Loader.BuildContexts | psw/urts/loader.cpp:520-561 | the pages of all entries and group copies in walk order |
| ImageLoader.Loader.BuildMagePages | psw/urts/loader.cpp:320-370 | the held-back pages, or none when signing |
| ImageLoader.Loader.BuildImage | psw/urts/loader.cpp:619-645 | sections, contexts, MAGE pages: the log is that list, cut where the driver refused |
| NodeList.Node.Find | psw/urts/node.cpp:68-77 | the first node with the key, or null |
| NodeList.Node.InsertNext | psw/urts/node.cpp:44-51 | links the node after the head, or changes nothing iff the key is present |
| NodeList.Node.Remove | psw/urts/node.cpp:53-66 | unlinks the first node with the key and leaves the other nodes in order |
| NodeList.InsertKeepsDistinct | psw/urts/node.cpp:44-51 | keys stay distinct iff the new key was absent |
| TcsPool.CollectSplits | psw/urts/tcs.cpp:578-609 | collection splits the bound list into kept, freed and deleted threads and loses none |
| TcsPool.TryKeeps | psw/urts/tcs.cpp:307-330 | an attempt keeps every thread in one place, binding never fails, and the thread it returns exists |
| TcsPool.NoneIffExhausted | psw/urts/tcs.cpp:307-330 | an attempt gets no thread iff the caller has none, none is free, and every bound one has references or, in bind mode, belongs to a live caller |
| TcsPool.AttemptGives | psw/urts/tcs.cpp:307-330 | a thread an attempt gives is then bound to the caller; it was before, or was free, or was idle with none free, and no binding is given up that collection does not take |
| TcsPool.OrdinaryFailsIff | psw/urts/tcs.cpp:358-379 | an ordinary call gets no thread iff the pool is exhausted for the caller and there is no utility thread, nothing left to make, or making fails |
| TcsPool.SpecialGetsUtility | psw/urts/tcs.cpp:338-354 | an initialising call shares the utility thread; a teardown takes it over, and the thread the caller had is free without references |
| TcsPool.NewThreadServes | psw/urts/tcs.cpp:212-230 | a new thread serves the next call; one to be made later serves none before it is made, and then the next |
| TcsPool.FillReachesThePool | psw/urts/tcs.cpp:413-433 | a fill pass whose attempts succeed leaves the pool's minimum of free threads, at least one, or nothing to allocate |
| TcsPool.FillMakesNoMore | psw/urts/tcs.cpp:413-433 | a fill pass makes no thread beyond what the pool keeps ready and loses none |
| TcsPool.StepConsistent | psw/urts/tcs.cpp:145-398 | every pool operation keeps the invariant |
| TcsPool.EveryRunIsConsistent | psw/urts/tcs.cpp:145-609 | after any sequence of operations each thread is in exactly one place, bound keys are distinct, and its count is its unreleased acquisitions less those forgotten by a reset or a teardown |
| TcsPool.CollectionTakesUnused | psw/urts/tcs.cpp:578-609 | unbind-mode collection takes a thread iff all its unreleased acquisitions were forgotten, and deletes none |
| TcsPool.AcquisitionIsExclusive | psw/urts/tcs.cpp:332-390 | a thread in use is only handed to the operating system thread that has it, by ordinary calls and by the special ones |
| TcsPool.SoundIffNeverForgets | psw/urts/tcs.cpp:271-352 | for every run, counts are the unreleased acquisitions and threads in use are bound to who has them throughout, iff no operation of the run unbinds a thread in use |
| TcsPool.TeardownHandsOutThread | psw/urts/tcs.cpp:345-352 | a run, a teardown from inside a call out, after which a thread in use is handed to a second caller |
| ThreadPool.Pool.GetFree | psw/urts/tcs.cpp:145-158 | the last free thread is taken off, or none is there |
| ThreadPool.Pool.Exited | psw/urts/tcs.cpp:137-143 | whether a thread is missing from the live ones |
| ThreadPool.Pool.GarbageCollect | psw/urts/tcs.cpp:530-609 | the in-place walk of either mode collects exactly what goes, and counts what became free |
| ThreadPool.Pool.TryToAcquire | psw/urts/tcs.cpp:307-330 | bound, free or collected thread, with binding and unbinding as they happen; the assertions in the source hold |
| ThreadPool.Pool.AcquireThread | psw/urts/tcs.cpp:332-390 | ordinary and special acquisition, with a fill while waiting, and the reference count |
| ThreadPool.Pool.FillMiniPool | psw/urts/tcs.cpp:496-526 | the pass, one thread made per turn, ends on the unallocated count with the pool it should |
| ThreadPool.Pool.ResetThreads | psw/urts/tcs.cpp:271-292 | every bound thread becomes free with its references forgotten |
| EnclaveLock.StepFormed | psw/urts/enclave.cpp:287-427 | every step of calls in and out, filler and destroyer keeps the frames nested and the flags in order; it leaves each thread as far below what it holds, and the counter as far below the number of holders, as they were, except that a faulty unlock puts both one further down |
| EnclaveLock.CountIsHeldLessFaults | psw/urts/enclave.cpp:287-427 | in every run a thread's read-lock count is what its open calls hold, less its own faulty unlocks |
| EnclaveLock.CounterIsHoldersLessFaults | psw/urts/enclave.cpp:479-531 | in every run the lock's counter is the number of holders less all faulty unlocks, so a destroyer is let in over holders iff there are as many faulty unlocks as holders, and at least one |
| EnclaveLock.CallsLeaveTheCount | psw/urts/enclave.cpp:287-376 | in every run, between two states with the same open calls a thread's count differs by its own faulty unlocks only |
| EnclaveLock.CallersAreExact | psw/urts/enclave.cpp:287-376 | in every run, faulty unlocks of others included, a thread that never fills has exactly the count its open calls hold, and none outside |
| EnclaveLock.BalancedIffNoneFaulty | psw/urts/enclave.cpp:479-506 | for every run, each thread's share of the lock is what its open calls hold throughout, iff no filler unlocks after a call out of its pass lost the lock |
| EnclaveLock.SafeIffNoBreach | psw/urts/enclave.cpp:518-531 | for every run, destroying is safe in each of its states, iff no write lock is granted while a thread is inside or past the check and no check is passed while a destroyer has the lock |
| EnclaveLock.SafeWithoutFault | psw/urts/enclave.cpp:518-531 | without a faulty unlock, however locks are refused: while the enclave is destroyed no thread is inside or holds the lock, and once it is marked none is inside or can enter |
| EnclaveLock.SafeIfHonest | psw/urts/enclave.cpp:287-296 | the same safety in every run, faulty unlocks included, in which read locks are refused to writers only |
| EnclaveLock.RefusalWithoutWriterIsUnsafe | psw/urts/enclave.cpp:479-506 | a run in which a lock fails without a writer, and the faulty unlock lets a destroyer in while a caller is inside |
| EnclaveLock.UnlocksAreBalanced | psw/urts/enclave.cpp:366-370 | in every run, whoever unlocks holds the lock, except a filler that lost it; a thread that never fills unlocks with a count of one |
| EnclaveLock.CallGoesThrough | psw/urts/enclave.cpp:287-427 | from any state without a destroyer a thread outside goes in, calls out, and comes back to the same state |
| EnclaveLock.CallsNest | psw/urts/enclave.cpp:287-427 | calls in and out nest to any depth on one thread without it holding a lock outside, and come back |
| EnclaveProgress.EveryoneCanLeave | psw/urts/enclave.cpp:287-427 | from every state of every run all open calls, however deep, can return and a destroyer can finish; another one is then let in iff no filler ever unlocked what it did not hold |
| EnclaveProgress.DestroyGoesThrough | psw/urts/enclave.cpp:518-531 | without holders a destroyer goes through, and from then on every call in and every filler pass gives the lock back at its check |
| EnclaveLock.FillerCanUnlockTwice | psw/urts/enclave.cpp:479-506 | a run in which a destroyer takes the lock while the filler is out, and the filler's unlock takes the count below zero |
| EnclavePool.StepInv | psw/urts/enclave.cpp:607-759 | every operation keeps counts, list and object states consistent |
| EnclavePool.DeletedExactlyOnce | psw/urts/enclave.cpp:670-759 | in every run an object in use or in the pool exists; one removed and unused is deleted exactly once, or with the caller who is to delete it |
| EnclavePool.DeletionIsSafe | psw/urts/enclave.cpp:670-685 | a deletion never hits an object in use or in the pool, and is its first |
| EnclavePool.PoolIsAMap | psw/urts/enclave.cpp:607-759 | in every run the pool is a map: taking a number gives the object it was added with, adding succeeds iff the number is free, removing hands the object back iff nobody has it |
| EnclavePool.Pool.Add | psw/urts/enclave.cpp:607-625 | links the object over the node list, or refuses a taken number |
| EnclavePool.Pool.Take | psw/urts/enclave.cpp:648-668 | finds the object and counts one more use |
| EnclavePool.Pool.Give | psw/urts/enclave.cpp:670-685 | counts one use less and deletes a removed object at zero |
| EnclavePool.Pool.Remove | psw/urts/enclave.cpp:723-759 | unlinks the object; hands it back if unused, marks it otherwise |
| EventHandoff.SleeperIsOwedOrUnwoken | common/src/se_event.c:48-68 | in every run with one waiter and any wakers, a sleeping waiter means the counter is -1 or a wake-up is still owed |
| EventHandoff.FlagIsAnsweredIff | psw/urts/enclave.cpp:479-506 | for every run, a set flag has a token or a look ahead of it throughout, iff no wake of the run that leaves the flag wanted found the filler about to wait at -1 |
| EventHandoff.FlagIsAnsweredWithoutDebt | psw/urts/tcs.cpp:496-526 | in particular in every run in which each sleep ended by its own wake |
| EventHandoff.AnswerableIff | psw/urts/tcs.cpp:362-376 | in every state of every run with a set flag, the flag can be answered without a new wake, iff the filler has a token or a look ahead of it or a wake-up is still owed |
| EventHandoff.DebtLosesAWake | psw/urts/tcs.cpp:362-376 | a run in which a late wake-up leaves the counter at -1, and the next caller sets its flag and neither it nor the filler can go on |
| PageProtection.RecordIsExact | psw/enclave_common/sgx_enclave_common.cpp:437-459 | a load that is not lost leaves, once flushed, what its own mprotect would |
| PageProtection.LazyIsEager | psw/enclave_common/sgx_enclave_common.cpp:437-508 | any sequence of loads and initialisations without a lost load is as with one mprotect per load |
| PageProtection.CoalescingIsExact | psw/enclave_common/sgx_enclave_common.cpp:437-508 | loads after creation followed by initialisation never lose one |
| PageProtection.ContiguousIsOneCall | psw/enclave_common/sgx_enclave_common.cpp:442-459 | loads that continue one another with one protection are one pending region, and none after the first reaches mprotect |
| PageProtection.LoadTakesEffect | psw/enclave_common/sgx_enclave_common.cpp:442-459 | from any state, a load's pages have its protection once flushed, iff the load is not lost or they had it already |
| PageProtection.ExactIffNotLow | psw/enclave_common/sgx_enclave_common.cpp:437-508 | for an enclave, any loads inside it and initialisations in any order are as with one mprotect per load, iff its base is not below its size |
| PageProtection.LowEnclaveLosesALoad | psw/enclave_common/sgx_enclave_common.cpp:495-508 | a base below the size has loads inside the enclave one of which never reaches mprotect |
| PageProtection.ChosenBase | psw/enclave_common/sgx_enclave_common.cpp:247-273 | the base creation picks is a multiple of the size inside the mapping of twice the size |
| PageProtection.EveryEnclaveIsExact | psw/enclave_common/sgx_enclave_common.cpp:437-508 | so for every enclave at a multiple of its size the protections are those of one mprotect per load, before and after initialisation |
| PageProtection.Enclave.LoadData | psw/enclave_common/sgx_enclave_common.cpp:383-463 | the size is returned and the load recorded iff it is well formed, starts in the enclave, the driver takes all its pages and a needed mprotect succeeds; each failure returns its value and records nothing |
| PageProtection.Enclave.FlushRegion | psw/enclave_common/sgx_enclave_common.cpp:495-508 | succeeds iff nothing is pending or mprotect does, and then the region is flushed and emptied |
| XmlStrings.DecodeUndoesEscape | external/tinyxml2/tinyxml2.cpp:2494-2546 | decoding the print of a text gives the text, for both entity sets, iff it has no carriage return |
| XmlStrings.Utf8RoundTrip | external/tinyxml2/tinyxml2.cpp:403-453 | the bytes written determine the code point, one to four of them by its size |
| XmlStrings.ReferenceIsRead | external/tinyxml2/tinyxml2.cpp:456-549 | a decimal or hexadecimal reference of any length is read as the bytes of its sum with wrapped weights, which is its number iff no digit wraps, as for every number below 2^32 |
| XmlStrings.WrappedIsExactIff | external/tinyxml2/tinyxml2.cpp:478-532 | the sum from the last digit on is at most the number, and is it iff each weight and product fits |
| XmlStrings.LongNumberWraps | external/tinyxml2/tinyxml2.cpp:478-532 | the reference &#x100000041; is read as the letter A |
| XmlStrings.EscapeAvoids | external/tinyxml2/tinyxml2.cpp:2500-2531 | no character that is replaced remains in the print |
| XmlStrings.PlainIffNothingEscaped | external/tinyxml2/tinyxml2.cpp:2421-2433 | a text is printed as it is iff it has no ampersand and no angle bracket, and no quote of either kind if it is an attribute value |
| XmlDecoding.LineEndsAreFeeds | external/tinyxml2/tinyxml2.cpp:278-302 | of every text whose lines end alike, in a carriage return, a line feed or the pair in either order, decoding gives the lines, each ended by one line feed |
| XmlDecoding.UnknownIsKeptIff | external/tinyxml2/tinyxml2.cpp:326-346 | for every text, an unknown entity that decoding comes to keeps its ampersand in the result iff the text has one at the write position |
| XmlDecoding.UnknownIsLost | external/tinyxml2/tinyxml2.cpp:326-346 | a text of which a stale character is read in place of the ampersand |
| XmlBuffers.GetCharacterRef | external/tinyxml2/tinyxml2.cpp:456-549 | the search forward and the digits backward read the reference, or fail as they should |
| XmlBuffers.SearchEntity | external/tinyxml2/tinyxml2.cpp:326-339 | the first entity of the table that matches |
| XmlBuffers.SamePiece | external/tinyxml2/tinyxml2.cpp:278-356 | what is read in a turn depends on nothing before the write position |
| XmlBuffers.DecodeInPlace | external/tinyxml2/tinyxml2.cpp:277-357 | the write position stays behind the read position, which stays within the text, on every input; the text is decoded |
| XmlBuffers.GetStr | external/tinyxml2/tinyxml2.cpp:267-365 | the buffer holds the decoded text and a terminator, and nothing outside changes |
| XmlWhitespace.CollapseJoinsWords | external/tinyxml2/tinyxml2.cpp:238-263 | the collapsed text is the words of the text joined by single spaces |
| XmlWhitespace.CollapseKeepsWords | external/tinyxml2/tinyxml2.cpp:238-263 | collapsing keeps the words, in order, and does nothing the second time |
| XmlWhitespace.CollapseWhitespace | external/tinyxml2/tinyxml2.cpp:238-263 | the loop does this in place: the text begins at its first word and is terminated, and nothing outside it changes |
| XmlWhitespace.GetCollapsedStr | external/tinyxml2/tinyxml2.cpp:267-365 | decoding and collapsing together, up to a terminator that a reference may have put inside the text |
| XmlReader.SearchTag | external/tinyxml2/tinyxml2.cpp:193-215 | the scanning loop finds the first end tag |
| XmlReader.ReadName | external/tinyxml2/tinyxml2.cpp:218-235 | the longest name that starts there |
| XmlReader.ReadAttributes | external/tinyxml2/tinyxml2.cpp:1815-1872 | the attributes, each a name, an equals sign and a quoted, decoded value, up to the end of the tag; an error for a repeated name |
| XmlReader.ReadNodes | external/tinyxml2/tinyxml2.cpp:988-1100 | the nodes of a level, elements with their children and matching end tags included, and the depth limit |
| XmlGrammar.ParsedIffSpelled | external/tinyxml2/tinyxml2.cpp:656-1100 | for every text and tree, the parser reads the text as the tree iff the grammar spells it so: white space, names, quoted values, marks, matching closing tags, distinct attributes, declarations first, nesting below the limit |
| XmlErrors.OpenedEndsInItsTag | external/tinyxml2/tinyxml2.cpp:1075-1094 | for every text, an element that was left open and read ends in a closing tag with its own name |
| XmlErrors.MismatchFails | external/tinyxml2/tinyxml2.cpp:1075-1094 | an element closed by another name is an error, whatever it holds and whatever follows |
| XmlErrors.RepeatedNameFails | external/tinyxml2/tinyxml2.cpp:1830-1850 | a tag with a repeated attribute name is an error, whatever follows |
| XmlPrinter.Printer.PrintString | external/tinyxml2/tinyxml2.cpp:2494-2546 | copying runs between entities escapes each character |
| XmlPrinter.Printer.OpenElement | external/tinyxml2/tinyxml2.cpp:2561-2579 | seals an open tag, puts a line break and the indentation where the mode and an open text ask for them, and starts the next tag |
| XmlPrinter.Printer.PushAttribute | external/tinyxml2/tinyxml2.cpp:2582-2590 | appends a name and an escaped value |
| XmlPrinter.Printer.CloseElement | external/tinyxml2/tinyxml2.cpp:2633-2658 | closes the innermost element, short form iff it has no content, with the line breaks of the mode |
| XmlPrinter.Printer.PushText | external/tinyxml2/tinyxml2.cpp:2671-2684 | seals an open tag and appends the text |
| XmlPrinter.Printer.PrintNode | external/tinyxml2/tinyxml2.cpp:2788-2834 | in either mode, visiting a tree appends its print, moves the printer's state as specified and restores depth and stack |
| XmlRoundTrip.AttrsAreParsed | external/tinyxml2/tinyxml2.cpp:1815-1872 | reading printed attributes gives them in order |
| XmlRoundTrip.TextIsParsed | external/tinyxml2/tinyxml2.cpp:1147-1171 | reading a printed text that is not blank gives it with its white space |
| XmlRoundTrip.CommentIsParsed | external/tinyxml2/tinyxml2.cpp:1212-1220 | a printed comment that does not contain its end tag is read back |
| XmlRoundTrip.CDataIsParsed | external/tinyxml2/tinyxml2.cpp:1147-1160 | so is character data in a CDATA section |
| XmlRoundTrip.DeclarationIsParsed | external/tinyxml2/tinyxml2.cpp:1261-1269 | so is a declaration |
| XmlRoundTrip.UnknownIsParsed | external/tinyxml2/tinyxml2.cpp:1309-1318 | so is other markup that does not read as a comment or CDATA |
| XmlTrees.ListIsParsed | external/tinyxml2/tinyxml2.cpp:988-1100 | in either mode, reading a printed list anywhere in a text gives its nodes, each text with the white space beside it, and fails iff it is nested to the limit |
| XmlTrees.PrintedIsParsed | external/tinyxml2/tinyxml2.cpp:2380-2402 | in either mode, parsing the print of a document gives it with the white space beside its texts if it is nested below the limit, and an error otherwise |
| XmlTrees.PrintIsParsed | external/tinyxml2/tinyxml2.cpp:2494-2780 | parsing the compact print of a document with elements, text, CDATA, comments, declarations and other markup gives the same tree if it is nested below the limit, and an error otherwise |
| XmlLayout.DocumentIsLines | external/tinyxml2/tinyxml2.cpp:2552-2658 | of every element without text the indented print is one line for each tag or other piece, in order, four spaces deeper for each element around it |
| XmlTrees.IndentedIsParsedIff | external/tinyxml2/tinyxml2.cpp:2561-2780 | parsing the indented print gives the document, iff it is nested below the limit, no text in an element stands before an element, and none at the top stands beside a line break |
| XmlTrees.MixedContentGrows | external/tinyxml2/tinyxml2.cpp:2561-2579 | a text before an element comes back with that element's indentation |
| XmlDocuments.PrintAndRead | external/tinyxml2/tinyxml2.cpp:2380-2394 | in either mode, the printer's buffer read by the reader gives the document with the white space beside its texts or the depth error; it is the document printed iff it is below the limit and the mode is compact or no text stands beside a gap |

## Left out

- Driver ioctls, futex and pthread internals: a driver accepts pages up to some point, a read lock may be refused, and a futex wait compares and sleeps in one step; memory is sequentially consistent.
- The early returns of the switchless protocol in a crashed enclave, worker start-up and shutdown, callbacks and statistics.
- `TcsPool.NewThread` moves a thread in one step; in the source it is for a moment in both vectors.
- The thread pool keeps its bound list as a sequence; the node list is proved to implement the sequence operations it uses, and the enclave pool is built over the nodes.
- ThreadPool.Pool.AcquireThread: the wait on the need flag is one fill pass here; the handoff between caller and filler is the subject of `EventHandoff`.
- ThreadPool.Pool.FillMiniPool: the look at the need flag inside the pass is left to `EventHandoff`.
- ImageLoader.Loader.BuildRawPage: the mprotect of a relocation page before it is added, and its failure, are not modelled.
- ImageLoader.Loader.BuildMemRegion: section addresses do not wrap at 64 bits, and the mprotect of relocation pages is not modelled.
- ImageLoader.Loader.BuildContext: the list of thread control structures and the attribute that simulation mode clears are not modelled.
- ImageLoader.Loader.BuildImage: covers the page additions, not the creation, patching and initialisation around them.
- PageBuilding.MageComesLast: every MAGE page holds the bytes of the first one, because the source pointer does not advance between them.
- SHA-256 state resumption and the derivation of a peer's measurement: not part of this model.
- EnclaveLock.StepFormed: `init_uswitchless`, which holds the lock around a call of its own, is not among the operations; a call in is taken to return the lock failure exactly when its own call out did.
- XmlDocuments.PrintAndRead: the reader keeps no line numbers and error codes, and the terminators that flushing a name writes behind the read position are not modelled.
- XmlTrees.PrintedIsParsed: text that is only white space, two texts in a row and text outside the root element are not printable, because the parser drops or joins them.
- Numbers in attributes and the parser's white-space mode: easy members beside the ones here.
- AESM service mapping, CPUID tables, OpenSSL wrappers and the small compiler-rt routines.
