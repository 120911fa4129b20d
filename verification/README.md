# Verified models of the stateful core of ohmylib

ohmylib is a small C library. This project models its stateful parts in Dafny and proves what
they keep over every call, every run and every interleaving:

- **Blocking queue** (`lib/queue.c`). `QueueRing.dfy` is the ring of message slots as a value.
  `Queue.dfy` is `struct queue_s` over one block of bytes, with pointers kept as offsets, refining
  the ring. `QueueProtocol.dfy` is any number of threads in `queue_send` and `queue_recv` as a state
  machine whose steps are single actions: locking, testing, falling asleep, waking (by broadcast,
  by timeout, or for no reason), re-acquiring, copying, moving a pointer, counting, broadcasting,
  unlocking. Waiting has the meaning `pthread_cond_timedwait` has in IEEE Std 1003.1 (System
  Interfaces). `QueueCalls.dfy` follows one call from start to end, among any others, and
  `QueueTime.dfy` is the deadline arithmetic.
- **Dictionary** (`lib/dictionary.c`). `DictionaryHash.dfy` is the hash on 32-bit words, proved equal
  to the same lines on 32-bit vectors (`Words.dfy`, `Vectors.dfy`); `Dictionary.dfy` is the slot
  array and the object that updates it in place.
- **Circular list** (`includes/list.h`). `List.dfy` works on heap nodes with `next` and `prev`.
- **LFSR byte generator** (`lib/lfsr.c`). `Lfsr.dfy`, on 16-bit registers.
- **Pointer vector** (`lib/cvector.c`) in `CVector.dfy`, **string splitter** (`lib/cstring.c`,
  `includes/cstring.h`) in `CString.dfy`, **hex dumpers** (`lib/printlog.c`) in `HexDump.dfy`, with
  the place of every character in their texts in `DumpLayout.dfy`.

`Common.dfy` holds two shared types. `dafny verify dfyconfig.toml` checks everything.

## How the C is represented

- Unsigned words are natural numbers modulo 2^32 (hash, queue geometry) or 16-bit vectors (LFSR); the
  hash is tied to 32-bit vectors.
- A string is the sequence of its characters before the terminator. Whether `char` is signed is a
  parameter of the hash, and every result holds for both choices.
- Whether an allocation succeeds is a Boolean argument `memory` of the call that makes it. A NULL
  argument or result is `None`, or a null reference.
- The slot table of the dictionary is proved correct for any function from keys to words in the place
  of the hash; the object uses `dictionary_hash`.
- An in-place update is a method on a class or an array, tied to a function on values; the main
  results are lemmas about those functions, over all values and all runs.
- In `List.dfy` the methods take the abstract contents as ghost arguments. Their `modifies` clauses
  name nodes of the lists involved only, so a list that shares no node with them is untouched.
- In the queue protocol `sent`, `received` and `log` are history variables: nothing reads them.

## Where the code does less than one would hope

- `queue_setup` keeps its geometry in 32 bits. It describes the caller's block exactly when
  `nmemb`, `size` and `(nmemb - 1) * size` are below 2^32 (`Queue.SetupExact`); 65538 slots of 65536
  bytes are a case where it does not (`Queue.SetupTooLarge`). `queue_create` gives a valid queue
  of what was asked for exactly then.
- `queue_ts_add` subtracts 999999999 on a carry, so a deadline that carries is one nanosecond late,
  and no other is (`QueueTime.DeadlineExact`). A negative timeout can leave a negative nanosecond
  part, which the wait rejects; `QueueTime.DeadlineValid` says exactly when, and
  `QueueCalls.FallsAsleep` what becomes of the call.
- `dictionary_create` rounds up through a mask of 32 bits; it gives the least multiple of 128 exactly
  when the size plus 127 is below 2^32 (`DictionaryTable.CreatedSize`). A table it makes too small, or
  with no slots at all (`DictionaryTable.AlignTooLarge`), still works: the run theorem covers it.
- `dictionary_add` passes the new value of a live key to `strdup` without testing it for NULL. Runs are
  those without such a call (`DictionaryTable.Callable`), which are exactly the runs whose replies a
  finite map gives (`DictionaryTable.RunCallableIff`); `DictionaryTable.NullRefreshExcluded` is the
  excluded call.
- `popv` and `popv_front` read through their argument, so the NULL vector cannot be popped
  (`CVector.PopOfNull`). A run from it is defined exactly when every pop comes after a push that
  succeeded (`CVector.RunDefinedIff`).
- The inner loops of `dump` and `hexdump` load a byte on all sixteen turns. They stay inside the
  buffer exactly when its size is a multiple of sixteen; otherwise they also load the one byte after
  its end (`HexDump.ReadsInsideIff`, `HexDump.OneByteReadsOn`). That byte, an argument of the model,
  never shows in the output.
- `queue_space_available` returns an `int`, which is the free space exactly when that is below 2^31
  (`Queue.NarrowExact`).
- The LFSR repeats from its first byte for every start exactly when bit 15 of the polynomial is set
  (`Lfsr.PeriodicIffTopTap`); without it, the start 0x8000 never comes back (`Lfsr.NeverPeriodic`).
- `substr` with a NUL separator hands back a continuation outside the string
  (`CString.ContinuationInside`, `CString.NulNeedleLeaves`), so `CString.IterSubstr` asks for a
  separator other than NUL.

## Model

| member | source | states |
|---|---|---|
| `QueueRing.WriteFollowsRead` | lib/queue.c:165-171 | the write index is the read index plus the count modulo the capacity, and wrapping by comparison with the last slot is adding one modulo the capacity |
| `QueueRing.FullIsNoSlotLeft` | lib/queue.c:78-96 | the full test means every slot holds a message, the empty test that none does |
| `QueueRing.PutAppends` | lib/queue.c:164-171 | a send on a ring with a slot left keeps the ring invariant and appends its message to the queued ones |
| `QueueRing.TakeRemoves` | lib/queue.c:205-212 | a receive on a ring with a message keeps the invariant and removes the oldest message, the one under the read pointer |
| `Queue.SetupExact` | lib/queue.c:9-26 | the recorded capacity, element size and tail are those of the caller's block if and only if the arguments fit in 32 bits |
| `Queue.SetupModulo` | lib/queue.c:9-26 | whatever the arguments, the recorded capacity, element size and tail are the wanted ones modulo 2^32 |
| `Queue.SetupTooLarge` | lib/queue.c:22-22 | a concrete block whose tail is recorded at its second slot, not its last |
| `Queue.CutStore` | lib/queue.c:164-164 | overwriting the bytes of one slot replaces that slot of the block and no other |
| `Queue.TailIsLast` | lib/queue.c:165-170 | a slot's offset equals the tail exactly for the last slot |
| `Queue.Queue.constructor` | lib/queue.c:9-26 | the handle holds the recorded geometry over the block, and is a valid queue of the capacity and element size asked for if and only if the arguments fit; a valid one is empty |
| `Queue.Queue.Create` | lib/queue.c:45-65 | NULL for a zero argument or no memory and only then; otherwise the handle above, valid as asked for if and only if the arguments fit |
| `Queue.Queue.IsEmpty` | lib/queue.c:78-92 | true exactly when no message is queued |
| `Queue.Queue.IsFull` | lib/queue.c:94-108 | true exactly when as many messages are queued as there are slots |
| `Queue.NarrowExact` | lib/queue.c:110-112 | narrowing a count to `int` gives the one number of that type that differs from it by a multiple of 2^32, and keeps it if and only if it is below 2^31 |
| `Queue.Queue.SpaceAvailable` | lib/queue.c:110-124 | the number of messages that still fit, up to a multiple of 2^32 and in the range of an `int` |
| `Queue.Queue.StoreSlot` | lib/queue.c:164-164 | the copy puts the message into the slot under the write pointer of the ring and changes nothing else |
| `Queue.Queue.LoadSlot` | lib/queue.c:205-205 | the copy yields the message in the slot under the read pointer |
| `Queue.Queue.CommitWrite` | lib/queue.c:165-171 | the pointer and count updates are the ring's advance and count |
| `Queue.Queue.CommitRead` | lib/queue.c:206-212 | the same for a receive |
| `Queue.Queue.Send` | lib/queue.c:153-175 | succeeds exactly when there is room, then appends the bytes of the message, and otherwise changes nothing |
| `Queue.Queue.Recv` | lib/queue.c:193-216 | succeeds exactly when a message is queued, returns and removes the oldest one, and otherwise changes nothing |
| `QueueTime.DeadlineExact` | lib/queue.c:126-144 | for every timeout the deadline is the start plus the timeout, plus one nanosecond exactly when the timeout is not negative and its milliseconds reach the next second of the clock |
| `QueueTime.DeadlineValid` | lib/queue.c:126-144 | the nanosecond part is in range if and only if the timeout is zero or more, or its milliseconds do not go below the second of the clock |
| `QueueTime.NegativeTimeoutBorrows` | lib/queue.c:126-135 | a concrete negative timeout whose deadline is out of range |
| `QueueProtocol.MutexStep` | lib/queue.c:153-216 | every step keeps: the mutex is held by exactly the thread inside the critical section |
| `QueueProtocol.RingOkStep` | lib/queue.c:164-171 | every step keeps the ring invariant, with what the owner of the mutex has half done taken into account |
| `QueueProtocol.FifoStep` | lib/queue.c:153-216 | every step keeps: messages sent are messages received followed by messages queued |
| `QueueProtocol.NoLostWakeupStep` | lib/queue.c:146-148 | every step keeps: a sleeper is blocked, or the owner of the mutex is about to wake it |
| `QueueProtocol.TimingStep` | lib/queue.c:141-148 | every step keeps: a wait reports running out of time only at its deadline, unless the deadline is no time at all |
| `QueueProtocol.AccountedStep` | lib/queue.c:153-216 | every step keeps: for each thread, successful returns and moved messages match one for one |
| `QueueProtocol.OwnMessageStep` | lib/queue.c:164-164 | every step keeps: the message a send moves is its own argument |
| `QueueProtocol.RunInv` | lib/queue.c:153-216 | all of these hold after every interleaving |
| `QueueProtocol.MutualExclusion` | lib/queue.c:158-213 | no interleaving has two threads in the critical section |
| `QueueProtocol.Delivery` | lib/queue.c:153-216 | in every interleaving the messages received are a prefix of the messages sent, and with the mutex free the rest is exactly what is queued, in order |
| `QueueProtocol.CallersAreToldTheTruth` | lib/queue.c:159-174 | in every interleaving the sends (receives) that returned 0 to a thread are, in order, exactly the messages it put in (took out), so a call that returned -1 moved none |
| `QueueProtocol.NoLostWakeups` | lib/queue.c:146-172 | with the mutex free a sleeping sender means that as many messages are queued as there are slots, a sleeping receiver that none is, and the two never sleep together |
| `QueueProtocol.NeverStuck` | lib/queue.c:146-216 | in every reachable state some call can take its next step, unless all open calls sleep on one side with the mutex free and every slot, respectively no slot, holding a message |
| `QueueCalls.TestDecides` | lib/queue.c:146-163 | in every reachable state a sender that tests a queue with a slot left, or a receiver one with a message, goes on to copy and can neither sleep nor give up there; with no slot or no message it never goes on to copy |
| `QueueCalls.FailedCallsChangeNothing` | lib/queue.c:146-148 | a call that is still waiting has taken no step that changes the queue |
| `QueueCalls.NeverGivesUpEarly` | lib/queue.c:137-150 | a call with a timeout of zero or more that returns -1 does so no earlier than that many milliseconds after the moment it was made, whatever the interleaving; the event it logs names the call and that time |
| `QueueCalls.GaveUpChangedNothing` | lib/queue.c:153-163 | a call that returns -1 finds as many messages as slots, respectively none, and from its start to its end its thread takes no step that changes the queue and moves no message |
| `QueueCalls.FallsAsleep` | lib/queue.c:141-150 | a caller that has to wait can sleep if and only if its timeout is zero or more or its negative timeout does not borrow from the seconds; otherwise its next two tests end the call with -1 |
| `QueueCalls.ExpiresExactly` | lib/queue.c:141-148 | a sleeper can run out of time if and only if its timeout has passed since its first blocked test, to the nanosecond, or one nanosecond more when the deadline carries |
| `QueueCalls.GivesUpOnTime` | lib/queue.c:146-163 | in every reachable state with the mutex free a sleeper that may run out of time can do so, take the mutex and return -1, changing nothing else |
| `QueueCalls.ExpiredNeverSleepsAgain` | lib/queue.c:146-150 | after running out of time a thread does not sleep again before its call ends, whatever the interleaving |
| `QueueCalls.SendCompletes` | lib/queue.c:153-175 | in every reachable state with the mutex free and a slot left, a send can run from call to return without waiting; it returns 0, appends its message, wakes every sleeping receiver and leaves every other thread alone |
| `QueueCalls.RecvCompletes` | lib/queue.c:193-216 | the same for a receive with a message queued: it returns 0 with the oldest message, which is gone, and has woken every sleeping sender |
| `Words.XorBits` | lib/dictionary.c:83-83 | the exclusive or used in the model is the bitwise one |
| `Words.XorShiftInjective` | lib/dictionary.c:83-87 | `h ^ (h >> k)` loses nothing for `k > 0` |
| `Vectors.BitsSum` | lib/dictionary.c:81-88 | the 32-bit vector of a sum is the machine's sum of the vectors |
| `Vectors.BitsXor` | lib/dictionary.c:83-87 | the vector of an exclusive or is the machine's exclusive or of the vectors |
| `Vectors.BitsInjective` | lib/dictionary.c:73-73 | words with the same vector are the same word |
| `DictionaryHash.TimesInjective` | lib/dictionary.c:82-88 | each `h + (h << k)` line can be undone modulo 2^32 |
| `DictionaryHash.ComputeHash` | lib/dictionary.c:71-91 | the loop computes the hash function of the model, whose 32-bit vector is that of the C lines done with the machine's `+`, `<<`, `>>` and `^`; 0 for NULL |
| `DictionaryHash.HashIsMachine` | lib/dictionary.c:80-90 | for every key the hash has the vector that `hash + char`, `hash + (hash << 10)`, `hash ^ (hash >> 6)` in turn, then the shifts by 3, 11 and 15, give |
| `DictionaryHash.KnownHash` | examples/dictionary/dict.txt:1-1 | the hash of "my_key;0" is the value the repository records, 0x3D97AD5D |
| `DictionaryHash.RoundInjective` | lib/dictionary.c:80-84 | two rounds that end in one word started from one word exactly if they absorbed one character |
| `DictionaryHash.RoundsInjective` | lib/dictionary.c:80-84 | a whole run of rounds is injective in the word it starts from |
| `DictionaryHash.FinishInjective` | lib/dictionary.c:86-88 | the closing lines are injective |
| `DictionaryHash.SuffixKeepsCollisions` | lib/dictionary.c:71-91 | appending the same suffix to two keys neither makes nor breaks a collision |
| `DictionaryHash.LastByteDecides` | lib/dictionary.c:71-91 | after a common prefix two keys with one more character collide only if they are equal |
| `DictionaryHash.OneByteApart` | lib/dictionary.c:71-91 | keys of one length that differ in exactly one position never collide |
| `DictionaryTable.ScansAgree` | lib/dictionary.c:13-34 | filtering by the cached hash finds the slot a plain string comparison finds, if and only if the key is in the map |
| `DictionaryTable.LiveIsCardinality` | lib/dictionary.c:193-193 | the number of occupied slots is the number of keys in the map |
| `DictionaryTable.ContentsBind` | lib/dictionary.c:188-193 | filling a free slot, or refreshing the key's own slot, binds that key and keeps keys distinct |
| `DictionaryTable.ContentsUnbind` | lib/dictionary.c:215-222 | clearing a slot removes its key and no other |
| `DictionaryTable.AlignExact` | lib/dictionary.c:8-8 | rounding gives the least multiple of 128 at or above the size if and only if size + 127 < 2^32 |
| `DictionaryTable.AlignTooLarge` | lib/dictionary.c:100-100 | a size of 2^32 is rounded to 0 |
| `DictionaryTable.CreatedSize` | lib/dictionary.c:93-107 | a new table has a multiple of 128 slots, at least 128 and at least the size asked for, if and only if size + 127 < 2^32, and then the fewest such |
| `DictionaryTable.CreatedRefines` | lib/dictionary.c:93-118 | a new table satisfies the invariant and is the empty map |
| `DictionaryTable.ResizedRefines` | lib/dictionary.c:51-69 | after a successful resize the map is unchanged and there is an empty slot |
| `DictionaryTable.AddedRefines` | lib/dictionary.c:160-198 | an add keeps the invariant, binds the key when it succeeds, changes nothing when it fails, and fails only when a new key needs memory that is not there |
| `DictionaryTable.DeletedRefines` | lib/dictionary.c:200-225 | a delete keeps the invariant and removes exactly the key |
| `DictionaryTable.GotRefines` | lib/dictionary.c:141-158 | a get returns the stored value, possibly NULL, of a live key and the default otherwise |
| `DictionaryTable.RunRefines` | lib/dictionary.c:93-225 | every run of calls from creation that never adds a live key with a NULL value is a run of a finite map, reply for reply, with count equal to the number of keys and the storage at most the larger of its initial size and the highest count plus 127 |
| `DictionaryTable.PeakExact` | lib/dictionary.c:193-223 | the highest count the storage bound speaks of is the count after some prefix of the run, and no prefix exceeds it |
| `DictionaryTable.RunCallableIff` | lib/dictionary.c:171-177 | the replies of a run are those of a finite map if and only if no call of it adds a live key with a NULL value |
| `DictionaryTable.NullRefreshExcluded` | lib/dictionary.c:177-177 | a run that adds a key and then adds it again with a NULL value is excluded |
| `Dictionary.Dictionary.constructor` | lib/dictionary.c:93-118 | the new object is the created table, the empty map |
| `Dictionary.Dictionary.FindByKey` | lib/dictionary.c:13-34 | the loop finds the first slot with the hash and the key |
| `Dictionary.Dictionary.FindByEmpty` | lib/dictionary.c:36-49 | the loop finds the first empty slot |
| `Dictionary.Dictionary.Resize` | lib/dictionary.c:51-69 | the new array holds the old slots and 128 empty ones; a failed allocation changes nothing |
| `Dictionary.Dictionary.Get` | lib/dictionary.c:141-158 | the value of the key in the map, or the default |
| `Dictionary.Dictionary.Add` | lib/dictionary.c:160-198 | the object becomes the added table; the map gains the binding exactly when the call succeeds |
| `Dictionary.Dictionary.Del` | lib/dictionary.c:200-225 | the object becomes the deleted table; the map loses exactly the key |
| `List.InitListHead` | includes/list.h:66-68 | the node is the head of an empty list |
| `List.AddBetween` | includes/list.h:76-83 | the entry is inserted in that gap of the list |
| `List.Add` | includes/list.h:93-95 | the entry becomes the first of the list |
| `List.AddTail` | includes/list.h:105-107 | the entry becomes the last of the list |
| `List.Unlink` | includes/list.h:117-120 | the node between the two is removed from the list |
| `List.Del` | includes/list.h:128-132 | the entry is removed and its links are poisoned |
| `List.DelInit` | includes/list.h:140-143 | the entry is removed and becomes an empty list |
| `List.Move` | includes/list.h:150-153 | the entry leaves its list and becomes the first of the target, which may be the same list |
| `List.MoveTail` | includes/list.h:160-164 | the entry leaves its list and becomes the last of the target, which may be the same list |
| `List.Empty` | includes/list.h:170-172 | true exactly when the list has no nodes |
| `List.ForEach` | includes/list.h:227-229 | the walk visits exactly the nodes of the list, in order |
| `List.ForEachReverse` | includes/list.h:280-283 | the backward walk visits them in reverse |
| `List.DeleteChosen` | includes/list.h:128-132 | one turn of the deleting walk removes the current node exactly if it is chosen |
| `List.ForEachSafe` | includes/list.h:259-261 | walking while deleting any chosen set visits every original node once, in order, ends, and leaves exactly the others, in order, in a well-formed list |
| `List.KeepHolds` | includes/list.h:259-261 | what the deleting walk leaves holds exactly the nodes of the list that were not chosen |
| `List.SpliceNodes` | includes/list.h:174-185 | the nodes of a non-empty list are put in front of those of the other |
| `List.Splice` | includes/list.h:192-195 | the target holds the source's nodes followed by its own; the source head keeps its links |
| `List.SpliceInit` | includes/list.h:204-210 | the same, and the source becomes a valid empty list |
| `List.ContentsUnique` | includes/list.h:57-59 | a head is the head of at most one list, so the contents are determined by the links |
| `Lfsr.Fill` | lib/lfsr.c:3-16 | the buffer's first `count` bytes become the stream, byte `i` being the register after `i` steps modulo 256; the rest is untouched, and NULL gives 0 |
| `Lfsr.StreamIsMod` | lib/lfsr.c:11-11 | byte `i` of the stream is the register after `i` steps modulo 256 |
| `Lfsr.StepCases` | lib/lfsr.c:12-12 | a step shifts right by one and mixes the polynomial in exactly when the bit shifted out is set |
| `Lfsr.Restart` | lib/lfsr.c:10-13 | filling a + b bytes is filling a and then b from the register reached |
| `Lfsr.Superposition` | lib/lfsr.c:10-13 | the stream of the exclusive or of two starts is the exclusive or of their streams |
| `Lfsr.NineBytesDetermine` | lib/lfsr.c:10-13 | runs of one polynomial that agree on nine bytes have equal starts and agree on every byte |
| `Lfsr.StepReversible` | lib/lfsr.c:12-12 | with bit 15 of the polynomial set a step can be undone |
| `Lfsr.UnstepReversible` | lib/lfsr.c:12-12 | and every register is the successor of one |
| `Lfsr.NeverZero` | lib/lfsr.c:12-12 | then a register that is not zero never becomes zero |
| `Lfsr.Returns` | lib/lfsr.c:10-13 | then the register is back at its start within 65535 steps |
| `Lfsr.NeverPeriodic` | lib/lfsr.c:10-13 | without bit 15 the stream from 0x8000 has no period at all |
| `Lfsr.PeriodicIffTopTap` | lib/lfsr.c:10-13 | every stream of a polynomial is purely periodic, with a period of at most 65535, if and only if bit 15 is set |
| `CVector.PushedElements` | lib/cvector.c:39-41 | the block a push leaves holds the old elements and the new one |
| `CVector.PoppedElements` | lib/cvector.c:57-59 | the block a pop leaves holds all elements but the last, in a block of the same length |
| `CVector.ShiftedElements` | lib/cvector.c:66-71 | the block a front pop leaves holds all elements but the first, in order, in a block of the same length |
| `CVector.RunRefines` | lib/cvector.c:19-72 | every defined run of calls is a run of a double-ended queue, reply for reply, with the terminator always inside the block |
| `CVector.RunDefinedIff` | lib/cvector.c:44-67 | a run is defined if and only if it starts on a block or every pop in it comes after a push of a pointer that is not NULL for which there was memory |
| `CVector.PopOfNull` | lib/cvector.c:49-49 | popping the NULL vector from either end is not defined |
| `CVector.Count` | lib/cvector.c:74-82 | the number of elements |
| `CVector.PushV` | lib/cvector.c:19-42 | the new block is exactly the elements, the new one and the terminator; NULL or no memory is refused |
| `CVector.PopV` | lib/cvector.c:44-60 | returns and removes the last element, or NULL from an empty vector |
| `CVector.PopFrontV` | lib/cvector.c:62-72 | returns and removes the first element by the shift in place, or NULL from an empty vector |
| `CVector.ShiftLoop` | lib/cvector.c:67-69 | the loop moves elements and terminator down one place and leaves the room behind them alone |
| `CString.Substr` | lib/cstring.c:7-29 | the piece up to the separator or the end, free of the separator, and the place after it when the caller asks for it; NULL gives NULL and leaves the continuation |
| `CString.ContinuationInside` | lib/cstring.c:24-26 | the continuation stays inside the string if and only if the separator is not NUL |
| `CString.NulNeedleLeaves` | lib/cstring.c:16-26 | a concrete string whose continuation for a NUL separator lies outside it |
| `CString.SplitThenJoin` | includes/cstring.h:11-11 | the pieces are free of the separator and rejoin to the string |
| `CString.JoinThenSplit` | includes/cstring.h:11-11 | splitting the join of separator-free pieces gives the pieces back |
| `CString.IterSubstr` | includes/cstring.h:11-11 | the loop ends and produces exactly the pieces of the string |
| `HexDump.PrintHeader` | lib/printlog.c:17-21 | the header line |
| `HexDump.PrintCells` | lib/printlog.c:32-40 | a row's cells: the next sixteen bytes, or those that are left; every turn reads one place |
| `HexDump.PrintHexColumn` | lib/printlog.c:114-124 | the same with blank cells up to sixteen |
| `HexDump.PrintCharColumn` | lib/printlog.c:126-139 | the character column of the same bytes |
| `HexDump.HexdumpRow` | lib/printlog.c:108-140 | both cursors start and end a row together, at a multiple of sixteen or at the end |
| `HexDump.Dump` | lib/printlog.c:17-42 | the text printed is the header, one line per sixteen bytes, and a newline, whatever follows the buffer in memory; the places read are listed exactly |
| `HexDump.Hexdump` | lib/printlog.c:99-141 | the same for the wider format |
| `HexDump.ReadsInsideIff` | lib/printlog.c:32-127 | every place a dump reads is inside the buffer if and only if the size is a multiple of sixteen, and otherwise only the place after its end is read besides |
| `HexDump.OneByteReadsOn` | lib/printlog.c:32-33 | a dump of one byte reads the place after it |
| `HexDump.DumpReadsBack` | lib/printlog.c:26-141 | the text of either dump, split into lines and read cell by cell, gives back exactly the bytes, for any length and any offset width |
| `HexDump.DumpLineCount` | lib/printlog.c:26-42 | the number of rows is the number of bytes over sixteen, rounded up |
| `HexDump.ColumnShowsBytes` | lib/printlog.c:126-139 | without its gaps the character column shows every byte of the row once, in order: itself when above 0x20 and below 0x7e, a dot otherwise |
| `DumpLayout.HeaderShown` | lib/printlog.c:17-21 | the first line of either text is three or five spaces and the sixteen column numbers in two digits |
| `DumpLayout.OffsetsShown` | lib/printlog.c:27-112 | the digits a row starts with denote its offset, in two digits modulo 256 for `dump`, and for `hexdump` modulo 2^32 in at least four digits without needless zeros |
| `DumpLayout.BytesShown` | lib/printlog.c:32-124 | in the text of either dump byte `k` stands in row `k / 16` as its two hexadecimal digits and a space, three places a byte |
| `DumpLayout.ColumnStands` | lib/printlog.c:114-139 | a row of `dump` ends after its bytes; a row of `hexdump` is blank up to the character column, whose gaps are given exactly, an eight-byte row's too |
| `DumpLayout.CharactersShown` | lib/printlog.c:126-139 | in the text of `hexdump` byte `k` stands in the character column of row `k / 16`, itself when above 0x20 and below 0x7e, a dot otherwise |

## Left out

- `queue_empty_wait` and `cond_empty`: the function waits and unlocks without locking first, so the protocol's invariants are for runs without it.
- `queue_create_static`: it accepts blocks that are too small; with a block of exactly the right size it is `queue_create` without the allocation.
- Queue.Queue.Send: one thread at a time, so a wait ends as it began; the threads are in QueueProtocol, which works on message slots, not bytes.
- Queue.Queue.Recv: one thread at a time, as for Send.
- QueueTime.Add: the deadline is computed as a value, not through the pointer the C code updates.
- `queue_is_empty`, `queue_is_full` and `queue_space_available` as steps of the protocol: they lock, read and unlock.
- Thread cancellation, error numbers, and destroying a queue, dictionary or vector.
- Failing `strdup` and `strndup`; `dictionary_dump`.
- `count` and `size` wrapping at 2^64 in the dictionary.
- List poison values: both are null in the model; `container_of`, the typed iteration macros, `list_for_each_prev` and the hash list block are not modelled.
- CVector.PushV: the old block is not freed when `realloc` moves it.
- Titles and flushing in the dumpers; the variants that print to a file print the same text.
- `lib/sysreg.c`, `lib/timestamp.c`, the macros of the other headers, and everything under posix, examples and includes/sort.
