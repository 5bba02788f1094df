# Verified models of the liblsd containers and the hp1630 check code

This project models four parts of the repository in Dafny and proves what they are
for:

- **`liblsd/cbuf.c`**, a growing circular buffer whose read bytes can be replayed.
  `Cbuf.dfy` is the buffer itself: a class with the three indices, the counters and the
  array, whose methods are the code's. `CbufSpec.dfy` says what each operation means for
  two byte sequences, the replayable and the unread bytes; `CbufRing.dfy` connects the
  two through the walks that the indices describe in the array; `CbufLines.dfy` says what
  the line scanners look for; `CbufBytes.dfy` and `CbufLineBytes.dfy` say what the
  operations do to the bytes without those definitions; `CbufLaws.dfy` relates the
  operations to each other, `CbufLineLaws.dfy` says when writing a line is one write, and
  `CbufRuns.dfy` follows the wrap flag over whole runs; `CbufIo.dfy` is the memory and the descriptors that a buffer
  is filled from and emptied into; `CbufLocks.dfy` is the locking.
- **`liblsd/list.c`**, a linked list whose iterators survive any change. `List.dfy` has
  nodes, cells (the addresses of "next" pointers) and iterators; `ListSpec.dfy` is the
  same with positions for pointers; `ListEffects.dfy` says what the operations do to the
  items without those definitions; `ListRuns.dfy` follows one iterator through a run of
  operations by anybody, `ListTags.dfy` does so when items are put in more than once;
  `ListSort.dfy` is the sort.
- **`liblsd/hostlist.c`**, a run-length encoded list of host names. `HostList.dfy` is the
  list; `HostNames.dfy` (digits, padding, prefixes), `HostRange.dfy` (ranges, widths,
  comparison, joining), `HostSpec.dfy` (the names a list stands for), `HostFind.dfy`,
  `HostUniq.dfy`, `HostDistinct.dfy`, `HostCoalesce.dfy`, `HostMerge.dfy` and `HostSort.dfy`
  hold what its operations mean and why, `HostPush.dfy` what pushing does to the ranges;
  `HostPrint.dfy`, `HostParse.dfy` and `HostCreate.dfy` are the printer and the bracketed
  parser, `HostTokens.dfy` and `HostReading.dfy` what they write and read in terms of the
  text, `HostRoundTrip.dfy` their round trip.
- **`libutil/hpcrc.c`**, a table-driven check code (`Hpcrc.dfy`).

`Seqs.dfy` has definitions and facts about sequences. `dafny verify dfyconfig.toml` checks everything.

What comes from outside is a parameter. `granted` says whether an allocation succeeds.
A descriptor (`CbufIo.Source`, `CbufIo.Sink`) answers each call with a short count, an
error or the end of the file, as it likes. libc's `qsort` is a plan of comparisons and
swaps, any plan, that leaves the array in the order of the comparison it was given; that
comparison rewrites the ranges it compares. A width common to a prefix is a function `w`
from prefixes to widths.

Where the code and its documentation differ, the model follows the code:

- `cbuf_copy` and `cbuf_write_line` do not set the wrap flag when they skip the start of
  what they put into the buffer and store the rest without overwriting anything
  (liblsd/cbuf.c:1392-1418, 869-873). The line scanners read that flag and then take the
  first byte left for the start of a line. `CbufRuns.SkipsSilently` is the exact condition
  on the arguments: a copy skips silently only into a buffer with no history, a line also
  into one with history, if room for its end is granted late (`CbufRuns.LineCanSkip`).
- `cbuf_write_line` asks for room three times. The size stays that of the first request
  unless a later one is really made, is granted, and the size is below the maximum
  (`CbufLineLaws.SizeStays`). Then the result may be that of no single write
  (`CbufLineLaws.LateGrowthCanDiffer`) or that of a write with room
  (`CbufLineLaws.LateGrowthCanFit`); `CbufLineLaws.LineIsOneWrite` says which, for all
  arguments. If the line has lost its head before the buffer grows, older bytes stand in
  the place of that head (`CbufLineBytes.LateLineLosesItsHead`);
  `CbufLineBytes.LineEndsUnread` is the exact condition for the unread bytes to end with the
  line.
- A text that `cbuf_replay_line` has to cut short loses its beginning, not its end.
- `list_sort` resets the iterators only when the list has more than one item, list.h says
  always.
- `hostrange_cmp` returns a difference of `unsigned long` as `int`. It keeps the order of
  all numbers below a bound exactly when the bound is at most 2^31
  (`HostRange.CmpIsExactBelow`).
- `hostlist_find` also reports a host without a number, `X`, when asked for `X0`, and does
  not find a name in a range whose prefix ends in a digit or under a number above 2^25.
  For every list `HostFind.FoundIsFirst` gives the exact condition for the position
  reported to be the first one of the name, `HostFind.NumberAnswers` that for one range.
- `hostlist_delete_nth` lets n be the number of hosts; it then deletes nothing and counts
  one host less (`HostList.HostList.DeleteNth`).
- Removing duplicates may leave some. For every list with numbers below 2^31, and whatever
  `qsort` does, `HostDistinct.UniqIsExact` is the exact condition for no host to be left
  twice: no two ranges with different prefixes, or of which one has no number, have a host
  in common, and no range that sorts between two ranges with a host in common prints its
  numbers unlike the first of them. The first part fails only if a prefix ends in a digit
  (`HostDistinct.PrefixesCanShare`: f[10-12],f1[0-2] keeps f10 twice), the second only with
  different widths for one prefix: `HostDistinct.MixedWidthsCanStay`, `MixedWidthsCanPart`
  and `MixedWidthsCanPass` are lists of mixed widths that keep a duplicate, keep one although
  the two ranges print alike, and keep none.
- Sorting may stop at an assertion on a list of mixed widths (liblsd/hostlist.c:889);
  `HostCoalesce.MixedWidthsBreakTheOrder` follows one there. All hosts are in the list even
  then (`HostList.HostList.Sort`).
- From 2^31 on, two ranges can compare in order though they are not. Joining two ranges
  keeps their names if and only if they really are in order (`HostRange.JoinIsExact`), so
  removing duplicates can lose a host: of f2147483648,f0 it leaves no f0
  (`HostUniq.UniqLosesNames`). It keeps the hosts of all lists with numbers below a bound
  exactly when the bound is at most 2^31 (`HostUniq.UniqIsExactBelow`).
- The bracketed parser takes the width of a range from the text before the dash, a space
  in it included, and does not look at what follows the number there when there is a dash
  (liblsd/hostlist.c:1343-1367).

## Model

| member | source | states |
|---|---|---|
| Hpcrc.Hpcrc | libutil/hpcrc.c:63-72 | the table loop computes the same as one whose table entry is eight bit-serial division steps |
| Hpcrc.TableIsBitSerial | libutil/hpcrc.c:28-61 | every one of the 256 table entries is what eight shift-and-subtract steps with polynomial 0x8005 give |
| Hpcrc.TableIsClosed | libutil/hpcrc.c:28-61 | every table entry is a closed expression of its index |
| Hpcrc.HpcrcIsBitSerial | libutil/hpcrc.c:63-72 | for every buffer the table and the bit-serial division give the same code |
| Hpcrc.HpcrcIsLinear | libutil/hpcrc.c:63-72 | on buffers of one length the code of the XOR is the XOR of the codes |
| Hpcrc.LowColumnIsInjective | libutil/hpcrc.c:28-61 | the low bytes of the table entries are all different |
| Hpcrc.DifferenceSurvives | libutil/hpcrc.c:68-69 | two codes whose low bytes differ stay different whatever the same bytes follow |
| Hpcrc.DetectsSingleByteChange | libutil/hpcrc.c:63-72 | changing one byte of a buffer of any length changes the code |
| CbufIo.Get | liblsd/cbuf.c:1265-1300 | the source gives up to len bytes from its front, memory all of them, a descriptor perhaps fewer, none or an error |
| CbufIo.Put | liblsd/cbuf.c:1303-1338 | the sink takes a prefix of the bytes, memory all of them |
| CbufIo.GivenIsWritten | liblsd/cbuf.c:976-1008 | what a descriptor that answers every call in full delivers is written as the same bytes from memory |
| CbufSpec.View.ArriveKeepsLatest | liblsd/cbuf.c:1604-1650 | bytes that arrive one by one leave the last `size` bytes of history and arrivals, the last `size` of them unread, and the wrap flag set exactly if something was overwritten |
| CbufSpec.View.GrownSize | liblsd/cbuf.c:1666-1681 | growing never shrinks, never passes the maximum, and reaches at least the smaller of the maximum and the size asked for |
| CbufSpec.View.Grown | liblsd/cbuf.c:1577-1584 | after the request for room the size is the maximum or the bytes fit, if memory is granted; nothing else changes |
| CbufBytes.GrowsExactly | liblsd/cbuf.c:1577-1584 | the buffer grows if and only if bytes that do not fit are to come, it is below the maximum and memory is granted; nothing but the size changes |
| CbufBytes.GrowsLeast | liblsd/cbuf.c:1666-1681 | it grows to the least number of whole chunks of 1000 bytes above what is asked for, or to the maximum if that is less |
| CbufBytes.WriteAccepts | liblsd/cbuf.c:1593-1604 | under NO_DROP a write that accepts less than asked leaves the buffer full and accepts all exactly if it fits; under WRAP_ONCE it accepts exactly the size; under WRAP_MANY all; nothing is refused while there is memory to grow |
| CbufBytes.WriteStores | liblsd/cbuf.c:1606-1648 | what is accepted is the start of the bytes; unread bytes and history are the end of what they were and of it; the dropped count is what is missing; the wrap flag is set exactly if the history overflows |
| CbufBytes.WantedFillsTheRoom | liblsd/cbuf.c:992-1001 | a length of -1 asks a descriptor for exactly the free space, without growth or loss, and for a chunk of 1000 bytes only if there is none |
| CbufBytes.ReadingMovesTheBorder | liblsd/cbuf.c:482-615 | reading and rewinding move the border between replayable and unread bytes and change nothing else |
| CbufBytes.ShownIsTheEnd | liblsd/cbuf.c:766-781 | a replayed text is the end of the lines found, closed by a newline, as much as fits the destination |
| CbufRing.WrapIsRemainder | liblsd/cbuf.c:1430-1450 | the conditional subtraction is the remainder by the size of the ring |
| CbufRing.StoresIndex | liblsd/cbuf.c:1606-1632 | after n bytes are stored in chunks, over any number of laps, the index is (start + n) modulo the size of the ring, as the code asserts |
| CbufRing.StoresRotates | liblsd/cbuf.c:1606-1632 | seen from the write index, storing bytes leaves the last size + 1 of old contents and bytes |
| CbufRing.Ring.ValidMeansRoom | liblsd/cbuf.c:1796-1816 | the case split of cbuf_is_valid holds if and only if the unread bytes end at i_in and the replayable and unread bytes leave a cell free |
| CbufRing.Ring.RewindUndoesDrop | liblsd/cbuf.c:603-613 | rewinding what was dropped restores every index, wherever the ring wraps |
| CbufRing.Ring.RegrownView | liblsd/cbuf.c:1694-1721 | moving the wrapped tail up when the array grows keeps replay and unread bytes, in every position of the three indices |
| CbufRing.Ring.FilledShows | liblsd/cbuf.c:1634-1646 | the updated indices show the stored bytes as arrived, for every size of the store |
| CbufRing.Ring.DroppedView | liblsd/cbuf.c:1437-1448 | moving i_out on moves bytes from the front of the unread to the end of the replayable ones |
| CbufRing.Ring.RewoundView | liblsd/cbuf.c:603-613 | moving i_out back does the reverse |
| CbufRing.WalkAfterStore | liblsd/cbuf.c:1606-1646 | what is read from the array after a store is the tail of what was to be read, followed by the stored bytes |
| Cbuf.Create | liblsd/cbuf.c:218-277 | an empty valid buffer of the sizes asked for, nothing if the size is not positive or there is no memory |
| Cbuf.Cbuf.Flush | liblsd/cbuf.c:305-320 | no byte is left to read or to replay, the wrap flag is clear, sizes and policy stay, the invariant is kept |
| Cbuf.Cbuf.OptSet | liblsd/cbuf.c:452-479 | the three values of the overwrite option set the policy and nothing else; any other option or value is refused with -1 and nothing changes |
| Cbuf.Cbuf.Dropper | liblsd/cbuf.c:1427-1450 | len unread bytes become replayable |
| Cbuf.Cbuf.Grow | liblsd/cbuf.c:1653-1725 | growing keeps every replay and unread byte and the invariant; the size is the grown size exactly when memory is granted |
| Cbuf.Cbuf.Reader | liblsd/cbuf.c:1453-1506 | a prefix of the unread bytes goes to the sink, across the end of the array, however short its answers |
| Cbuf.Cbuf.Replayer | liblsd/cbuf.c:1509-1563 | the last len replayable bytes go to the sink |
| Cbuf.Cbuf.Fill | liblsd/cbuf.c:1606-1632 | the copy loop stores what the source gives, in its order, over any number of laps |
| Cbuf.Cbuf.Account | liblsd/cbuf.c:1634-1646 | the updated indices and flag are those of the bytes having arrived one by one |
| Cbuf.Cbuf.Writer | liblsd/cbuf.c:1566-1650 | for every valid buffer, policy and source, the bytes delivered arrive; count, dropped count and refusals are those of the specification |
| Cbuf.Cbuf.Copier | liblsd/cbuf.c:1341-1424 | the target is left as the specified copy of the peeked bytes leaves it, the source as it was |
| Cbuf.Cbuf.FindUnreadLine | liblsd/cbuf.c:1207-1262 | with k > 0 the shortest prefix of exactly k lines or nothing; with -1 the longest prefix of whole lines within the character budget |
| Cbuf.Cbuf.FindReplayLine | liblsd/cbuf.c:1112-1204 | with k > 0 the replay suffix of exactly k lines that starts a line, or nothing; with -1 the longest that fits the budget with its implied newline; the line count is that suffix's |
| Cbuf.Cbuf.ScanReplay | liblsd/cbuf.c:1164-1184 | the backward loop over the ring ends where the scan of the replay bytes ends |
| Cbuf.Cbuf.Drop | liblsd/cbuf.c:482-509 | the asked number of unread bytes is dropped, all for -1 |
| Cbuf.Cbuf.Peek | liblsd/cbuf.c:512-532 | the first len unread bytes, nothing changed |
| Cbuf.Cbuf.Read | liblsd/cbuf.c:535-558 | the first len unread bytes, which become replayable |
| Cbuf.Cbuf.ReadToFd | liblsd/cbuf.c:923-948 | exactly the bytes the descriptor took are consumed; the result is its first answer's kind, and all that is asked for if it answers every call in full |
| Cbuf.Cbuf.Replay | liblsd/cbuf.c:561-581 | the last len replayable bytes |
| Cbuf.Cbuf.Rewind | liblsd/cbuf.c:584-615 | the last len replayable bytes become unread again |
| Cbuf.Cbuf.ReadLine | liblsd/cbuf.c:707-741 | the lines found are consumed, the text is cut to the destination |
| Cbuf.Cbuf.ReplayLine | liblsd/cbuf.c:744-786 | the lines found, the end of them if the destination is too small, with the newline they lack |
| Cbuf.Cbuf.RewindLine | liblsd/cbuf.c:789-814 | the lines found become unread again |
| Cbuf.Cbuf.Write | liblsd/cbuf.c:618-641 | state, count and dropped count are those of the specified write |
| Cbuf.Cbuf.WriteFromFd | liblsd/cbuf.c:976-1008 | what the descriptor delivers arrives, and nothing else; the result is -1 if there is no room for any byte, 0 if none was asked for, otherwise of the kind of its first answer; if it answers every call in full the outcome is that of a write from memory |
| Cbuf.Cbuf.WriteLine | liblsd/cbuf.c:817-895 | state, count and dropped count are those of the specified line write, with each of its three requests for room granted or not |
| Cbuf.Cbuf.Copy | liblsd/cbuf.c:1011-1057 | the specified copy of the source's first unread bytes; a buffer is not copied to itself |
| Cbuf.Cbuf.MoveFrom | liblsd/cbuf.c:1060-1109 | the copy, and the copied bytes dropped from the source |
| CbufLines.UnreadLinesAreUnique | liblsd/cbuf.c:1207-1262 | the specification of the unread scanner leaves no choice of result |
| CbufLines.ReplayLinesAreUnique | liblsd/cbuf.c:1112-1204 | nor does that of the replay scanner |
| CbufLines.ReplayScanned | liblsd/cbuf.c:1137-1204 | where the backward scan ends is the suffix that the specification asks for, for the wrap flag as stored |
| CbufLaws.ArriveInPieces | liblsd/cbuf.c:1566-1650 | arriving in two pieces is arriving at once |
| CbufLaws.OverwrittenInPieces | liblsd/cbuf.c:1647-1648 | the dropped counts of the pieces add up |
| CbufLaws.CopyIsWrite | liblsd/cbuf.c:1383-1422 | copying equals writing the peeked bytes in bytes, count and dropped count; the wrap flags differ if and only if part was skipped into an empty history |
| CbufLineLaws.SizeStays | liblsd/cbuf.c:858-889 | the size stays that of the first request for room if and only if neither the text nor the newline makes a later one that is granted below the maximum |
| CbufLineLaws.WriteLineIsWrite | liblsd/cbuf.c:817-895 | an accepted line without such late growth equals one write of the string with its newline; the wrap flags differ if and only if part was skipped into an empty history |
| CbufLineLaws.LateGrowthIsWrite | liblsd/cbuf.c:858-889 | with late growth it never equals a write without room, and equals one with room if and only if the new sizes hold the same history and, for a line that loses its head, the older bytes kept read like that head |
| CbufLineLaws.LineIsOneWrite | liblsd/cbuf.c:817-895 | for all arguments, refused lines included: the bytes and counts are those of some single write if and only if a condition on the arguments holds |
| CbufLineLaws.LateGrowthCanDiffer | liblsd/cbuf.c:858-889 | a one-byte buffer and a two-byte line whose result is that of no single write |
| CbufLineLaws.LateGrowthCanFit | liblsd/cbuf.c:858-889 | a buffer that grows late and is left as by one write with room |
| CbufLineBytes.LineIsAccepted | liblsd/cbuf.c:846-895 | a line is refused if and only if its policy has no place for the string and the newline it may lack, and then only the size changes; an accepted line counts with that newline, and the last unread byte is a newline |
| CbufLineBytes.LineEndsUnread | liblsd/cbuf.c:864-889 | the unread bytes end with the line, as far as there was room for it at first; for as much of it as there are unread bytes this holds always without late growth, and with it if and only if older bytes read like the lost head; without loss the line follows all that was unread |
| CbufLineBytes.LateLineLosesItsHead | liblsd/cbuf.c:864-889 | a line of two bytes of which the first is lost although the buffer has room for both in the end |
| CbufLineBytes.LineIsFound | liblsd/cbuf.c:817-895 | after an accepted line the unread scanner finds one line when asked for one, and everything if and only if there is room for it |
| CbufLineBytes.LineWrittenIsLineRead | liblsd/cbuf.c:817-895 | a string without a newline, written as a line to a buffer with room and nothing unread, is the line read next |
| CbufLineBytes.AllIsReplayed | liblsd/cbuf.c:1112-1204 | if no byte was ever lost, the replay scanner finds all replayable bytes if and only if they fit, with the newline they may lack |
| CbufLineBytes.LineReadIsReplayed | liblsd/cbuf.c:707-814 | a line that is read from where a line can start is the line replayed next, and rewinding a line undoes the reading |
| CbufLaws.ArriveConserves | liblsd/cbuf.c:1642-1648 | whatever a descriptor delivered: arrived plus unread before is unread after plus overwritten; nothing is overwritten if the bytes are free |
| CbufLaws.WriteConserves | liblsd/cbuf.c:1593-1648 | accepted plus used before is used after plus dropped; under NO_DROP nothing unread is lost |
| CbufLaws.CopyConserves | liblsd/cbuf.c:1383-1422 | the same for copying |
| CbufLaws.WriteLineConserves | liblsd/cbuf.c:817-895 | the same for lines |
| CbufLaws.MoveConserves | liblsd/cbuf.c:1060-1109 | the unread bytes of both buffers together lose exactly the dropped ones |
| CbufLaws.ReplayAndRewindUndoRead | liblsd/cbuf.c:535-615 | after a read of n bytes, replaying n gives the same bytes and rewinding n restores the buffer |
| CbufRuns.HonestUnlessSkipped | liblsd/cbuf.c:1634-1640 | an operation keeps "no wrap flag means that the buffer holds all since create or flush" if and only if it does not skip silently, a condition on its arguments |
| CbufRuns.LineCanSkip | liblsd/cbuf.c:869-889 | a line that skips silently although the buffer holds history |
| CbufRuns.CopyCanSkip | liblsd/cbuf.c:1392-1418 | a copy that skips silently |
| CbufRuns.RunsAreHonest | liblsd/cbuf.c:1634-1640 | at the end of every run of writes from memory and descriptors, lines, copies, reads, rewinds and flushes that holds if and only if no silent skip stands, one after which neither the flag was set nor the buffer flushed |
| CbufLocks.CallsAreOrderly | liblsd/cbuf.c:1034-1055 | every operation locks in address order and unlocks all it locked |
| CbufLocks.StepKeepsInv | liblsd/cbuf.c:1034-1055 | what each thread holds is what the mutexes say, after every step |
| CbufLocks.DeadlockFree | liblsd/cbuf.c:1034-1055 | in every reachable state of any number of threads calling any operations, an unfinished thread means that some thread can step |
| CbufLocks.EveryRunFinishes | liblsd/cbuf.c:1034-1055 | however the steps are scheduled, every thread makes all its calls and all mutexes are free |
| CbufLocks.CallsHoldTheirBuffers | liblsd/cbuf.c:1034-1055 | every operation has locked exactly the buffers it works on before it unlocks one |
| CbufLocks.MutualExclusion | liblsd/cbuf.c:1034-1055 | in every reachable state two threads at work have no buffer in common |
| ListSpec.ApplyKeepsValid | liblsd/list.c:674-716 | every operation keeps, for every iterator, the relation of pos and prev that the code asserts |
| ListSpec.InsertKeepsValid | liblsd/list.c:651-683 | inserting at any cell does |
| ListSpec.RemoveKeepsValid | liblsd/list.c:686-719 | removing at any cell does |
| ListSpec.DeleteAllLeavesOthers | liblsd/list.c:346-372 | deleting by a predicate leaves exactly the items it does not pick, in order |
| ListEffects.PutInEffects | liblsd/list.c:295-322 | appending puts the item behind all others, prepending before them |
| ListEffects.PopEffect | liblsd/list.c:457-468 | popping leaves all items but the first |
| ListEffects.InsertEffect | liblsd/list.c:590-603 | an iterator's insertion puts the item at its prev |
| ListEffects.DeleteEffect | liblsd/list.c:619-632 | an iterator's removal takes out exactly the item at prev, and none if prev is pos |
| ListEffects.DeleteAllEffect | liblsd/list.c:346-372 | deleting takes out each item that is picked, as often as it is there, and no other |
| ListEffects.OthersOfSum | liblsd/list.c:346-372 | and keeps the order of the others |
| ListEffects.MovingEffects | liblsd/list.c:514-587 | a new or reset iterator stands before the first item, one that returns an item stands behind it, and no item changes |
| ListEffects.AfterNext | liblsd/list.c:572-632 | after list_next has returned an item, list_remove takes out that item, once; list_insert puts one right before it, and list_remove then still takes out the one returned |
| ListEffects.HandedOutStaysOut | liblsd/list.c:457-632 | an item that list_pop or list_remove hands out, by any iterator, is not in the list afterwards and never returned again, in any run |
| ListRuns.AfterIsFair | liblsd/list.c:572-719 | each operation of anybody keeps the account of an iterator: what it returned of the items still there is what was due before it, all that is after it is due and not yet returned |
| ListRuns.IteratorReturnsWhatIsDue | liblsd/list.c:572-719 | over every run in which all items differ, an iterator at the end has returned, once each and in order, exactly the items in the list that were there at the start or put in ahead of it |
| ListTags.EveryRunIsTagged | liblsd/list.c:572-719 | every run, over items that may be equal, is such a run if each putting in is told apart: same list, same cursors, same items returned |
| ListTags.EveryIteratorReturnsWhatIsDue | liblsd/list.c:572-719 | so every iterator returns what is due, an item as often as it was put in |
| ListRuns.RemovedIsNotReturned | liblsd/list.c:619-632 | an item that is not in the list is never returned from then on |
| ListRuns.AppendIsAhead | liblsd/list.c:572-587 | an appended item will be met if and only if the iterator has not yet returned NULL |
| List.InsertedPoints | liblsd/list.c:676-679 | the pointer repair after an insertion is the position repair |
| List.RemovedPoints | liblsd/list.c:711-714 | the pointer repair after a removal is the position repair |
| List.ChainedMoved | liblsd/list.c:417-420 | the three assignments move one node of the chain and break nothing |
| List.List.IteratorsAreSettled | liblsd/list.c:680-715 | the code's assertion on pos and prev holds for every iterator |
| List.List.NodeCreate | liblsd/list.c:651-683 | chain, tail, count and all iterators are those of the list with the item at the cell |
| List.List.NodeDestroy | liblsd/list.c:686-719 | chain, tail, count and all iterators are those of the list without the node at the cell |
| List.List.Append | liblsd/list.c:295-307 | the append of the model: the item follows all others, or nothing changes |
| List.List.Prepend | liblsd/list.c:310-322 | the prepend of the model: the item precedes all others, or nothing changes |
| List.List.Pop | liblsd/list.c:457-468 | the first item, which is removed; the others stay |
| List.List.FindFirst | liblsd/list.c:325-343 | the first item that matches, or none if none does |
| List.List.DeleteAll | liblsd/list.c:346-372 | the deletion of the model, and how many went |
| List.List.IteratorCreate | liblsd/list.c:514-532 | a new iterator at the start |
| List.List.IteratorReset | liblsd/list.c:535-546 | that iterator at the start, the others where they were |
| List.List.IteratorDestroy | liblsd/list.c:549-569 | the others where they were |
| List.List.Next | liblsd/list.c:572-587 | the item at pos, and the iterator past it |
| List.List.Insert | liblsd/list.c:590-603 | the item goes to the place of prev, before the one last returned |
| List.List.Remove | liblsd/list.c:619-632 | the item at prev, the one last returned, is returned and out of the list, none if it is gone already |
| List.List.Sort | liblsd/list.c:397-439 | the in-place sort leaves the items that insertion sort leaves, a valid chain and tail, and all iterators at the head if there was more than one item |
| ListSort.SortIsStable | liblsd/list.c:397-439 | for every comparison that is a total preorder the result is ascending, has the same items, and keeps the order of equal ones |
| HostNames.ZeroPadded | liblsd/hostlist.c:414-420 | the digit-counting loop gives the zeros that bring the number to the width |
| HostNames.ValueOfPad | liblsd/hostlist.c:801-802 | reading a padded number gives the number |
| HostNames.PadOfValue | liblsd/hostlist.c:515-516 | a digit string is its value padded to its length |
| HostNames.HostPrefixEnd | liblsd/hostlist.c:473-480 | the loop finds the longest prefix that does not end in a digit |
| HostNames.SplitOfSum | liblsd/hostlist.c:485-534 | a prefix followed by digits is split between them, unless the number is too large |
| HostNames.HostnameCreate | liblsd/hostlist.c:485-534 | the parts are those of the split |
| HostRange.WidthEquiv | liblsd/hostlist.c:435-465 | succeeds exactly if one of the widths prints one of the numbers like the other; then both are equal and print both numbers as before |
| HostRange.Cmp | liblsd/hostlist.c:707-740 | returned value and widths left are those of the specification |
| HostRange.FirstDifferenceDecides | liblsd/hostlist.c:730-740 | prefixes compare by the first character in which they differ, a prefix before what continues it |
| HostRange.CmpIsKey | liblsd/hostlist.c:700-719 | the sign is that of comparing a fixed key: prefix, hosts without a number first, printed width of the lowest number, lowest number |
| HostRange.CmpKeepsNames | liblsd/hostlist.c:707-771 | no comparison changes a key or a host name of either range |
| HostRange.CmpIsOrder | liblsd/hostlist.c:707-719 | the comparison is a total preorder |
| HostRange.CmpIsExactBelow | liblsd/hostlist.c:714-718 | the conversion to int keeps the order of all numbers below a bound if and only if the bound is at most 2^31 |
| HostRange.Join | liblsd/hostlist.c:845-871 | joins exactly if the ranges touch and print alike, and counts the hosts that were in both |
| HostRange.JoinKeepsNames | liblsd/hostlist.c:845-871 | the joined range has exactly the names of both, if they are in order |
| HostRange.JoinIsExact | liblsd/hostlist.c:845-871 | and only then: of two ranges that join out of order the lowest name of the second is lost |
| HostRange.Intersect | liblsd/hostlist.c:879-902 | finds the intersection exactly if the first range goes beyond the start of the second and they print alike |
| HostRange.DeleteHost | liblsd/hostlist.c:679-698 | the names left are those of the range without the one deleted, in one range or two |
| HostSpec.QSortKeeps | liblsd/hostlist.c:885-903 | whatever is compared and swapped, the hosts stay the same, and so does a common width per prefix |
| HostSpec.FitsIsCompatible | liblsd/hostlist.c:765-771 | with a common width two ranges of a prefix always print alike |
| HostUniq.SomePlanSorts | liblsd/hostlist.c:1903-1903 | for every list some comparisons and swaps leave it in the order of the comparison, so the assumption about qsort can be met |
| HostSpec.UniformIffCompatible | liblsd/hostlist.c:422-465 | a list has a common width per prefix if and only if the code finds any two ranges of a prefix compatible |
| HostMerge.MergeKeepsNames | liblsd/hostlist.c:1083-1087 | merging a range that continues another keeps all names in order |
| HostPush.PushMerges | liblsd/hostlist.c:1070-1102 | a pushed range makes the last one longer if and only if it goes on with the next number, printed with the same digits, after the same prefix; otherwise it is a range of its own |
| HostPush.RangeOfNumber | liblsd/hostlist.c:485-534 | a name that ends in digits becomes its prefix and a number printed with as many digits, if that is at most 2^25, any other name a host without a number |
| HostPush.ConsecutiveAreOne | liblsd/hostlist.c:1562-1584 | the names of hosts with consecutive numbers, pushed one by one, make a single range |
| HostList.HostList.PushRange | liblsd/hostlist.c:1070-1102 | the names of the range are appended and nhosts is the number of names; the ranges are those of HostPush.PushMerges |
| HostList.HostList.PushHost | liblsd/hostlist.c:1562-1584 | the name is appended as it is written, as the range of HostPush.RangeOfNumber |
| HostList.HostList.InsertRange | liblsd/hostlist.c:1122-1157 | the loop that carries one range in `tmp` shifts those behind: the range goes to its place and the others keep their order, or nothing changes if there is no such place |
| HostList.HostList.DeleteRange | liblsd/hostlist.c:1162-1182 | the loop that moves the ranges behind down closes the gap: that range goes and the others keep their order |
| HostList.HostList.Nth | liblsd/hostlist.c:1784-1804 | the n-th name of the expansion, none beyond the end, and for a negative n the name that wrap-around before the first range gives |
| HostList.HostList.DeleteNth | liblsd/hostlist.c:1807-1842 | for n below nhosts exactly the n-th name goes; the invariant is kept if and only if n is below nhosts |
| HostList.HostList.Find | liblsd/hostlist.c:1853-1880 | the position is the specified one, no name changes |
| HostFind.HnWithin | liblsd/hostlist.c:907-925 | answers as specified, and changes at most a width, no name |
| HostFind.WithinIsByName | liblsd/hostlist.c:907-925 | for a range whose prefix does not end in a digit, comparing numbers and widths is comparing names, and the number gives the position |
| HostFind.NumberAnswers | liblsd/hostlist.c:907-925 | a range answers to the name of one of its hosts, at that position, if and only if its prefix does not end in a digit and the number is at most 2^25 |
| HostFind.NamesAreFound | liblsd/hostlist.c:907-925 | a range answers to all its names if and only if its prefix does not end in a digit and its numbers are at most 2^25 |
| HostFind.SingleIsWithin | liblsd/hostlist.c:907-925 | a host without a number answers to its name, and to its name with one zero |
| HostFind.FoundIsFirst | liblsd/hostlist.c:1853-1880 | for every list the position found is the first one of the name, or -1, if and only if the first range that holds the name answers to it and no host without a number does before |
| HostFind.FindableIsUnmistaken | liblsd/hostlist.c:1853-1880 | so always, if no prefix ends in a digit, numbers are at most 2^25 and no host without a number is the name less a zero |
| HostList.HostList.QSort | liblsd/hostlist.c:1903-1903 | the comparisons and swaps of the plan, with what the comparison does to the widths |
| HostList.HostList.AttemptRangeJoin | liblsd/hostlist.c:1995-2008 | nhosts stays the number of names for any ranges that pass the code's assertion, the set of names is kept if they are in order; a join happens exactly if the ranges touch and print alike |
| HostList.HostList.Uniq | liblsd/hostlist.c:2010-2031 | for every list that passes the code's assertions the list left is that of the turns over the sorted list, and nhosts is the number of its names; with numbers below 2^31 the set of names is kept, and no name is there twice exactly as HostDistinct.UniqIsExact says; with a common width per prefix no two ranges overlap or touch |
| HostUniq.SmallIsAsserted | liblsd/hostlist.c:849-851 | numbers below 2^31 pass the assertion at every turn |
| HostUniq.UniqLosesNames | liblsd/hostlist.c:2010-2031 | a list of two hosts that passes the assertions and loses one of them |
| HostUniq.UniqIsExactBelow | liblsd/hostlist.c:2010-2031 | the set of names is kept for all lists with numbers below a bound if and only if the bound is at most 2^31 |
| HostDistinct.UniqIsExact | liblsd/hostlist.c:2010-2031 | for all lists with numbers below 2^31, all widths and prefixes, and whatever qsort does, no name is left twice if and only if ranges that differ in prefix, or in having numbers, have no host in common and no range that sorts between two ranges with a host in common prints unlike the first of them |
| HostDistinct.UniqOfUniform | liblsd/hostlist.c:2010-2031 | with a common width per prefix, if and only if no two prefixes have a host in common |
| HostDistinct.StrangersStay | liblsd/hostlist.c:853-854 | two ranges that differ in prefix, or in having numbers, keep the host they have in common twice |
| HostDistinct.PrefixesCanShare | liblsd/hostlist.c:2010-2031 | a list of which any two ranges of a prefix print alike, and which keeps f10 twice whatever qsort does |
| HostDistinct.IncompatibleStay | liblsd/hostlist.c:853-854 | two ranges with a host in common that do not print alike keep it twice |
| HostDistinct.CompatibleIsUnparted | liblsd/hostlist.c:853-854 | if the ranges of each prefix print alike, none between two of them prints unlike the first |
| HostDistinct.AllJoinedBlocks | liblsd/hostlist.c:2021-2024 | every range left was joined from consecutive ranges of the sorted list, all of which it covers, and no neighbours left would join |
| HostDistinct.MixedWidthsCanStay | liblsd/hostlist.c:2010-2031 | a list that keeps f100 twice whatever qsort does |
| HostDistinct.MixedWidthsCanPart | liblsd/hostlist.c:2010-2031 | one that does because a third range sorts between |
| HostDistinct.MixedWidthsCanPass | liblsd/hostlist.c:2010-2031 | one of mixed widths that keeps no name twice |
| HostUniq.ApartIsSeparate | liblsd/hostlist.c:2021-2024 | if no neighbours touch in a sorted list, no two ranges of a prefix do |
| HostUniq.SeparateIsDistinct | liblsd/hostlist.c:2010-2031 | then all names differ, if ranges that differ in prefix, or in having numbers, have no host in common |
| HostCoalesce.FitsComparesLows | liblsd/hostlist.c:714-718 | with a common width the comparison goes by prefix and number alone |
| HostCoalesce.SplitNames | liblsd/hostlist.c:1952-1983 | cutting two crossing ranges at the ends of their intersection keeps every host as often as it was there |
| HostCoalesce.SplitKeepsHosts | liblsd/hostlist.c:1952-1983 | for any widths, a split that the assertion lets pass keeps every host and makes progress |
| HostCoalesce.SplitIsSorted | liblsd/hostlist.c:1952-1983 | and the order, if the ranges after them do not cross |
| HostCoalesce.SplitProgress | liblsd/hostlist.c:1948-1984 | and makes the ranges shorter in sum, or moves length to the right |
| HostCoalesce.SplitTurnKeeps | liblsd/hostlist.c:1948-1984 | so a turn that splits keeps the hosts and makes progress for any widths, and keeps order and width if there is a common one per prefix |
| HostCoalesce.MixedWidthsBreakTheOrder | liblsd/hostlist.c:1948-1961 | three ranges of mixed widths, in order, of which the loop leaves the last two alone, splits the first two, and then compares two neighbours that break its assertion |
| HostList.HostList.InsertBetween | liblsd/hostlist.c:1966-1980 | the loop inserts the numbers of the intersection, all but the first once and all but the last once |
| HostList.HostList.SplitAt | liblsd/hostlist.c:1952-1983 | the two ranges are replaced by the specified split |
| HostList.HostList.CoalesceTurn | liblsd/hostlist.c:1948-1984 | for any widths one turn stops exactly at the code's assertion, and otherwise keeps all hosts and makes progress towards the end of the loop; with a common width per prefix it does not stop and keeps the order |
| HostList.HostList.SplitAll | liblsd/hostlist.c:1948-1984 | the split-insert-restart loop stops at two neighbours that break the assertion, or ends with no neighbours that overlap; all hosts are there in either case |
| HostList.HostList.Coalesce | liblsd/hostlist.c:1941-1989 | for any widths it stops at its assertion or ends, with all hosts in the list; with a common width per prefix and in order it ends, and nothing more can be merged |
| HostMerge.CollapseTurn | liblsd/hostlist.c:1924-1934 | a merge keeps the expansion and what has been merged before |
| HostList.HostList.Collapse | liblsd/hostlist.c:1919-1936 | the expansion is unchanged; with a common width nothing more can be merged |
| HostList.HostList.Sort | liblsd/hostlist.c:1893-1989 | for any widths the multiset of names and nhosts are unchanged, and sorting stops only at two neighbours that break the assertion; with a common width per prefix it does not stop, and the hosts are in ascending order, merged as far as can be |
| HostSort.ExpansionIsRendered | liblsd/hostlist.c:1784-1804 | with a common width the names are those of the hosts as prefix and number, one by one |
| HostSort.CalmClimbs | liblsd/hostlist.c:1941-1989 | ranges in order that do not cross stand for hosts in order |
| HostPrint.GetBracketedList | liblsd/hostlist.c:2077-2121 | writes the specified text of the next group of ranges and counts the group |
| HostPrint.RangedString | liblsd/hostlist.c:2123-2146 | writes the specified text of the list |
| HostTokens.GroupIsLongestRun | liblsd/hostlist.c:2093-2100 | the group written first is the longest run of ranges from the first on with its prefix and, if it is more than one, numbers |
| HostTokens.PrintedIsTokens | liblsd/hostlist.c:2062-2146 | the text is one token per run, with commas between: the host's name, or the prefix with all ranges of the run in brackets; neighbours share brackets if and only if they have numbers after the same prefix |
| HostTokens.EmptyLeavesNothing | liblsd/hostlist.c:2129-2133 | only a host with an empty name at the front leaves no token |
| HostTokens.OneNumberIsTogether | liblsd/hostlist.c:2062-2068 | f[1-3] and f5 are written as f[1-3,5] |
| HostParse.NextTok | liblsd/hostlist.c:353-409 | the next token, in which separators between brackets do not count, and the text after the separators that follow it |
| HostParse.ParseSingleRange | liblsd/hostlist.c:1336-1374 | accepts and refuses what the specification does, with the same bounds and width |
| HostParse.ParseRangeList | liblsd/hostlist.c:1383-1398 | the ranges between the commas, or an error if one is refused or there are too many |
| HostParse.SpansAreOrdered | liblsd/hostlist.c:1357-1363 | every accepted range has at least one number |
| HostCreate.PushRangeList | liblsd/hostlist.c:1400-1409 | the names of all ranges are appended, in order |
| HostCreate.PushRangeListWithSuffix | liblsd/hostlist.c:1411-1431 | the names with the suffix are appended, in order |
| HostCreate.CreateBracketed | liblsd/hostlist.c:1437-1488 | a list of exactly the names the text stands for, or none if a range is refused |
| HostRoundTrip.SpanOfNumStr | liblsd/hostlist.c:971-991 | a printed range is read back with its numbers and the width that printed its lowest number |
| HostRoundTrip.ItemsOfJoined | liblsd/hostlist.c:1388-1396 | splitting at the commas undoes joining with commas |
| HostRoundTrip.BracketsAreToken | liblsd/hostlist.c:353-409 | a text between brackets is one token with what stands right before and behind the brackets, separators between them included |
| HostRoundTrip.SplitOfBrackets | liblsd/hostlist.c:1457-1468 | a token is split into the text before its first opening bracket, that up to the first closing one after it, and the rest |
| HostReading.OpenWordGoesOn | liblsd/hostlist.c:353-399 | a word that has opened a bracket goes on, separators included, to the closing one and the word behind it, if no other bracket is opened before |
| HostReading.OtherWordStands | liblsd/hostlist.c:353-399 | any other word is a token |
| HostReading.OpenIsPlain | liblsd/hostlist.c:1474-1478 | a token with a bracket that is not closed is a name as it stands |
| HostReading.TwoNumbers | liblsd/hostlist.c:1343-1367 | two numbers with a dash are accepted if and only if the second is not less and less than 16384 more, or they are all of unsigned long; the width is that of the text before the dash |
| HostReading.OneNumber | liblsd/hostlist.c:1343-1367 | one number is a range of one |
| HostReading.MoreThanANumber | liblsd/hostlist.c:1351-1355 | a number followed by anything else is refused |
| HostReading.NoNumber | liblsd/hostlist.c:1347-1349 | so is a text that does not start with one |
| HostReading.ItemsAreAccepted | liblsd/hostlist.c:1383-1398 | a list is accepted if and only if it is not too long and each range is accepted, and then range by range |
| HostReading.BracketsAreAccepted | liblsd/hostlist.c:1463-1465 | brackets are refused if and only if there are more than 10240 ranges in them or one is refused |
| HostReading.TokenWithSuffix | liblsd/hostlist.c:1411-1468 | brackets with a suffix stand for each of the names without it, with the suffix appended |
| HostReading.SuffixIsAppended | liblsd/hostlist.c:1411-1468 | so does a printed group with a suffix behind it |
| HostReading.WordIsName | liblsd/hostlist.c:353-409 | a word without brackets and separators is a name, ended by a comma, a space or a tab |
| HostReading.SeparatorIsSkipped | liblsd/hostlist.c:353-409 | any number of these may stand before a word |
| HostRoundTrip.GroupIsRead | liblsd/hostlist.c:1454-1478 | the text of a group stands for the names of the group |
| HostRoundTrip.PrintedIsRead | liblsd/hostlist.c:2062-2146 | parsing the printed list gives the same names in the same order, for names free of separators and brackets, ranges of at most 16384 hosts, at most 10240 ranges per bracket and plain tokens under 1024 bytes |

## Left out

- cbuf_shrink: the code does nothing yet, and neither does the model.
- Magic cookies, free lists, mutex initialisation, errno values, real descriptors and the retry after EINTR.
- cbuf.c locking: modelled as lock and unlock steps in CbufLocks, apart from the data.
- cbuf_size, cbuf_used and the other queries, cbuf_drop_line, cbuf_peek_line and the peek and replay to a descriptor: small variants of modelled operations.
- CbufLineLaws.WriteLineIsWrite: covers accepted lines without late growth; CbufLineLaws.LineIsOneWrite covers all.
- Sizes of buffers, counts of hosts and lengths of texts are unbounded; overflow of int there is not modelled.
- list.c: the chain of iterators is a sequence, list_destroy, list_for_each and the delete callback are not modelled; list_push, list_enqueue, list_dequeue, list_find and list_delete repeat modelled operations.
- ListRuns.IteratorReturnsWhatIsDue: follows items that all differ, ListTags.EveryIteratorReturnsWhatIsDue items that may be equal; a sort of the list or a reset of the iterator itself ends the run.
- hostlist.c: the array of pointers to ranges is a sequence of values (no two pointers of a list are equal), memory is always there, and buffers for names are large enough.
- HostList.HostList.Sort: requires numbers below 2^31 (HostRange.CmpIsExactBelow). For mixed widths it promises that all hosts are kept and where it stops; which of those lists it sorts is not characterised, because what a split leaves depends on every split before.
- HostList.HostList.Uniq: says what happens to the names only for numbers below 2^31, the exact bound (HostUniq.UniqIsExactBelow).
- HostList.HostList.InsertRange: the slot that hostlist_expand adds holds the new range before the loop; what the code has there is never read. Iterators are not adjusted.
- HostPrint.GetBracketedList: the output buffer is large enough.
- HostPrint.RangedString: the output buffer is large enough; truncation and its return value are not modelled.
- HostCreate.CreateBracketed: excludes texts with a range that ends at the largest unsigned long or a plain token of 1024 bytes and more, for which the code relies on wrap-around and on an unterminated copy.
- hostlist_create of the default configuration uses the other parser (liblsd/hostlist.c:1184-1316), which is not modelled.
- Host list iterators, hostset, hostlist_pop, hostlist_shift and the pop and shift of ranges.
- hash.c, thread.c and everything outside liblsd and libutil/hpcrc.c.
