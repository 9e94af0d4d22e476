# Verified models of the ChatApp repository

The repository is an iOS chat application together with the third-party source it is built from. Nearly all of its
intricate logic is in that source, under `ChatApp/Pods`. This project models six independent pieces and proves what they
are for:

1. **LevelDB's user-level iterator** (`DbIterator`, with `InternalKeys`, `KeySeparators`, `SnapshotView`, `EntryView`,
   `IteratorRuns`).
   A cursor that walks internal entries in both directions refines a cursor on a sorted map: the newest write to each user
   key that a snapshot sees, without deletions. User keys are ordered by any total preorder.
2. **nanopb's encoder and decoder** (`Encoder`, `Decoder`, `FieldIterators`). `Descriptors` has the descriptors and the
   messages; `WireFormat` says what bytes mean; `WireRoundTrip` and `WireLimits` prove that reading undoes writing, exactly
   for which messages, and for which readers; `WireLayout` has the bytes themselves, and `WireOccurrences` what a decoder makes
   of what other encoders may write; `Varints` and `FixedWidth` have the integers, `MachineWords` their sizes.
3. **libuv's binary heap and timers** (`BinaryHeap`, `TimerRuns`, `Timers`). The heap is a tree of parent, left and right
   pointers; its level order is a ghost sequence. Timers are run against an abstract queue.
4. **libuv's thread pool** (`IntrusiveQueues`, and `ThreadPool`, `ThreadPoolInvariant`, `ThreadPoolSteps`, `ThreadPoolRuns`,
   `ThreadPoolShutdown`, `ThreadPoolProgress`, `ThreadPoolUse`, `ThreadPoolOrder` with `WorkQueues`). The pool is a state machine whose steps are critical sections; any number of
   workers, loops and jobs interleave. The queues of `queue.h` are proved as pointer structures and used as sequences.
5. **Text codecs** (`Utf8`, `Punycode`, `PunycodeSample`, `CodePointOrder`, `Idna`; `AddressTexts`, `AddressTexts6`, `AddressForms`,
   `PrintedForms`, `Inet`; `Products` has their arithmetic).
   A Punycode encoder with 32-bit guards is proved against the decoder of section 6.2 of RFC 3492; the printers and parsers
   of internet addresses are proved inverse, and the texts that the parsers accept are characterised.
6. **The conversation list** of the application's own code (`Conversations`).

Code that updates objects, buffers or pointers is modelled by classes, arrays and methods with loops, and each method's
contract ties its outcome to a specification function; the lemmas are about those functions.

Where comments in the source and its code disagree, the model follows the code:

- `db_iter.cc:42-45` says that in reverse the inner iterator stands just before all entries of the current user key. It
  may stand before invisible entries of smaller keys too; `DBIter.ReverseAt` is what the code maintains. The early exit at
  `db_iter.cc:154-158` is unreachable, and the model asserts that.
- `heap-inl.h:189-191` clears the root pointer once more when the last node is removed; it is already null there.
- `inet.c:130` has a case for a run of seven words which cannot arise at word six. The model keeps it.
- `pb_encode.c:761-762`, the error "submsg size changed", is unreachable without callbacks; `Encoder.WriteSubmessage`
  proves it.

Some properties that a caller might expect are false of the code. Each has its exact condition, and an input:

- A message that the encoder accepts need not be read back: a string that fills its buffer has no room for a terminator,
  and a payload of 2^32 bytes or more has a length that the decoder refuses. `WireLimits.RoundTripExactly` proves that there
  are no other cases; `WireLimits.FullStringUnread` has such strings. (A bytes member or an array count that does not fit is
  refused by the encoder already.)
- Running the due timers need not end: it goes on for ever exactly if the loop's clock shows its last instant and a pending
  timer repeats (`TimerRuns.RunEndsExactly`, `TimerRuns.LastInstantIsEndless`).
- A label may be refused because the number for one of its code points does not fit 32 bits (`Idna.ToAsciiLabel`). That
  takes more than 3855 code points, and 3856 can be enough (`CodePointOrder.ShortLabelsFit`,
  `CodePointOrder.LongLabelOverflows`).
- The UTF-8 decoder accepts sequences that are no encodings: exactly those whose continuation bytes are not all in
  0x80..0xBF and that pass the joint test of their upper bits (`Utf8.AcceptedIsEncoding`, `Utf8.IllFormedIsAccepted`).
- The conversation list may lose a partner: messages are grouped under both user names joined by a dash, and names may have
  dashes. `Conversations.MessageList.LoadMessages` says exactly when every partner is listed;
  `Conversations.ConversationIsLost` has messages for which one is not.
- The test for default values does not recognise every cleared structure (`Descriptors.DefaultExactly`), so that some are
  written although they need not be.

## Model

| member | source | states |
|---|---|---|
| InternalKeys.ParseInvertsAppend | ChatApp/Pods/leveldb-library/db/dbformat.h:165-175 | Parsing an internal key that was appended gives back its user key, sequence number and type, for every key that can be packed. |
| InternalKeys.AppendInvertsParse | ChatApp/Pods/leveldb-library/db/dbformat.cc:14-23 | Every byte string that parses is the one that appending the result writes. |
| InternalKeys.InternalKeyLayout | ChatApp/Pods/leveldb-library/db/dbformat.cc:14-23 | An internal key is the user key, a byte for the type, and the sequence number in seven bytes, least significant first. |
| InternalKeys.InternalOrderIsTotal | ChatApp/Pods/leveldb-library/db/dbformat.cc:51-67 | The internal order is a total preorder for every user comparator that is one. |
| InternalKeys.InternalOrderSeparates | ChatApp/Pods/leveldb-library/db/dbformat.cc:51-67 | If the user comparator tells user keys apart, only equal internal keys compare as equal. |
| InternalKeys.SeekTagSplitsAtSnapshot | ChatApp/Pods/leveldb-library/db/dbformat.h:52-65 | An entry's sequence number is within the snapshot exactly when its tag is at most that of the seek key, so the choice of the seek type is right. |
| KeySeparators.BytewiseIsComparator | ChatApp/Pods/leveldb-library/util/comparator.cc:25-27 | Bytewise comparison is a total preorder that tells keys apart. |
| KeySeparators.BytewiseContract | ChatApp/Pods/leveldb-library/util/comparator.cc:29-64 | The bytewise separator lies at or above its start and below its limit, and the bytewise successor is not below its key. |
| KeySeparators.FindShortestSeparator | ChatApp/Pods/leveldb-library/util/comparator.cc:29-50 | The result is the start up to the first byte in which it differs from the limit, with that byte incremented if this stays below the limit's, and else the whole start; it is shorter exactly if bytes follow the incremented one. |
| KeySeparators.FindShortSuccessor | ChatApp/Pods/leveldb-library/util/comparator.cc:52-64 | The result is the key up to its first byte below 255, incremented, and the key itself if it has no such byte. |
| KeySeparators.InternalShortestSeparator | ChatApp/Pods/leveldb-library/db/dbformat.cc:69-86 | The result stays between start and limit in the internal order, differs from start exactly if the user comparator's separator is shorter and larger, is then shorter, and carries the tag that sorts first: the source's asserts cannot fail. |
| KeySeparators.InternalShortSuccessor | ChatApp/Pods/leveldb-library/db/dbformat.cc:88-101 | The result is not below the key in the internal order; it differs from the key exactly if the user comparator's successor is shorter and larger, and is then strictly above it and shorter. |
| SnapshotView.Snapshot.ViewIsSorted | ChatApp/Pods/leveldb-library/db/db_iter.cc:34-38 | The pairs presented to clients have strictly ascending user keys. |
| SnapshotView.Snapshot.ViewIsSnapshotMap | ChatApp/Pods/leveldb-library/db/db_iter.cc:34-38 | Looking a key up among the presented pairs answers with the newest write at or before the snapshot, and with nothing if that is a deletion or there is none; both directions. |
| EntryView.ViewIsOfEntries | ChatApp/Pods/leveldb-library/db/db_iter.cc:34-38 | The list presented to clients consists, in ascending order, of exactly the user keys and values of those stored entries that are the newest write to their key, by sequence number, within the snapshot, and of type value. |
| EntryView.ViewIsUnique | ChatApp/Pods/leveldb-library/db/db_iter.cc:34-38 | There is only one such list for given entries and snapshot. |
| EntryView.LookupIsNewestEntry | ChatApp/Pods/leveldb-library/db/db_iter.cc:34-38 | Looking a key up in it gives a value exactly if the newest entry for that key within the snapshot stores that value. |
| SnapshotView.SeekSplits | ChatApp/Pods/leveldb-library/db/db_iter.cc:269-276 | The seek key steps over exactly the entries of smaller user keys and those of the target that are newer than the snapshot. |
| SnapshotView.Snapshot.LowerBound | ChatApp/Pods/leveldb-library/db/db_iter.cc:269-281 | After such a step the next live entry is the least presented pair at or above the target. |
| DbIterator.DBIter.Next | ChatApp/Pods/leveldb-library/db/db_iter.cc:141-166 | From either direction, moves the client's cursor to the next pair of the view, or off its end. |
| DbIterator.DBIter.FindNextUserEntry | ChatApp/Pods/leveldb-library/db/db_iter.cc:168-198 | The forward scan stops at the first live entry at or after its start, skipping hidden, deleted and invisible ones. |
| DbIterator.DBIter.Prev | ChatApp/Pods/leveldb-library/db/db_iter.cc:200-225 | From either direction, moves the client's cursor to the previous pair of the view, or off its start. |
| DbIterator.DBIter.FindPrevUserEntry | ChatApp/Pods/leveldb-library/db/db_iter.cc:227-267 | The backward scan saves the pair of the nearest live entry and leaves the inner iterator before all visible entries of its key. |
| DbIterator.DBIter.Seek | ChatApp/Pods/leveldb-library/db/db_iter.cc:269-281 | Lands on the least pair of the view whose key is not below the target, or nowhere if there is none. |
| DbIterator.DBIter.SeekToFirst | ChatApp/Pods/leveldb-library/db/db_iter.cc:283-292 | Lands on the first pair of the view, or nowhere if it is empty. |
| DbIterator.DBIter.SeekToLast | ChatApp/Pods/leveldb-library/db/db_iter.cc:294-299 | Lands on the last pair of the view, or nowhere if it is empty. |
| DbIterator.DBIter.Key | ChatApp/Pods/leveldb-library/db/db_iter.cc:64-67 | The key shown is that of the view's pair under the cursor, in both directions. |
| DbIterator.DBIter.Value | ChatApp/Pods/leveldb-library/db/db_iter.cc:68-71 | The value shown is that of the view's pair under the cursor, in both directions. |
| DbIterator.DBIter.ParseKey | ChatApp/Pods/leveldb-library/db/db_iter.cc:122-139 | A corrupt entry is reported and treated as invisible; any other is classified as the view classifies it. |
| IteratorRuns.Run | ChatApp/Pods/leveldb-library/db/db_iter.cc:141-299 | Every legal run of moves shows, move by move, what a cursor shows on the one sorted list of keys and values that the stored entries present. |
| IteratorRuns.ShowsEntries | ChatApp/Pods/leveldb-library/db/db_iter.cc:64-71 | Each pair shown in a run is the user key and the value of an entry that is the newest write to its key. |
| IteratorRuns.ForwardSweep | ChatApp/Pods/leveldb-library/db/db_iter.cc:141-166 | Of the list cursor that `Run` refines: moving forward from any pair to the end shows the rest of the view, each pair once, in order. |
| IteratorRuns.BackwardSweep | ChatApp/Pods/leveldb-library/db/db_iter.cc:200-225 | Of the list cursor that `Run` refines: moving backward from any pair to the start shows what precedes it, each pair once, in reverse. |
| IteratorRuns.TurnAround | ChatApp/Pods/leveldb-library/db/db_iter.cc:141-225 | Of the list cursor that `Run` refines: a move and its opposite return to the same pair. |
| IteratorRuns.LowerBoundIsUnique | ChatApp/Pods/leveldb-library/db/db_iter.cc:269-281 | What a seek promises determines where it lands. |
| FixedWidth.FixedRoundTrip | ChatApp/Pods/nanopb/pb_encode.c:641-667 | A fixed-width little-endian integer is read back as it was written. |
| Varints.VarintRoundTrip | ChatApp/Pods/nanopb/pb_decode.c:255-276 | Every 64-bit value is encoded in at most ten bytes, and decoding consumes exactly these and gives it back. |
| Varints.Varint32RoundTrip | ChatApp/Pods/nanopb/pb_decode.c:187-253 | The 32-bit decoder returns every value below 2^32, consuming exactly its encoding. |
| Varints.Varint32OfNegative | ChatApp/Pods/nanopb/pb_decode.c:187-253 | The 32-bit decoder returns the low 32 bits of the ten-byte encoding of every negative 32-bit integer. |
| Varints.Varint32Rejects | ChatApp/Pods/nanopb/pb_decode.c:187-253 | The 32-bit decoder rejects the encoding of every value from 2^32 up to 2^63. |
| Varints.ZigzagRoundTrip | ChatApp/Pods/nanopb/pb_encode.c:630-639 | Decoding the zigzag code of a signed 64-bit integer gives it back. |
| Varints.UnzigzagRoundTrip | ChatApp/Pods/nanopb/pb_decode.c:1285-1297 | Every 64-bit number is the zigzag code of what it decodes to. |
| FieldIterators.FieldIter.Next | ChatApp/Pods/nanopb/pb_common.c:29-85 | One step keeps the data pointer at the field's absolute offset and the required-field index at the count of required fields before it, and reports wrapping round. |
| FieldIterators.FieldIter.Find | ChatApp/Pods/nanopb/pb_common.c:87-104 | The cyclic search ends, succeeds exactly when a field has the tag, and finds the nearest one going forward. |
| Encoder.OStream.Write | ChatApp/Pods/nanopb/pb_encode.c:103-128 | A write succeeds exactly when it fits the stream, appends the bytes, and a sizing stream only counts them. |
| Encoder.WriteVarint | ChatApp/Pods/nanopb/pb_encode.c:608-628 | The bytes built seven bits at a time are the varint of the value. |
| Encoder.EncodeValue | ChatApp/Pods/nanopb/pb_encode.c:769-912 | The field encoder writes exactly the value's wire form, and fails exactly when the value is too large for the wire or the stream. |
| Encoder.EncodeSubmessage | ChatApp/Pods/nanopb/pb_encode.c:717-765 | The sizing pass and the writing pass agree: a length and that many bytes are written, at every nesting depth, and failure is only for want of room or an unencodable part. |
| Encoder.EncodePacked | ChatApp/Pods/nanopb/pb_encode.c:169-209 | A packed array is written as its tag, the length found by sizing its items, and the items. |
| Encoder.EncodeArray | ChatApp/Pods/nanopb/pb_encode.c:147-236 | An array is written packed or item by item, an empty one not at all, and too long a count fails. |
| Encoder.EncodeField | ChatApp/Pods/nanopb/pb_encode.c:341-427 | Each kind of field is written as its rule demands: defaults of singular fields, absent optional and unselected oneof members not at all. |
| Encoder.Encode | ChatApp/Pods/nanopb/pb_encode.c:528-550 | Encoding into a stream succeeds exactly when the message is encodable and its bytes fit, and then writes exactly these; otherwise what was written before is kept. |
| Encoder.GetEncodedSize | ChatApp/Pods/nanopb/pb_encode.c:567-576 | The sizing run reports exactly the number of bytes that the writing run produces. |
| WireLayout.SlotIsWritten | ChatApp/Pods/nanopb/pb_encode.c:147-236 | What is written for a member, in literal field numbers, wire types and payloads: required members always, optional ones if present, singular ones unless seen to be cleared, arrays packed if their type can be. |
| WireLayout.ItemIsWritten | ChatApp/Pods/nanopb/pb_encode.c:669-712 | The wire type of each field type, and the contents: 64-bit two's complement for signed integers whatever the size of the member, zigzag for the others, little-endian fixed-width numbers, length-delimited data. |
| WireLayout.VarintByte | ChatApp/Pods/nanopb/pb_encode.c:608-628 | Byte k of a varint holds bits 7k to 7k+6, and the top bit unless it is the last. |
| WireLayout.VarintSize | ChatApp/Pods/nanopb/pb_encode.c:608-628 | A varint has exactly as many bytes as its value needs. |
| FixedWidth.FixedByte | ChatApp/Pods/nanopb/pb_encode.c:641-667 | Byte k of a fixed-width integer n is n / 256^k modulo 256. |
| WireLayout.NegativeTakesTen | ChatApp/Pods/nanopb/pb_encode.c:776-796 | Negative integers of the types without zigzag take ten bytes. |
| Decoder.IStream.Read | ChatApp/Pods/nanopb/pb_decode.c:102-139 | A read takes exactly the bytes asked for or fails, and position plus bytes left is conserved. |
| Decoder.ReadVarint32 | ChatApp/Pods/nanopb/pb_decode.c:187-253 | The loop reads what the wire format says, and fails exactly when it says so. |
| Decoder.SkipValue | ChatApp/Pods/nanopb/pb_decode.c:321-334 | Skipping consumes exactly one value of the wire type, and fails on an unknown type. |
| Decoder.OpenSubstream | ChatApp/Pods/nanopb/pb_decode.c:372-385 | A substream covers exactly the announced bytes, and its parent loses as many. |
| Decoder.CloseSubstream | ChatApp/Pods/nanopb/pb_decode.c:387-401 | However much of the substream was read, closing it moves the parent to the end of the substream, with the bytes that it had left. |
| Decoder.DecodeField | ChatApp/Pods/nanopb/pb_decode.c:406-486 | A field is read into its structure as the wire format says: replaced, appended, unpacked or refused. Only a read that succeeds leaves the end of the stream where it was. |
| Decoder.DecodePackedField | ChatApp/Pods/nanopb/pb_decode.c:424-455 | A packed array is read up to the end of its substream; if its items do not use that up, the substream stays open and the parent stays shortened. |
| Decoder.CheckRequired | ChatApp/Pods/nanopb/pb_decode.c:1059-1079 | The two-word bitmap passes exactly when each of the first n required fields, up to 64, was decoded. |
| Decoder.CountRequired | ChatApp/Pods/nanopb/pb_decode.c:1046-1057 | The walk to the end of the descriptors, with its correction for a last required field, counts the required fields. |
| Decoder.Decode | ChatApp/Pods/nanopb/pb_decode.c:1084-1096 | Decoding a stream gives what its bytes mean for these descriptors, starting from defaults, and fails exactly when they mean nothing. |
| Decoder.DecodeNoInit | ChatApp/Pods/nanopb/pb_decode.c:934-1082 | The same on top of existing contents; the loop over tags, the search for fields, unknown fields and the required-field check together. |
| WireRoundTrip.ValueRoundTrip | ChatApp/Pods/nanopb/pb_decode.c:1334-1571 | Every value that fits its reader is read back from its wire form, with what follows it untouched, through nested messages. |
| WireLayout.WidthDoesNotMatter | ChatApp/Pods/nanopb/pb_encode.c:776-850 | An integer written from a member of one size is read into every member at least as large, in each of the three integer types. |
| WireLayout.ReadsInt | ChatApp/Pods/nanopb/pb_decode.c:1345-1380 | For every 64-bit number: a signed member takes it modulo 2^64, or modulo 2^32 if it has at most four bytes, and refuses what does not fit. |
| WireLayout.ReadsString | ChatApp/Pods/nanopb/pb_decode.c:1486-1523 | A string is accepted exactly if it leaves room for a terminator, and ends before its first zero byte. |
| WireLayout.ReadsBytes | ChatApp/Pods/nanopb/pb_decode.c:1447-1484 | Bytes are accepted exactly if they fit the member beside its size. |
| WireLayout.ReadsFixedLength | ChatApp/Pods/nanopb/pb_decode.c:1549-1571 | Bytes of a fixed length must all be there, or none, which stands for zeros. |
| WireRoundTrip.ItemsRead | ChatApp/Pods/nanopb/pb_decode.c:454-464 | Items that arrive one by one are appended to what an array holds, for every type, packable or not. |
| WireOccurrences.ChunksRead | ChatApp/Pods/nanopb/pb_decode.c:424-464 | Packed and unpacked chunks of one field are concatenated in the order of the stream. |
| WireOccurrences.ArrayOverflows | ChatApp/Pods/nanopb/pb_decode.c:454-464 | An item more than the array has room for is refused. |
| WireOccurrences.LastOccurrenceCounts | ChatApp/Pods/nanopb/pb_decode.c:414-482 | Of two occurrences of a member that is neither repeated nor a submessage the last counts, and the other members of its union are empty. |
| WireOccurrences.OccurrenceMerges | ChatApp/Pods/nanopb/pb_decode.c:1525-1547 | A further occurrence of a submessage is read on top of the one before. |
| WireRoundTrip.SkipFieldSkips | ChatApp/Pods/nanopb/pb_decode.c:278-334 | Skipping a value of any type consumes exactly its wire form. |
| WireRoundTrip.MessageRoundTrip | ChatApp/Pods/nanopb/pb_decode.c:934-1096 | Decoding what was encoded gives the original message, for every descriptor list with distinct tags and every message that fits it. |
| WireRoundTrip.Projection | ChatApp/Pods/nanopb/pb_decode.c:952-995 | A reader with its fields in another order, without some of the writer's and with others of its own, gets the fields it shares with the writer, wherever they are in its structure, and defaults for its own; it fails exactly if one of the first 64 required fields is not the writer's. |
| WireLimits.RoundTripExactly | ChatApp/Pods/nanopb/pb_decode.c:1447-1523 | Of the messages the encoder accepts, with an encoding of fewer than 2^63 bytes, those that fit the reader's members are read back, and every other one is refused. |
| WireLimits.FullStringUnread | ChatApp/Pods/nanopb/pb_decode.c:1486-1523 | A string that fills its buffer, without a terminator, is written and not read back. |
| Descriptors.DefaultValueIsZero | ChatApp/Pods/nanopb/pb_encode.c:240-339 | The test for default values, which follows the type and looks into submessages, holds only of the value that a cleared structure has. |
| Descriptors.DefaultExactly | ChatApp/Pods/nanopb/pb_encode.c:240-339 | It holds exactly of the cleared value of those types that have, at no depth that it looks into, a non-empty fixed-length bytes member or a required member. |
| BinaryHeap.PathTo | ChatApp/Pods/Libuv-gRPC/src/heap-inl.h:120-125 | The bits collected from a position lead from the root to that position. |
| BinaryHeap.Heap.Traverse | ChatApp/Pods/Libuv-gRPC/src/heap-inl.h:127-137 | Following the bits ends at the pointer that leads to the position, one past its parent's. |
| BinaryHeap.Heap.Swap | ChatApp/Pods/Libuv-gRPC/src/heap-inl.h:72-104 | Relinking a node with its parent exchanges their positions in the tree and nothing else; all pointers stay consistent. |
| BinaryHeap.Heap.Insert | ChatApp/Pods/Libuv-gRPC/src/heap-inl.h:106-148 | Insertion keeps the tree complete and linked and no child less than its parent, and adds exactly the node. |
| BinaryHeap.Heap.Remove | ChatApp/Pods/Libuv-gRPC/src/heap-inl.h:150-237 | Removing a member keeps the tree complete and linked and no child less than its parent, and takes away exactly the node. |
| BinaryHeap.Heap.Dequeue | ChatApp/Pods/Libuv-gRPC/src/heap-inl.h:239-241 | Takes away exactly the node at the root, keeping the heap. |
| BinaryHeap.SiftedUp | ChatApp/Pods/Libuv-gRPC/src/heap-inl.h:143-147 | Exchanging a key with its greater parent leaves at most one place out of order, one level up. |
| BinaryHeap.SmallestSiftsDown | ChatApp/Pods/Libuv-gRPC/src/heap-inl.h:216-229 | Exchanging a key with the smallest of its children leaves at most one place out of order below; if none is smaller, only the way up is open. |
| BinaryHeap.ReplacedKeys | ChatApp/Pods/Libuv-gRPC/src/heap-inl.h:195-214 | Putting the last key in place of another leaves only that place out of order, upwards or downwards. |
| BinaryHeap.RootIsLeast | ChatApp/Pods/Libuv-gRPC/src/heap-inl.h:67-69 | No key of the heap is less than the one at the root, for every strict weak order. |
| TimerRuns.TimerLessIsStrictWeak | ChatApp/Pods/Libuv-gRPC/src/timer.c:38-55 | Comparing deadlines, then start numbers, is a strict weak order, as the heap needs. |
| TimerRuns.RanStep | ChatApp/Pods/Libuv-gRPC/src/timer.c:154-171 | Firing the first due timer extends a correct run: no timer fires twice, none is passed over, repeating ones are numbered in the order they fired. |
| TimerRuns.RanToTheEnd | ChatApp/Pods/Libuv-gRPC/src/timer.c:154-171 | When nothing due is left, exactly the timers that were due have fired. |
| TimerRuns.RunIsBounded | ChatApp/Pods/Libuv-gRPC/src/timer.c:154-171 | A run takes no more steps than timers were due, unless the clock is at its last instant and one of them repeats. |
| TimerRuns.RunEndsExactly | ChatApp/Pods/Libuv-gRPC/src/timer.c:154-171 | The loop goes on for ever exactly when the clock shows its last instant and a pending timer repeats. |
| TimerRuns.LastInstantIsEndless | ChatApp/Pods/Libuv-gRPC/src/timer.c:154-171 | At the last instant of the clock, one repeating timer fires without end. |
| Timers.Loop.Start | ChatApp/Pods/Libuv-gRPC/src/timer.c:66-94 | Refuses a closing timer or a missing callback and changes nothing; else the timer is pending, once, with deadline min(time + timeout, 2^64 - 1) and the next start number. |
| Timers.Loop.Stop | ChatApp/Pods/Libuv-gRPC/src/timer.c:97-107 | The timer is no longer pending, no other is affected, and the active flag still coincides with membership in the heap. |
| Timers.Loop.Again | ChatApp/Pods/Libuv-gRPC/src/timer.c:110-120 | A repeating timer is pending again with its repeat interval, counted from now; others are left as they are. |
| Timers.Loop.Close | ChatApp/Pods/Libuv-gRPC/src/timer.c:174-176 | A closed timer is not pending, and is marked so that it cannot be started. |
| Timers.Loop.SetRepeat | ChatApp/Pods/Libuv-gRPC/src/timer.c:123-125 | Changing the repeat interval changes no pending timer's deadline. |
| Timers.Loop.NextTimeout | ChatApp/Pods/Libuv-gRPC/src/timer.c:133-151 | Minus one exactly without pending timers, else the least of their waiting times, each capped at INT_MAX. |
| Timers.Loop.RunTimers | ChatApp/Pods/Libuv-gRPC/src/timer.c:154-171 | Ends; calls exactly the due timers, each once, by deadline and among equal deadlines by start number; leaves only timers due strictly later, the repeating ones re-armed. |
| IntrusiveQueues.EmptyExactly | ChatApp/Pods/Libuv-gRPC/src/queue.h:39-43 | A list is empty exactly if its head points to itself, and otherwise points to the first element. |
| IntrusiveQueues.InsertTail | ChatApp/Pods/Libuv-gRPC/src/queue.h:92-99 | The element becomes the last of the ring, in both directions of the links. |
| IntrusiveQueues.InsertHead | ChatApp/Pods/Libuv-gRPC/src/queue.h:83-90 | The element becomes the first of the ring. |
| IntrusiveQueues.Remove | ChatApp/Pods/Libuv-gRPC/src/queue.h:101-106 | The ring closes around the element, whose own links stay, so that it does not test as empty. |
| IntrusiveQueues.Split | ChatApp/Pods/Libuv-gRPC/src/queue.h:61-70 | The ring becomes two: the elements before q, and those from q on under the new head. |
| IntrusiveQueues.Move | ChatApp/Pods/Libuv-gRPC/src/queue.h:72-81 | All elements go to the new head in their order, and the old list is empty. |
| IntrusiveQueues.Add | ChatApp/Pods/Libuv-gRPC/src/queue.h:52-59 | The elements of the second list follow those of the first. |
| ThreadPoolSteps.StepKeeps | ChatApp/Pods/Libuv-gRPC/src/threadpool.c:57-315 | Every step of every thread keeps the invariant: queues, marker, counters, carried jobs, loops' lists and some worker awake. |
| ThreadPoolSteps.WaitKeeps | ChatApp/Pods/Libuv-gRPC/src/threadpool.c:69-78 | A worker goes to sleep only with nothing queued, or while others run slow work and will look again. |
| ThreadPoolSteps.LeaveKeeps | ChatApp/Pods/Libuv-gRPC/src/threadpool.c:80-85 | A worker that leaves on the exit message hands it on: unless all have ended, some worker is awake. |
| ThreadPoolSteps.TakeSlowKeeps | ChatApp/Pods/Libuv-gRPC/src/threadpool.c:90-117 | Taking slow work keeps the bound, and the marker linked once exactly while more slow work is pending. |
| ThreadPoolSteps.SubmitKeeps | ChatApp/Pods/Libuv-gRPC/src/threadpool.c:142-160 | Posting a job of any kind keeps the queues exact and wakes a worker if one must be. |
| ThreadPoolSteps.BeginCancelKeeps | ChatApp/Pods/Libuv-gRPC/src/threadpool.c:269-283 | Unlinking a job from whichever list it is in keeps all the others. |
| ThreadPoolRuns.ExactlyOnePlace | ChatApp/Pods/Libuv-gRPC/src/threadpool.c:57-315 | After every run, a submitted job is in exactly one place: a position of one queue, one worker, a canceller's hand, or called back. |
| ThreadPoolRuns.CallbacksAreRight | ChatApp/Pods/Libuv-gRPC/src/threadpool.c:295-315 | After every run, a job's callback was called at most once and its function ran at most once; the callback is told of cancellation exactly if a caller was told it succeeded, and then the function never ran. |
| ThreadPoolRuns.CancelSucceedsExactly | ChatApp/Pods/Libuv-gRPC/src/threadpool.c:269-292 | After every run, the test on the job's links and function succeeds exactly for work no worker has taken, and for work cancelled before and not yet called back. |
| ThreadPoolRuns.SlowWorkIsBounded | ChatApp/Pods/Libuv-gRPC/src/threadpool.c:45-47 | After every run, the counter equals the number of workers on slow work, at most half of them rounded up; the marker is linked at most once, and is linked while slow work is pending. |
| ThreadPoolUse.SlowWorkIsTaken | ChatApp/Pods/Libuv-gRPC/src/threadpool.c:69-117 | After every run, while slow work is pending and fewer than half of the workers, rounded up, are on slow work, a worker with the mutex neither sleeps nor puts the marker off, and takes slow work if the marker is first. |
| ThreadPoolUse.WorkersAreUsed | ChatApp/Pods/Libuv-gRPC/src/threadpool.c:57-160 | After every run, when some worker sleeps and none is about to look at the queue, no ordinary job is queued, and if slow work is pending exactly half of the workers, rounded up, are on it. |
| ThreadPoolOrder.FirstComeFirstServed | ChatApp/Pods/Libuv-gRPC/src/threadpool.c:57-160 | After every run and whatever follows, of two jobs in the same queue the one behind is not begun while the other is pending. |
| ThreadPoolOrder.PostedIsBehind | ChatApp/Pods/Libuv-gRPC/src/threadpool.c:142-160 | A job that is posted goes behind all those in its queue. |
| ThreadPoolOrder.CallbacksInOrder | ChatApp/Pods/Libuv-gRPC/src/threadpool.c:295-315 | A loop calls callbacks in the order in which its jobs finished, but for those cancelled once more. |
| ThreadPoolShutdown.NoLostWakeup | ChatApp/Pods/Libuv-gRPC/src/threadpool.c:65-85 | After every run, while an entry is queued and a worker is left, some worker can go on without a spurious wakeup. |
| ThreadPoolShutdown.NoWorkIsStranded | ChatApp/Pods/Libuv-gRPC/src/threadpool.c:57-160 | Before shutdown, whenever the workers come to rest after any run, both queues are empty and every submitted job, slow or not, has gone to its loop, is being cancelled, or was called back. |
| ThreadPoolProgress.WorkIsBounded | ChatApp/Pods/Libuv-gRPC/src/threadpool.c:57-160 | In every run before shutdown, the steps of workers other than spurious wakeups are bounded by the load at its start, 14 for each submission and one for each spurious wakeup. |
| ThreadPoolProgress.ComesToRest | ChatApp/Pods/Libuv-gRPC/src/threadpool.c:57-130 | From every state before shutdown, the workers alone come to rest within that bound, without a spurious wakeup. |
| ThreadPoolProgress.EveryJobReachesItsLoop | ChatApp/Pods/Libuv-gRPC/src/threadpool.c:57-160 | After every run before shutdown and whatever follows, the workers can do only so much, and when they are at rest every submitted job has gone to its loop, is being cancelled, or was called back. |
| ThreadPoolShutdown.ShutdownIsBounded | ChatApp/Pods/Libuv-gRPC/src/threadpool.c:80-85 | Once the exit message is posted, the workers take a bounded number of steps in every run, whatever else is submitted or cancelled. |
| ThreadPoolShutdown.ShutdownIsComplete | ChatApp/Pods/Libuv-gRPC/src/threadpool.c:164-184 | When they stop, they have all ended: cleanup's joins return. |
| ThreadPoolShutdown.CancelledForGood | ChatApp/Pods/Libuv-gRPC/src/threadpool.c:269-315 | Once a caller was told a job is cancelled, in every later state its function has not run and its callback was told nothing else. |
| Utf8.DecodesEncoded | ChatApp/Pods/Libuv-gRPC/src/idna.c:24-97 | The decoder gives back every code point from its encoding, and steps over exactly that. |
| Utf8.AcceptedIsShortest | ChatApp/Pods/Libuv-gRPC/src/idna.c:68-97 | Whatever the bytes, an accepted value is a code point, not a surrogate, and is not written longer than need be. |
| Utf8.AcceptedIsEncoding | ChatApp/Pods/Libuv-gRPC/src/idna.c:24-97 | What was accepted is the encoding of its value exactly if every continuation byte is in 0x80..0xBF. |
| Utf8.IllFormedIsAccepted | ChatApp/Pods/Libuv-gRPC/src/idna.c:79-86 | The bytes E1 C0 C0 are accepted as U+1000. |
| Punycode.NumberIsRead | ChatApp/Pods/Libuv-gRPC/src/idna.c:192-218 | The digits written for a number are read by RFC 3492 as that number, with what follows untouched, for every bias. |
| Idna.WriteNumber | ChatApp/Pods/Libuv-gRPC/src/idna.c:192-218 | The loop over thresholds writes those digits. |
| Idna.NextBias | ChatApp/Pods/Libuv-gRPC/src/idna.c:220-236 | The in-place adaptation computes the bias of section 6.1 of RFC 3492, within 32 bits. |
| Punycode.AdaptIsAdapted | ChatApp/Pods/Libuv-gRPC/src/idna.c:220-236 | In plain numbers: delta divided by 700 at first and by 2 later, increased by its share of the points, divided by 35 the least number k of times that bring it down to x of at most 455, gives 36k + 36x / (x + 38). |
| Punycode.AdaptIsOnly | ChatApp/Pods/Libuv-gRPC/src/idna.c:220-236 | No other bias satisfies this. |
| PunycodeSample.SampleDecodes | ChatApp/Pods/Libuv-gRPC/src/idna.c:161-245 | Sample (L) of section 7.1 of RFC 3492, with six insertions, decodes as it says there. |
| Idna.Minimum | ChatApp/Pods/Libuv-gRPC/src/idna.c:167-172 | Finds the least code point of the label that is not below n. |
| Idna.AddProduct | ChatApp/Pods/Libuv-gRPC/src/idna.c:174-180 | The guard refuses exactly the sums that 32 bits would not hold, so delta never wraps. |
| CodePointOrder.StepsInsert | ChatApp/Pods/Libuv-gRPC/src/idna.c:177-239 | The number of decoder states counted up to a code point is the one whose quotient and remainder are that code point and its place among those inserted before. |
| CodePointOrder.TooFar | ChatApp/Pods/Libuv-gRPC/src/idna.c:177-187 | If the count exceeds 32 bits before the next code point of a pass, the number for that code point does. |
| CodePointOrder.ShortLabelsFit | ChatApp/Pods/Libuv-gRPC/src/idna.c:174-187 | No label of at most 3855 code points overflows. |
| CodePointOrder.LongLabelOverflows | ChatApp/Pods/Libuv-gRPC/src/idna.c:174-187 | The bound is exact: 3855 ASCII code points and U+10FFFF overflow. |
| Idna.TracksInsert | ChatApp/Pods/Libuv-gRPC/src/idna.c:189-239 | After each number the decoder holds the label's code points up to that one, and todo counts those not yet written. |
| Idna.WriteBasic | ChatApp/Pods/Libuv-gRPC/src/idna.c:140-151 | Copies exactly the ASCII code points, in their order. |
| Idna.WriteOthers | ChatApp/Pods/Libuv-gRPC/src/idna.c:161-245 | What the main loop writes makes the decoder arrive at exactly the label's code points; it fails exactly if the number for one of them does not fit 32 bits. |
| Idna.ToAsciiLabel | ChatApp/Pods/Libuv-gRPC/src/idna.c:102-246 | For every well-formed label: an ASCII one is copied; for any other the text is "xn--", the ASCII code points, a delimiter if there are any, and digits in small letters, and after "xn--" it decodes, by section 6.2 of RFC 3492, to exactly the label's code points; overflow is reported exactly when the number for some code point does not fit 32 bits. |
| AddressTexts.ParsesExactly | ChatApp/Pods/Libuv-gRPC/src/inet.c:179-215 | IPv4 texts and addresses determine each other: the parser accepts exactly what the printer prints. |
| AddressTexts6.Parses6 | ChatApp/Pods/Libuv-gRPC/src/inet.c:218-302 | For every IPv6 address, and whichever run of zeros is abbreviated, the parser gives back what was printed, with embedded IPv4 forms. |
| AddressForms.AcceptsForms | ChatApp/Pods/Libuv-gRPC/src/inet.c:218-302 | The parser accepts exactly the texts of section 2.2 of RFC 4291, with their addresses: groups of one to four hexadecimal digits of either case between colons, an IPv4 address at the end or not, either sixteen bytes in all or fewer and one :: for the missing zeros. |
| PrintedForms.FormatIsForm | ChatApp/Pods/Libuv-gRPC/src/inet.c:113-139 | The printed text is that of a form of section 2.2 of RFC 4291: eight groups, or the groups before and after the abbreviated run, or an IPv4 address after six zero words or after five and ffff. |
| PrintedForms.HexIsShort | ChatApp/Pods/Libuv-gRPC/src/inet.c:113-139 | A group is printed in small letters and without zeros in front. |
| PrintedForms.SampleIsRead | ChatApp/Pods/Libuv-gRPC/src/inet.c:218-302 | The text 2001:DB8::8:800:200C:417A of section 2.2 is read as it should be. |
| Inet.StrCopy | ChatApp/Pods/Libuv-gRPC/src/strscpy.c:4-17 | The copy is the whole text and its end, or is cut to the buffer and reported so; an empty buffer is not. |
| Inet.Ntop4 | ChatApp/Pods/Libuv-gRPC/src/inet.c:53-64 | Succeeds exactly when the text and its end fit, and else leaves the buffer alone. |
| Inet.FindBest | ChatApp/Pods/Libuv-gRPC/src/inet.c:88-111 | Finds the first longest run of at least two zero words, or none exactly if there is none. |
| Inet.Ntop6 | ChatApp/Pods/Libuv-gRPC/src/inet.c:67-147 | The text is that of `PrintedForms.PrintedForm` with the first longest run abbreviated, parses back to the address, and is shorter than the buffer of 46; success exactly if it fits the caller's, or the caller's is empty. |
| Inet.Pton4 | ChatApp/Pods/Libuv-gRPC/src/inet.c:179-215 | Stores the address and nothing else, or refuses and stores nothing. |
| Inet.ShiftToEnd | ChatApp/Pods/Libuv-gRPC/src/inet.c:282-297 | The overlapping shift by hand moves the bytes after the abbreviation to the end and leaves zeros. |
| Inet.Pton6 | ChatApp/Pods/Libuv-gRPC/src/inet.c:218-302 | Stores the address that the text means by `Parse6`, or refuses and stores nothing. |
| Conversations.AddedIsGrouped | ChatApp/ChatApp/Controllers/MessagesViewController.swift:119-128 | Adding any message keeps every group started by the first message exchanged with one partner, under its key, and every partner with a group of its own exactly if no partner's key was taken by one met before. |
| Conversations.DashFreeIsSeparate | ChatApp/ChatApp/Controllers/MessagesViewController.swift:120-121 | Names free of dashes take no other partner's key. |
| Conversations.ConversationIsLost | ChatApp/ChatApp/Controllers/MessagesViewController.swift:119-128 | The user a writes to x-a, and a-x writes to a: two partners, one group. |
| Conversations.SharedKeyIsNotEnough | ChatApp/ChatApp/Controllers/MessagesViewController.swift:119-128 | Two partners that share a key may still be kept apart: what counts are the keys that were taken. |
| Conversations.FirstsAreNewest | ChatApp/ChatApp/Controllers/MessagesViewController.swift:103-106 | With the user's messages ordered by descending time, the first one exchanged with a partner is the newest. |
| Conversations.OwnIsNewer | ChatApp/ChatApp/Controllers/MessagesViewController.swift:103-106 | Documents ordered by descending time give the user's messages in that order. |
| Conversations.OwnHas | ChatApp/ChatApp/Controllers/MessagesViewController.swift:114-118 | The user's messages are exactly the complete documents whose sender or receiver is the user. |
| Conversations.MessageList.LoadMessages | ChatApp/ChatApp/Controllers/MessagesViewController.swift:111-139 | For every list of documents: the messages shown are sorted by descending time, are the first exchanged with their partners in document order, and of different partners; every partner has one exactly if, of any two, the key of the first message of the one met first is not a key of the other; and with documents in descending order each is the newest of its partner. |

## Left out

LevelDB:
- Read sampling (`RandomCompactionPeriod`, `RecordReadSample`) and the capacity tricks of saved strings: they do not affect what is shown.
- Status codes beyond the corruption flag, and the filter policy and `LookupKey` of `dbformat.cc`.
- The inner iterator is an index into a sorted list of entries; merging tables and the memtable is not part of this model.

nanopb:
- Pointer fields with allocation, user callbacks, extensions, fixed-count arrays, the builds without 64-bit integers or with 32-bit sizes, and default values given in descriptors.
- Structures are values, one slot for each field, so bytes beyond a string's end or a bytes member's size and the contents of absent members are not represented; the iterator's data offset is.
- Encoder.Encode: encoded sizes are below 2^64, since the source's sizes are 64-bit and would wrap beyond.
- Decoder.DecodeNoInit: an absent optional submessage has no contents in the model, so it is read on top of defaults; the source reads it on top of what its memory holds.
- WireLimits.RoundTripExactly: encodings have fewer than 2^63 bytes, since the 32-bit length decoder drops the upper bits of some lengths close to 2^64.
- Decoder.ReadVarint32: a varint of more than ten bytes fails, where the source goes on over empty padding bytes.
- Descriptors are well-formed: distinct tags, integer members of one, two, four or eight bytes, room for a terminator or a size. The source reports others when it meets them.
- Field tag 0, which the source accepts for an empty message type, and error messages.

Heap and timers:
- The number of nodes and the path are unbounded numbers; the source's 32-bit ones would wrap at 2^32 nodes.
- Timers.Loop.RunTimers: callbacks leave the timers alone; every other method can be called in any order and keeps the loop valid.
- Reference counts of handles and the clock's advance.

Thread pool:
- Creation failures, fork handling, semaphores and the environment variable for the number of threads; the mutexes are taken to work, and the condition variable to wake at least one blocked worker on a signal.
- Callers cancel a job only before its callback is called, from its loop's thread, one at a time.
- `uv_async_send` and the loop's polling: a loop may collect its finished jobs at any time.
- The pool's steps work on sequences; that the pointer operations do the same is proved separately, per operation.

Text codecs:
- Malformed and truncated UTF-8, and labels of 2^32 code points or more: the methods require well-formed text.
- Splitting a name into labels at its dots, zone identifiers of addresses, and dispatch on the address family.
- `snprintf` and `sprintf` are modelled by the digits they print.

Application:
- All views, storyboards, networking, Firebase and Core Data code, and the smaller applications' lists.
