# A verified model of the CoAP and dIa core

The project models the message core of a CoAP stack (draft-ietf-core-coap-09 wire
format) and of the dIa layer on top of it, and proves what the parts promise to
each other. All Dafny files are verified together:

    dafny verify dfyconfig.toml

What is modelled, and the main results:

- **Option codec** (`Bits`, `Options`, `Pdus`, `Iterators`, `Codec`). Messages are
  byte buffers that `coap_add_option` walks and overwrites. Round trip: the iterator
  returns exactly the options that were added, with all fence posts hidden, if and
  only if no option lies at or behind a lookalike of the end marker and none stands
  in a place that is a multiple of 256 (`Codec.WriteThenRead`). Sender and receiver
  agree on where the payload begins, again with an exact condition
  (`Pdus.BoundaryAgrees`), and the receiver finds a payload exactly in well-formed
  datagrams (`Pdus.ReadWalk`).
- **Block-wise transfer** (`Blocks`, `Transfer`, `Runs`). Resizing keeps byte offsets;
  whole uploads and downloads through the two handlers of dIa, with their four block
  cases in order, deliver exactly the bytes sent, over real messages, for all payloads of
  up to 2^24 bytes and all message sizes, if and only if no block is lost; blocks get lost
  only behind fourteen options and beyond 65536 bytes (`Runs.Upload`, `Runs.UsuallySafe`).
  A request and a reply disturb each other exactly when each exceeds the space of its first
  message (`Runs.Exchange`). A block size that a client proposes is kept where it fits and
  never exceeded (`Runs.Propose`).
- **Confirmable messages** (`SendQueue`, `Reliability`). A state machine of sends, timer
  loops and replies; after every run each message has at most one outcome, the
  retransmission schedule is in closed form, a reply ends the message with its transaction
  id and no other (`Reliability.AnswerEnds`), and every message has ended within the
  MAX_TRANSMIT_WAIT of section 4.8.2 of RFC 7252 (`Reliability.GivesUp`).
- **Hash indexes and sorting** (`Links`, `HashCount`, `UtHash`, `StringTable`, `ListSort`). Handles
  and list nodes are heap objects. Every run of additions and deletions refines a map
  with insertion order, and keeps the chain length bound unless two expansions that followed
  each other were ineffective, which hash and operations decide (`UtHash.Play`); bottom-up merge sort on linked
  nodes is a stable sort that leaves the pointers consistent, also inside a hash table
  whose buckets it does not disturb (`UtHash.HashSort`); `hashtbl.c` refines a
  string map, also across resizing.
- **URIs and keys** (`HashKey`, `UriPath`, `UriOptions`, `Escapes`, `ResourceKeys`). Any list of
  values written with percent escapes, whichever bytes are escaped and in which case, is
  what the options carry (`Escapes.SplitSays`). The key of a
  registered path and the key of a request agree, and the byte streams they are made of
  agree exactly for paths without escapes and dot segments; the path is split, sent and
  received on the way (`ResourceKeys.SameKey`).
- **Targets** (`Targets`, `TargetLaws`, `TargetParser`, `TargetOptions`, `Strings`, `TargetRuns`).
  The return codes of the parser are characterised, and spellings of a host that differ in
  case are one target (`TargetLaws.CaseIgnored`). A target is
  split into options, sent, and rebuilt; for every target string the exact conditions for
  getting it back, and for the server to write only inside its buffers, are proved
  (`TargetRuns.Travel`).
- **Error responses** (`ErrorResponses`, `Dispatch`). Behind any messages of the dispatch loop
  the 4.02 response repeats exactly the Token and the unknown critical options, if and only
  if no elective option lies beyond the filter (`Dispatch.Answer`, `Dispatch.RepeatsExact`);
  compare section 5.4.1 of RFC 7252.
- **Number formats** (`Bytes`, `PseudoFloat`). Variable-length integers, and the pseudo
  floating point codes for all widths.

`Limits` holds concrete inputs on which a promise fails. The conditions that exclude
the whole family of such inputs are the if-and-only-if results named above.

## Reading the model

- The four header bytes of a message are fields of `Pdu`; the first four positions of
  the buffer stand for them. A ghost list `wire` names the options that the buffer holds;
  `Valid` ties it to the bytes.
- Integers are unbounded. Widths are written out where they matter: option numbers in
  filters (eight bits), the iterator's counter (eight bits), option numbers (sixteen
  bits), block numbers (twenty bits), ports (sixteen bits), key bytes.
- Clock values, random numbers, message sizes and the hash function are inputs.
- In `UtHash` the table header (bucket heads, counters, item count, flags) is a value that
  the methods take and return; the handles it points to are updated in place.

## Where code and documentation differ

The model follows the code.

- `coap_add_option` is documented for any message; adding to a list
  that is already open-ended writes behind the end marker, so that the option is never
  read (`Pdus.Pdu.AddOption`).
- `bits.h` says that reading a bit outside the vector gives 0; the code gives -1, which the
  option filter takes for "set" (`Iterators.OnlyTypePasses`).
- `write_option` says that it skips segments of one or two dots; it also skips every longer
  segment that begins with two dots (`UriOptions.StreamsAgree`).
- The client side of dIa does not drop the payload of an upload, so that the blocks of a
  reply are appended to it (`Runs.Exchange`).
- `coap_write_block_opt` promises that the block fits; it sets four bytes aside for an option
  that may take five with the end marker (`Limits.BlockTooBig`).
- `protected_strcat` is there to keep texts inside their buffers; it takes the length again
  after the copy and writes the terminating zero too far behind (`Strings.StrCatHolds`).

## Model

| member | source | states |
|---|---|---|
| `Bytes.Fls` | common/libcoap/encode.c:17-22 | the bit position found brackets the value between two neighbouring powers of two |
| `Bytes.FlsUnique` | common/libcoap/encode.c:17-22 | no other position brackets it |
| `Bytes.EncodeVarBytes` | common/libcoap/encode.c:33-48 | writes the shortest big-endian byte string of the value and returns its length |
| `Bytes.DecodeVarBytes` | common/libcoap/encode.c:24-31 | returns the value that the byte string denotes, in 32 bits |
| `Bytes.BigEndianJoin` | common/libcoap/encode.c:24-31 | the earlier bytes of a string count for more: two strings one behind the other denote the first number, moved up by the bytes of the second, plus the second |
| `Bytes.VarBytesDenote` | common/libcoap/encode.c:24-48 | decoding an encoded integer gives the integer back |
| `Bytes.VarBytesMinimal` | common/libcoap/encode.c:33-48 | no byte string for the same value is shorter, and one of equal length is the same string |
| `PseudoFloat.DownIsGreatest` | common/libcoap/encode.h:18-35 | for all widths n > e > 0 and every value up to MAX_VALUE, the rounded-down code denotes the greatest value of any code that is at most v |
| `PseudoFloat.UpIsLeast` | common/libcoap/encode.h:18-36 | the rounded-up code denotes the least value of any code that is at least v, including the carry of the mantissa into the exponent |
| `PseudoFloat.Gap` | common/libcoap/encode.h:18-36 | both codes are exact below the highest bit; otherwise each is less than 2^(e + ls) away from v and they are at most that far apart |
| `PseudoFloat.UpValue` | common/libcoap/encode.h:36-36 | the rounded-up code denotes the multiple of 2^(e + ls) at or next above v |
| `PseudoFloat.DecodeAtMost` | common/libcoap/encode.h:23-25 | no code denotes more than MAX_VALUE |
| `PseudoFloat.DecodeExact` | common/libcoap/encode.h:25-25 | a code below the highest bit denotes itself, any other its upper bits times two to the power of its lowest e bits |
| `PseudoFloat.MaxReached` | common/libcoap/encode.h:23-25 | the largest code denotes MAX_VALUE |
| `PseudoFloat.RoundTrip` | common/libcoap/encode.h:25-36 | re-encoding the value of a code, up or down, denotes the same value |
| `Bits.SetBReads` | common/libcoap/bits.h:32-39 | setting a bit that fits makes it read 1 and changes no other; one that does not fit changes nothing |
| `Bits.ClrBReads` | common/libcoap/bits.h:52-59 | clearing a bit that fits makes it read 0 and changes no other |
| `Options.SetHeadExact` | common/libcoap/option.h:33-47 | the setter macros announce the length they were given if and only if it is at most 255 |
| `Options.HeadFields` | common/libcoap/option.h:29-53 | the first byte of a written option holds the delta in its upper half and in its lower half the length or, from 15 bytes on, 15 with the rest of the length in a second byte; the access macros read delta, length and value back, and that byte is the end marker only for an empty option of delta 15 |
| `Options.ReadWire` | common/libcoap/option.h:29-69 | at the position of the k-th option of a list the macros read exactly that option and advance to the next |
| `Options.FencesReach` | common/libcoap/pdu.c:147-167 | the fence posts bring the option number to within 15 of the target |
| `Options.FencesFewest` | common/libcoap/pdu.c:147-167 | no other sequence of options that a reader hides, with deltas up to 14, does with fewer |
| `Options.FencesInvisible` | common/libcoap/option.c:42-68 | no number of fence posts changes what a reader decodes |
| `Options.AppendDecodes` | common/libcoap/pdu.c:145-188 | appending fence posts and option extends the decoded list by exactly that option, or by nothing if it is taken for a fence post |
| `Options.AllPasses` | common/libcoap/option.c:22-68 | the filter COAP_OPT_ALL hides fence posts and nothing else |
| `Options.KeptWhole` | common/libcoap/option.c:42-68 | reading with that filter keeps a list whole if and only if none of its options is empty with a number divisible by 14 |
| `Pdus.Pdu.constructor` | common/libcoap/pdu.c:42-55 | an empty valid message of the given size |
| `Pdus.Pdu.FindLast` | common/libcoap/pdu.c:120-136 | on a counted list the walk ends at the last option with its number; on an open-ended one it runs past the end marker |
| `Pdus.Pdu.WriteFences` | common/libcoap/pdu.c:147-167 | writes the fence posts and nothing before them, or finds that the option would not fit |
| `Pdus.Pdu.AddOption` | common/libcoap/pdu.c:108-203 | accepted if and only if in order and fitting with its fence posts; then the wire list is extended by fence posts and option, and the open-ended form is used from fifteen on; a rejected add leaves options and length as they were; on an open-ended list nothing that is added can be read |
| `Pdus.Pdu.AddData` | common/libcoap/pdu.c:205-220 | appends to the payload if and only if it fits; options are kept |
| `Pdus.Pdu.GetData` | common/libcoap/pdu.c:222-238 | returns exactly the payload |
| `Pdus.ReadWalk` | common/libcoap/net.c:745-781 | the receiver's walk finds a payload inside the datagram if and only if the datagram carries a list of options as its header announces it, and then stops at the end of the counted list, or behind the first byte that looks like the end marker |
| `Pdus.Receive` | common/libcoap/net.c:717-790 | a datagram that is too short or of another version is dropped; a malformed one of type CON or NON is answered with a reset; one that carries options becomes a valid message with those options up to the reader's stop, and no other yields a payload that begins inside it |
| `Pdus.DatagramCarries` | common/libcoap/pdu.c:169-188 | every valid message is sent as a datagram that carries its options and ends with its payload |
| `Pdus.BoundaryAgrees` | common/libcoap/net.c:745-781 | the receiver finds the payload where the sender put it if and only if no option of an open-ended list looks like the end marker |
| `Pdus.Deliver` | common/libcoap/net.c:717-790 | sending and receiving keeps options, payload, type, code and id |
| `Iterators.OptionIterator.constructor` | common/libcoap/option.c:25-40 | the iterator stands at the first option |
| `Iterators.OptionIterator.Next` | common/libcoap/option.c:49-77 | finds the next option that the filter accepts, and hands out what the specification of the whole iteration says |
| `Iterators.Collect` | common/libcoap/option.c:49-77 | the sequence of options that a caller's loop gets, in both list forms |
| `Iterators.EmitIsShown` | common/libcoap/option.c:49-77 | without a counter wrap-around, repeated calls hand out the accepted options in order, each once |
| `Iterators.EmitIsMore` | common/libcoap/option.h:155-161 | an accepted option in a place that is a multiple of 256 makes the iterator hand out more than the list holds |
| `Iterators.ReadingExact` | common/libcoap/option.c:25-77 | reading gives exactly the accepted options of the list if and only if none lies at or behind an end marker lookalike and none stands in a place that is a multiple of 256 |
| `Iterators.FindsFirst` | common/libcoap/option.c:49-77 | the search stops at the first accepted option and skips only refused ones |
| `Iterators.CheckOption` | common/libcoap/option.c:79-92 | finds the first option with the number if there is one and otherwise there is none, except that an empty open-ended list yields a bogus option 15 |
| `Iterators.SearchType` | common/libcoap/option.c:79-92 | a filter search ends at the first option of the number, or shows that none exists |
| `Iterators.OnlyTypePasses` | common/libcoap/option.c:84-85 | a one-number filter passes that number if it has a bit, and every number whose low byte is 24 or more |
| `Codec.EncodeShown` | common/libcoap/pdu.c:108-203 | decoding the wire form of an ordered option list gives the list back, in order and with every value |
| `Codec.AddAll` | common/libcoap/pdu.c:108-203 | adding a list of options succeeds if and only if its wire form and one spare byte fit, and then the message holds that form |
| `Codec.WriteThenRead` | common/libcoap/pdu.c:108-203 | round trip through the buffer: what is iterated is what was added if and only if nothing is behind a lookalike and no place is a multiple of 256 |
| `Codec.CloseEncode` | common/libcoap/pdu.c:145-188 | a list whose numbers follow each other within 14 has one wire option for each, and none looks like the end marker |
| `Codec.SendableReads` | common/libcoap/option.c:25-77 | every filter reads all of a counted list, and of a close list of fifteen |
| `Codec.Send` | common/libcoap/net.c:717-790 | such a list is written, sent and received if and only if it fits, and the receiver holds the same wire list |
| `Blocks.BlockReadsBack` | common/libcoap/block.h:30-52 | a written block option reads back as the same block if and only if its value is not zero or its delta is |
| `Blocks.ValueFields` | common/libcoap/block.h:30-52 | the option value holds the number above its lowest four bits, the more-bit in bit 3 and the size exponent in the lowest three, and fits into three bytes |
| `Blocks.GetBlock` | common/libcoap/block.c:21-38 | reads the first option of the type, or reports that there is none and zeroes the block |
| `Blocks.ChooseExact` | common/libcoap/block.c:56-94 | for up to 2^24 bytes: offset unchanged, more-bit set exactly when data is left, a reduced size is the largest that fits, and the chunk fits the space set aside |
| `Blocks.ChooseRefuses` | common/libcoap/block.c:56-86 | with room for the smallest block only a request beyond the data is refused; the code is -2 for such a request, and -3 for a lack of room |
| `Blocks.ChooseWraps` | common/libcoap/block.c:56-75 | with fewer than four bytes left the unsigned difference is huge, and every block is taken to fit |
| `Blocks.ReducedExact` | common/libcoap/block.c:80-93 | the reduced block has the same offset, a 20-bit number and the largest power-of-two size within the space |
| `Blocks.Negotiate` | common/libcoap/block.c:56-94 | the block chosen step by step is the one specified |
| `Blocks.WriteBlockOpt` | common/libcoap/block.c:40-102 | adds the chosen block as the last option, or refuses with the code's error |
| `Blocks.AddBlock` | common/libcoap/block.c:104-116 | adds exactly the bytes of the block, if they fit |
| `Transfer.PutBlock` | common/libcoap/block.c:40-116 | a prepared message ends up holding the option of the specified block at the wanted offset, and carries the block if and only if option, end marker and bytes fit into the free space |
| `Transfer.NextAnswers` | common/libcoap/block.c:56-94 | the block that is sent begins where the one asked for does, has the right more-bit and bytes for which space is set aside, and if it is smaller than the one asked for it is the largest that fits |
| `Transfer.CarriesIff` | common/libcoap/block.c:104-116 | the message carries its block if and only if option and bytes fit, otherwise it carries no bytes |
| `Transfer.LastIsFirst` | common/libcoap/block.c:21-38 | a block option that was added last is the one the receiver finds |
| `Transfer.DiaRequest.Request` | common/libdIa/dIa.c:1494-1507 | the payload goes out whole if it fits, else its first block, and all of it is kept |
| `Transfer.DiaRequest.CaseA` | common/libdIa/dIa.c:440-468 | with a block asked for, it is sent from the kept reply, which is dropped exactly with its last block; without a kept reply the option is a size proposal |
| `Transfer.DiaRequest.CaseB` | common/libdIa/dIa.c:474-507 | a received block is appended; with more to follow the next number is asked for, else the collected bytes are complete |
| `Transfer.DiaRequest.CaseC` | common/libdIa/dIa.c:751-776 | the block the server asks for is sent from the kept payload, perhaps in a smaller size at the same offset |
| `Transfer.DiaRequest.CaseD` | common/libdIa/dIa.c:778-815 | a received block is appended to what is kept; with more to follow the next number is asked for, else all of it is handed over |
| `Transfer.OnlyBlock` | common/libdIa/dIa.c:441-474 | a message that carries one block option does not carry the other, so that the earlier case falls through |
| `Transfer.DiaRequest.HndRequest` | common/libdIa/dIa.c:412-507 | without Token rejected; case A, then case B: the outcome and the new state for a request with either block option, with a size proposal and with none |
| `Transfer.DiaRequest.HndResponse` | common/libdIa/dIa.c:704-815 | without Token dropped; case C, then case D: the outcome and the new state for a response with either block option and with none |
| `Transfer.DiaRequest.Respond` | common/libdIa/dIa.c:1608-1624 | the reply goes out whole if it fits, else as a first block, and is kept; that block has exactly the size that the client proposed, or 1024 bytes without a proposal, if the message has room for so many, and else the largest size that fits |
| `Transfer.FirstFits` | common/libcoap/block.c:56-94 | the first block of data that exceeds the message has the size asked for if that fits, and else the largest that does |
| `Runs.AfterFollows` | common/libdIa/dIa.c:489-500 | the block after one with more to follow begins where that one ends, inside the data |
| `Runs.ArrivesExact` | common/libdIa/dIa.c:447-453 | what arrives of the data from a block on is the rest of the data if every block from there on fits, and otherwise shorter |
| `Runs.DeliveredExact` | common/libdIa/dIa.c:447-453 | a transfer hands over the data if and only if it fits into one message or no block is lost, a condition on the message sizes, option counts and the length alone |
| `Runs.UsuallySafe` | common/libcoap/block.c:62-62 | nothing is lost of up to 65536 bytes, nor if no message has fourteen wire options |
| `Runs.FitsUnless` | common/libcoap/block.c:62-62 | a block can fail to fit only behind fourteen wire options, with an option value of three bytes, and when it takes all the space set aside for it |
| `Runs.UploadRound` | common/libdIa/dIa.c:440-507 | one round of an upload through both handlers appends what came with the block to the server's buffer, and the client sends the specified next block |
| `Runs.Upload` | common/libdIa/dIa.c:440-507 | for every payload of up to 2^24 bytes and all message sizes with room for a 16-byte block, with up to fourteen wire options, the run through the handlers ends and the server hands over exactly the client's bytes if and only if no block is lost, whatever the block sizes; blocks are used if and only if the payload exceeds the space of the first message |
| `Runs.DownloadRound` | common/libdIa/dIa.c:751-815 | one round of a download appends what came with the block to the client's buffer, the server sends the specified next block and keeps its reply until the last one |
| `Runs.Download` | common/libdIa/dIa.c:751-815 | the reply chain hands over what the client had kept followed by what arrives, which is exactly the server's bytes if and only if no block is lost, and the server's state is freed; blocks are used if and only if the reply exceeds the space of its first message, and those sent are the ones specified for the proposed size |
| `Runs.BlocksShrink` | common/libcoap/block.c:56-94 | no block of a transfer is larger than the one it begins with, nor than the block before it |
| `Runs.Propose` | common/libdIa/dIa.c:440-468 | a request that proposes a block size, and the reply, through both handlers: without a stored reply the first block has the proposed size if its message has room for it, and no block is larger than proposed; the client gets the reply if and only if no block is lost |
| `Runs.Exchange` | common/libdIa/dIa.c:778-815 | a request with a reply: each side gets what was sent if and only if no block is lost, except that when both exceed the space of their first messages the client's callback gets upload and reply one behind the other |
| `SendQueue.Context.InsertNode` | common/libcoap/net.c:91-122 | insertion keeps time order, behind nodes of equal time |
| `Reliability.InsertAt` | common/libcoap/net.c:91-122 | the node is put in at one position, nodes that are not later stay before it and later ones come behind it, and nothing else changes |
| `SendQueue.Context.SendConfirmed` | common/libcoap/net.c:545-598 | the message is transmitted and queued with its random timeout and its transaction id |
| `Reliability.TimeoutRange` | common/libcoap/net.c:559-567 | the timeout is two seconds and as many of 256 parts of a second as the random byte says, so that every random byte gives its own |
| `SendQueue.Context.RetransmitNode` | common/libcoap/net.c:618-666 | retransmission with doubled interval, or one timeout report after four |
| `SendQueue.Context.NextTimer` | common/libdIa/dIa.c:1020-1029 | the timer loop ends and has the effect of firing every due node |
| `SendQueue.Context.RemoveFromQueue` | common/libcoap/net.c:807-843 | tells whether a node with the id is queued, and has the effect on queue and history of the specified reply, for which see the next four rows |
| `Reliability.ReplyFirst` | common/libcoap/net.c:807-843 | a reply takes the first node with its id out of the queue and answers its message |
| `Reliability.KeepsId` | common/libcoap/net.c:545-666 | after any run a queued node has the one transaction id under which its message was sent, however often it was retransmitted |
| `Reliability.AnswerEnds` | common/libcoap/net.c:1124-1140 | after any run in which the message is still queued and no other queued message has its id, the reply with that id takes it out of the queue and ends its story with the answer; queue and stories of all others stay as they are |
| `Reliability.StrayReply` | common/libcoap/net.c:807-843 | after any run a reply with an id under which no queued message was sent changes nothing |
| `SendQueue.Fire` | common/libcoap/net.c:618-666 | every round of the timer loop lowers the sum of the remaining transmissions |
| `SendQueue.InsertWork` | common/libcoap/net.c:91-122 | insertion adds exactly the node's share to that sum |
| `Reliability.InsertKeeps` | common/libcoap/net.c:91-122 | insertion keeps the queue sorted and free of duplicates, and adds only the new message |
| `Reliability.SendKeeps` | common/libcoap/net.c:545-598 | sending keeps the invariant of queue and history |
| `Reliability.FireKeeps` | common/libcoap/net.c:618-666 | so does every retransmission or give-up |
| `Reliability.ReplyKeeps` | common/libcoap/net.c:807-843 | so does every received ACK or RST |
| `Reliability.DrainKeeps` | common/libdIa/dIa.c:1020-1029 | the timer loop keeps the invariant and leaves only nodes strictly later than now |
| `Reliability.RunKeeps` | common/libcoap/net.c:1091-1199 | every state reachable by sends, timer loops and replies satisfies the invariant |
| `Reliability.ExactlyOnce` | common/libcoap/net.c:1091-1199 | after any run each message has left the queue with exactly one outcome, answer or timeout, and nothing after it, or is queued once with at most five transmissions, or was never sent; a timeout comes only after five |
| `Reliability.Schedule` | common/libcoap/net.c:559-666 | after any run each queued message is due at first transmission + timeout * (2^(count + 1) - 1) with 2048 <= timeout <= 3068, within 93 seconds, and no transmission came before its time |
| `Reliability.TransmitTimes` | common/libcoap/net.c:545-666 | after any run the first transmission of each message is at the time of its send, and every later one at the time of a timer loop |
| `Reliability.GivesUp` | common/libdIa/dIa.c:1020-1029 | after any run, a timer loop 93 seconds or more after a message's first transmission leaves it out of the queue with its one outcome |
| `Reliability.ReplyKeepsOthers` | common/libcoap/net.c:807-843 | a reply leaves all other messages in the queue in the same order |
| `Reliability.DrainKeepsOthers` | common/libdIa/dIa.c:1020-1029 | the timer loop leaves messages that are not due as they were, in the same order |
| `Reliability.DrainLosesNothing` | common/libdIa/dIa.c:1020-1029 | no queued message is lost by the timer loop: it stays queued or its timeout is reported |
| `ListSort.SortPermutes` | common/libcoap/utlist.h:156-212 | the passes permute the list |
| `ListSort.SortSorts` | common/libcoap/utlist.h:156-212 | from sorted runs of length insize the passes produce a sorted list, for every total preorder |
| `ListSort.SortStable` | common/libcoap/utlist.h:156-212 | equivalent elements keep their order |
| `ListSort.PassSorts` | common/libcoap/utlist.h:165-206 | a pass over sorted runs of length k leaves sorted runs of length 2k |
| `ListSort.MergeRuns` | common/libcoap/utlist.h:170-200 | the relinking loop merges the two runs at the pointers into the output list |
| `ListSort.OnePass` | common/libcoap/utlist.h:165-211 | a pass over the linked nodes produces the specified list and ends the sort exactly when one merge covered it |
| `ListSort.SortLinks` | common/libcoap/uthash.h:760-836 | the passes shared by both sorts leave the links of the specified list, closed in the form of the one or the other |
| `ListSort.DlSort` | common/libcoap/utlist.h:156-212 | the linked list is a stable sorted permutation of the given one, and next, prev, head and tail are consistent |
| `HashCount.IdealIsCeiling` | common/libcoap/uthash.h:686-721 | the ideal chain length is the number of items per bucket, rounded up |
| `HashCount.NoExcess` | common/libcoap/uthash.h:731-735 | the count of items beyond the ideal length is zero if and only if every chain is within it |
| `HashCount.ExcessBound` | common/libcoap/uthash.h:731-735 | that count is at most the number of items, and the others fill no more than the ideal length in every bucket |
| `HashCount.LogStep` | common/libcoap/uthash.h:746-751 | over the history of a table the count of ineffective expansions is that of the last ones in a row, and the second in a row is what inhibits further ones |
| `HashCount.IdealAtMostTen` | common/libcoap/uthash.h:652-663 | at every doubling of a balanced table the ideal chain length is at most ten |
| `HashCount.ExpandBalances` | common/libcoap/uthash.h:717-741 | redistribution leaves every chain within its limit and multipliers plus full buckets at most the number of buckets |
| `HashCount.AddBalances` | common/libcoap/uthash.h:652-663 | an addition that asks for no expansion keeps the balance |
| `HashCount.DeleteBalances` | common/libcoap/uthash.h:666-676 | every deletion keeps the balance |
| `UtHash.Find` | common/libcoap/uthash.h:84-95 | finds the element with the key if and only if there is one |
| `UtHash.FindInBucket` | common/libcoap/uthash.h:638-649 | searches one chain completely |
| `UtHash.Iterate` | common/libcoap/uthash.h:893-899 | visits every element once, in application order |
| `UtHash.ExpandBuckets` | common/libcoap/uthash.h:707-753 | doubling keeps all elements, puts each in the bucket of its hash and keeps item count and tail; nonideal_items is the sum of what the new chains have beyond the ideal length; an expansion with all chains within it sets ineff_expands to 0 and does not inhibit; noexpand is set only by an expansion that leaves more than half of the items beyond, behind another such |
| `UtHash.Redistribute` | common/libcoap/uthash.h:721-741 | the two loops move every handle to its new bucket and lose none, set the multiplier of every chain beyond the ideal length, and count the items beyond it |
| `UtHash.AddToBucket` | common/libcoap/uthash.h:652-663 | the handle enters its chain, the table is expanded if and only if that chain has reached its limit and expansion is not inhibited, and is balanced again if expansion is not inhibited |
| `UtHash.Add` | common/libcoap/uthash.h:152-176 | a fresh key comes last in application order; every check of the table holds again |
| `UtHash.UnlinkChain` | common/libcoap/uthash.h:666-676 | the chain without the handle is properly linked |
| `UtHash.UnlinkOrder` | common/libcoap/uthash.h:205-221 | the application order without the handle is properly linked, head and tail included |
| `UtHash.Delete` | common/libcoap/uthash.h:194-227 | the survivors keep their order, every check of the table holds again, the count of one bucket and nothing else in the counters falls by one, and the last element takes the table with it |
| `UtHash.AddExtends` | common/libcoap/uthash.h:152-176 | as a map, an addition binds the key and changes no other |
| `UtHash.DeleteRemoves` | common/libcoap/uthash.h:194-227 | as a map, a deletion removes the key and nothing else |
| `UtHash.ChainResidents` | common/libcoap/uthash.h:721-741 | a chain that holds the elements of its bucket is as long as there are elements with such a hash |
| `UtHash.SpreadOut` | common/libcoap/uthash.h:721-741 | after an expansion the counters are those of the elements, spread over the buckets by their hashes |
| `UtHash.ShapeGrows` | common/libcoap/uthash.h:652-663 | an addition changes counters, count of ineffective expansions and inhibition as hash and elements determine it |
| `UtHash.FinalIsMap` | common/libcoap/uthash.h:152-227 | the survivors of a run, as a map, are what the updates and removals make of the empty map |
| `UtHash.ChainBound` | common/libcoap/uthash.h:251-301 | while expansion is not inhibited every chain has at most 10 * (expand_mult + 1) elements; bucket counts sum to the number of elements; each element is in the one chain of its hash |
| `UtHash.Play` | common/libcoap/uthash.h:152-227 | any run of additions and deletions from the empty table ends in a table that passes all checks and holds the survivors in insertion order; as a map they are the fold of the operations; counters, ineff_expands and noexpand are those that hash and operations determine, and unless two expansions that followed each other left more than half of their items beyond the ideal length, every chain is within its limit |
| `UtHash.HashSort` | common/libcoap/uthash.h:760-836 | on a table that passes all checks: the new application order is a stable sorted permutation, all checks hold again with the same chains, and only the tail of the table has changed |
| `StringTable.PutStands` | common/libdIa/hashtbl.c:109-135 | insertion into the buckets is an update of the map, for any hash function and positive size |
| `StringTable.CutStands` | common/libdIa/hashtbl.c:137-156 | removal from the buckets removes the key from the map |
| `StringTable.NodesSited` | common/libdIa/hashtbl.c:109-135 | every node is in the bucket that the hash function says, holds the map's value for its key, and is the only one with it |
| `StringTable.HashTbl.constructor` | common/libdIa/hashtbl.c:72-89 | an empty map |
| `StringTable.HashTbl.Get` | common/libdIa/hashtbl.c:158-172 | the map's value for the key, if any |
| `StringTable.HashTbl.Insert` | common/libdIa/hashtbl.c:109-135 | the map is updated at the key: overwrite or new node |
| `StringTable.HashTbl.Remove` | common/libdIa/hashtbl.c:137-156 | the key is removed, and the result tells whether it was there |
| `StringTable.HashTbl.Resize` | common/libdIa/hashtbl.c:173-198 | every node moves to its new bucket and the map stays the same |
| `HashKey.Hash` | common/libcoap/hashkey.c:14-28 | the key bytes are updated in place to the fold of the string |
| `HashKey.FoldConcat` | common/libcoap/hashkey.c:14-28 | hashing strings one after the other is hashing their concatenation |
| `HashKey.OneByteDiffers` | common/libcoap/hashkey.c:14-28 | strings that differ in one byte have different keys |
| `HashKey.FoldInjective` | common/libcoap/hashkey.c:14-28 | two different keys stay different, whatever is hashed behind them |
| `HashKey.WellKnownKey` | common/libcoap/pdu.h:34-38 | the key of the two segments of the well-known path is the constant that the header gives for it |
| `UriPath.ParseIterator.Next` | common/libcoap/uri.c:538-576 | delivers the next segment, and what is left behind it strictly shrinks |
| `UriPath.SegmentsJoined` | common/libcoap/uri.c:538-576 | all segments together are the string before the first delimiter without its separators |
| `Escapes.SegmentsDelimited` | common/libcoap/uri.c:538-576 | any list of segments without separators and delimiters, written with a separator before each and perhaps followed by a delimiter and more, is delivered as that list, empty segments included except at the end |
| `Escapes.SegmentsPlain` | common/libcoap/uri.c:538-576 | the same without the separator in front |
| `UriPath.Split` | common/libcoap/uri.c:305-323 | the handler is called with exactly the segments, in order |
| `UriPath.HashPath` | common/libcoap/uri.c:502-516 | the key of a path is the hash of the path without slashes, up to a query or fragment |
| `UriOptions.CheckSegment` | common/libcoap/uri.c:227-245 | tells whether the loop runs off the segment, which happens exactly if it ends in an incomplete escape that the byte behind it completes; otherwise returns the decoded length, or -1 exactly for a bad escape |
| `UriOptions.StaysOn` | common/libcoap/uri.c:227-245 | it does not happen in front of a byte that is no hexadecimal digit |
| `UriOptions.DecodeSegment` | common/libcoap/uri.c:205-220 | writes the decoded segment and nothing before it |
| `UriOptions.DecodedLength` | common/libcoap/uri.c:205-245 | decoding never lengthens, and keeps the length only without escapes |
| `Escapes.DecodedSpelt` | common/libcoap/uri.c:182-220 | a string is well-escaped and decoded to given bytes if and only if it spells them: every byte as itself or as a percent sign with its two hexadecimal digits in upper or lower case, the percent sign only so |
| `UriOptions.MakeDecodedOption` | common/libcoap/uri.c:266-286 | writes the option with the decoded segment, or refuses a bad escape or a full buffer |
| `UriOptions.FitsExact` | common/libcoap/uri.c:266-286 | what is accepted fails to fit exactly if it needs a two-byte header and there is room for one byte only, or has more than 255 bytes |
| `UriOptions.SplitToOptions` | common/libcoap/uri.c:348-375 | the buffer holds one option per segment that is written, with the decoded bytes, and the count and the space left are right |
| `UriOptions.TakenStep` | common/libcoap/uri.c:330-346 | segment by segment, each one that is to be written and for which the writer finds room adds its decoded value, whatever happened to those before it |
| `UriOptions.SafeWithRoom` | common/libcoap/uri.c:330-360 | with room for all options, each of at most 255 bytes, every segment to be written is written |
| `Escapes.SplitSays` | common/libcoap/uri.c:348-375 | from a path or query whose segments spell given values, with room for them, the options written carry exactly those values |
| `Escapes.EscapedSurvives` | common/libcoap/uri.c:348-375 | every list of non-empty byte strings of at most 255 bytes can be written so, whichever further bytes are escaped and in which case, and is what the options then carry |
| `UriOptions.SkippedExact` | common/libcoap/uri.c:338-340 | the segments skipped are the empty one, the single dot, and those that begin with two dots |
| `UriOptions.StreamsAgree` | common/libcoap/uri.c:330-360 | the options of a path carry the bytes its key is made of if and only if no segment has an escape, is a dot or begins with two dots |
| `ResourceKeys.ReadValues` | common/libcoap/examples/client.c:720-730 | the client's loop reads the values back from the buffer |
| `ResourceKeys.SplitValues` | common/libcoap/examples/client.c:720-730 | coap_split_path into a buffer with room, and the loop over it, deliver the values of the path |
| `ResourceKeys.RequestClose` | common/libcoap/examples/client.c:720-730 | a request with at least one path value between its other options needs no fence posts |
| `ResourceKeys.HashRequestUri` | common/libcoap/resource.c:243-257 | the key of a request is the hash of the Uri-Path values that the iterator hands out |
| `ResourceKeys.RequestStream` | common/libcoap/resource.c:243-257 | for every request that can be sent with the options of a path the server hashes the path's own bytes if and only if the path is clean |
| `ResourceKeys.SameKey` | common/libcoap/resource.c:178-178 | the client splits the path, fills and sends a message, accepted if and only if it has room; a clean path gives the server the same key for the registered resource and for the request |
| `ErrorResponses.CheckCritical` | common/libcoap/net.c:329-362 | the verdict and the filter are those of the option list, whatever the list form |
| `ErrorResponses.BadExact` | common/libcoap/net.c:336-349 | an option is bad if and only if its number is odd and the bit of its low byte is not set among the known ones, be it clear or outside the vector |
| `ErrorResponses.CheckMeans` | common/libcoap/net.c:329-362 | for numbers below 256, the check fails exactly when an unknown critical option is present, and the filter gains exactly those of their numbers that have a bit in it |
| `ErrorResponses.CheckExact` | common/libcoap/net.c:329-362 | for options with any numbers, the check fails exactly when an unknown critical option is present, and the filter gains the low bytes of those before the first one whose low byte has no bit in it, where the check ends |
| `ErrorResponses.DispatchStarts` | common/libcoap/net.c:1101-1101 | the filter of the dispatch loop begins without unwanted bits |
| `ErrorResponses.CheckKeeps` | common/libcoap/net.c:1153-1160 | every check, of any options, leaves only Token and unknown critical numbers in the accumulated filter |
| `ErrorResponses.ResponseKeeps` | common/libcoap/net.c:877-883 | so does every error response |
| `ErrorResponses.CopiedReads` | common/libcoap/net.c:877-883 | the copy filter reads as the one given, except that Content-Type is out and the Token in |
| `ErrorResponses.FilterExact` | common/libcoap/net.c:877-883 | whatever was accumulated, the filter picks from a request exactly the Token, its unknown critical options and those with numbers of 24 and more |
| `ErrorResponses.FewPosts` | common/libcoap/pdu.c:147-167 | options numbered up to 23 need at most one fence post |
| `ErrorResponses.EstimateSuffices` | common/libcoap/net.c:858-891 | the size estimate has room for all options and the phrase with up to three fence posts |
| `ErrorResponses.EstimateExact` | common/libcoap/net.c:858-891 | the estimate is the exact space for options, their end and the phrase plus three bytes, or four with a phrase, less one for every fence post |
| `ErrorResponses.NewErrorResponse` | common/libcoap/net.c:853-911 | the response has the request's id, the right type and code, exactly the copied options in order and the phrase as payload; it fails exactly beyond the maximum size |
| `Dispatch.CopiesUnknowns` | common/libcoap/net.c:880-903 | the options copied are the Token, the unknown critical options and those with numbers of 24 and more, in order with their values |
| `Dispatch.RepeatsExact` | common/libcoap/net.c:880-903 | these are the Token and the unknown critical options if and only if no elective option has a number of 24 or more |
| `Dispatch.OrdinaryAnswerable` | common/libcoap/net.c:853-911 | for numbers up to 23 and at most twelve options to copy none is dropped, and exactly Token and unknown critical options are copied |
| `Dispatch.Refuse` | common/libcoap/net.c:1153-1177 | a confirmable request with unknown critical options is answered by 4.02 with exactly the options to copy, whatever an accumulated filter holds; others get no such response, and the filter is the specified one |
| `Dispatch.FilterAccumulates` | common/libcoap/net.c:1101-1177 | behind any messages of a dispatch loop the filter holds nothing but the Token and numbers of unknown critical options |
| `Dispatch.DispatchFilter` | common/libcoap/net.c:1101-1177 | the loop over the receive queue leaves the filter that is the fold over the messages |
| `Dispatch.Answer` | common/libcoap/net.c:1101-1177 | the response to a request is the same behind any messages of the same dispatch loop |
| `Targets.DecimalDenotes` | common/libdIa/dIa.c:1177-1184 | reading a printed number gives the number back, and no printed number of several digits begins with a zero |
| `TargetParser.ParseUri` | common/libdIa/dIa.c:1081-1229 | the pointer loops compute the specified components and code, for every string, with the second pointer left inside a bracketed address |
| `TargetParser.ScanHost` | common/libdIa/dIa.c:1152-1165 | finds the end of the host and turns it to lower case, for which see `TargetLaws.HostInLowerCase` |
| `TargetLaws.HostInLowerCase` | common/libdIa/dIa.c:1126-1165 | the host behind the first colon and two slashes is an address in brackets as it stands, or a name without bytes from 0x41 to 0x5A, each byte that of the string or, for one of those, 32 more |
| `TargetLaws.CaseIgnored` | common/libdIa/dIa.c:1126-1165 | two targets that differ only in the case of the letters of a host name parse to the same result, whatever stands before and behind the host |
| `TargetLaws.SchemeFirst` | common/libdIa/dIa.c:1126-1132 | the host begins behind the first colon and two slashes |
| `TargetLaws.SchemeMissing` | common/libdIa/dIa.c:1126-1130 | the code -2 is returned if and only if the string does not begin with a slash and has no colon with two slashes, and then nothing is filled in |
| `TargetLaws.HostMissing` | common/libdIa/dIa.c:1134-1165 | the code -3 is returned if and only if what follows them cannot begin a host |
| `Targets.ParsesRendered` | common/libdIa/dIa.c:1081-1229 | parsing a rendered target gives its components back if and only if it is not a query right behind a host without port and path, which is overlooked |
| `Targets.ParsesWritten` | common/libdIa/dIa.c:1081-1229 | in whatever case the host name is written, and however the port, with leading zeros or in spite of being the default, a target with a host parses to its components, except for the overlooked query |
| `Targets.DefaultPortDropped` | common/libdIa/dIa.c:1172-1184 | a target that names the default port parses to what it would without |
| `TargetOptions.JoinTokens` | common/libdIa/dIa.c:1291-1301 | splitting with strsep and joining again gives the string back |
| `TargetOptions.TokensFree` | common/libdIa/dIa.c:1291-1301 | no token contains the separator |
| `TargetOptions.ValuesSplit` | common/libdIa/dIa.c:1272-1319 | the Uri-Path values are the parts of the path between slashes, the Uri-Query values those of the query between ampersands, and the bytes of the Uri-Port value denote the port |
| `TargetOptions.SplitTokens` | common/libdIa/dIa.c:1291-1319 | the strsep loop delivers the tokens |
| `TargetOptions.QuerySurvives` | common/libdIa/dIa.c:512-534 | the server gathers the client's query if and only if it does not begin with an ampersand, and otherwise a shorter one |
| `TargetOptions.PortSurvives` | common/libdIa/dIa.c:548-553 | ports of two bytes are read back |
| `TargetOptions.ShortPortLost` | common/libdIa/dIa.c:548-553 | a port of one byte is not read back, whatever follows it |
| `TargetOptions.SelectBlock` | common/libdIa/dIa.c:541-562 | a one-number filter gives exactly the values that the client added under that number |
| `TargetOptions.TargetSurvives` | common/libdIa/dIa.c:536-579 | the rebuilt text is the client's target if and only if it fits into the server's buffers and its query does not begin with an ampersand; the requesting entity arrives |
| `TargetRuns.BuildOptions` | common/libdIa/dIa.c:1253-1328 | the options added are those specified for the components |
| `TargetRuns.ClientNear` | common/libdIa/dIa.c:1253-1328 | they are in order, need no fence posts and none can be taken for the end marker |
| `Strings.StrCatHolds` | common/libdIa/dIa.c:380-387 | appending extends the text as far as there is room, and the zero lands twice as far behind it |
| `Strings.Buffer.Append` | common/libdIa/dIa.c:380-387 | protected_strcat byte by byte, and the position of its zero |
| `Strings.Buffer.Cat` | common/libdIa/dIa.c:380-387 | keeps the buffer equal to what it holds of the pieces, and the note whether all zeros have landed inside exact |
| `Strings.LandsInside` | common/libdIa/dIa.c:380-387 | the zero of the next call lands inside the buffer if and only if the text so far and twice the piece fit |
| `Strings.InsideShort` | common/libdIa/dIa.c:380-387 | if all zeros land inside, nothing was cut off |
| `TargetRuns.GatherQuery` | common/libdIa/dIa.c:514-534 | query and requesting entity are gathered from the specified pieces, each in its buffer |
| `TargetRuns.IdSurvives` | common/libdIa/dIa.c:412-427 | the transaction id that the server reads from the Token is the one that the client printed |
| `TargetRuns.ServerTarget` | common/libdIa/dIa.c:412-579 | the transaction id is read from the Token and the target assembled as specified, every part and the whole cut to its buffer, and all writes stay inside the buffers if and only if the option values are contained |
| `TargetRuns.HarmlessIntact` | common/libdIa/dIa.c:512-579 | if all writes stay inside, nothing of the target is cut off, so that only a leading ampersand is lost |
| `TargetRuns.HalfHarmless` | common/libdIa/dIa.c:512-579 | targets that take no more than half of each buffer keep all writes inside |
| `TargetRuns.Travel` | common/libdIa/dIa.c:1253-1328 | every target string, from its components to options, message and target: accepted if and only if the options fit; the writes of the server stay inside its buffers if and only if the target is harmless, and then transaction id, content type and entity arrive and the target that names the components comes back if and only if its query does not begin with an ampersand |
| `TargetRuns.TravelUnchanged` | common/libdIa/dIa.c:512-579 | a target in the rebuilt form comes back letter by letter under the same conditions, except that a default port it names is dropped |
| `Limits.LongValue` | common/libcoap/option.h:41-47 | a value of 256 bytes is announced as empty |
| `Limits.LoneOption` | common/libcoap/pdu.c:147-167 | a lone option numbered 14 * m + 2 stands behind m fence posts |
| `Limits.ReadTwice` | common/libcoap/option.c:49-77 | such an option is handed out more than once when m + 1 is a multiple of 256 |
| `Limits.ReadTwiceAt3572` | common/libcoap/option.c:49-77 | a lone option numbered 3572 is handed out more than once |
| `Limits.Lookalike` | common/libcoap/pdu.h:185-185 | an empty option of delta 15 at the head of an open-ended list hides everything |
| `Limits.ZeroBlock` | common/libcoap/block.h:30-49 | the block that encodes to no bytes is read with its header as number |
| `Limits.BothInBlocks` | common/libdIa/dIa.c:778-815 | a request and a reply of 100 bytes in messages of 100: the client is handed both, one behind the other |
| `Limits.BlockTooBig` | common/libcoap/block.c:62-62 | block 4096 of 1024 bytes, behind fourteen wire options and in 1028 free bytes, does not fit behind its option |
| `Limits.UploadWithHole` | common/libdIa/dIa.c:447-453 | an upload of 2^24 bytes in messages of fourteen Tokens and 1028 free bytes does not deliver the bytes |
| `Limits.StrayZero` | common/libdIa/dIa.c:380-387 | a host of 51 bytes writes position 102 of a buffer of 101 |
| `Limits.HostOf51` | common/libdIa/dIa.c:544-547 | no target with such a host keeps all writes inside |
| `Limits.HalfEscape` | common/libcoap/uri.c:233-240 | a segment that ends in a percent sign and a digit, with a digit behind it in memory, makes the check run off |
| `Limits.ElectiveRepeated` | common/libcoap/net.c:880-903 | an elective option numbered 26 is repeated in a 4.02 response |
| `Limits.DotPath` | common/libcoap/uri.c:330-346 | a path of a single dot is in the resource's key and not in the request's |
| `Limits.LostAmpersand` | common/libdIa/dIa.c:526-534 | a query of a single ampersand does not arrive |

## Left out

- Sockets, select and poll loops, address lookup, clock reading and random number generation: they appear as inputs only.
- Lost, repeated or reordered datagrams in block transfers: each message of a run is delivered once and in order. Retransmission itself is modelled in `SendQueue`.
- `copy_options`: which options a response copies is a parameter of a run (`Runs.Plan`), with the room left for a block as its condition.
- The lookup of requests by transaction id and peer (`search_tid`, `getBox`): a run has one client request and one server request.
- Pdus.Pdu.AddOption: for values of more than 255 bytes acceptance is stated, the resulting list is not, since the header announces another length (`Options.SetHeadExact`).
- Block transfers with fewer than four free bytes in a message: `coap_write_block_opt` then takes every block to fit (`Blocks.ChooseWraps`); the runs ask for room for a 16-byte block.
- The linked list of the send queue: the queue is a sequence that the methods reassign, so pointer aliasing between nodes is not modelled.
- StringTable.HashTbl: the chains are sequences in a field, so sharing of nodes is not modelled; a stored null pointer cannot be told from a missing key in the original.
- UtHash.Play: the table header is a value, so updates of its fields in place are not modelled.
- `LL_SORT`: the same merge sort on single links.
- Bloom filters, `HASH_SELECT`, `HASH_CLEAR` and the quality of the hash functions.
- UriOptions.SplitToOptions: asks that what is written also fits with a two-byte header, because the writer counts one header byte only; the string is taken to be zero-terminated.
- Strings.Buffer: a zero that misses its buffer is not written; what it hits on the stack is not modelled.
- TargetRuns.ServerTarget: for option values with zero bytes only the bytes of each call are stated (`Strings.StrCat`), not the resulting texts.
- TargetRuns.Travel: ports below 256, which never arrive (`TargetOptions.ShortPortLost`), query tokens with the entity prefix, values of more than 255 bytes and more than fifteen options are not covered; a query token is compared with the entity prefix inside its own bytes only; targets through a proxy are not covered.
- TargetOptions.TargetSurvives: ports below 256 are not covered, since the server reads a byte that is not part of the value (`TargetOptions.ShortPortLost`).
- Targets.ParsesRendered: a bracketed address that begins with a question mark is not covered; the second pointer then stands on that question mark. `TargetParser.ParseUri` does cover it.
- Port numbers are read as unbounded integers before they are cut to sixteen bits, so overflow of the intermediate sum is not modelled.
- PseudoFloat.Up: shifts are unbounded, which for eight-bit codes with four exponent bits agrees with 32-bit arithmetic up to MAX_VALUE.
- ErrorResponses.NewErrorResponse: asks for at most fourteen wire options before the last and three fence posts; `Dispatch.OrdinaryAnswerable` shows this for numbers up to 23 and twelve options.
- ErrorResponses.CheckMeans: option numbers of 256 and more, of which the filter sees the low byte only, are not covered; `ErrorResponses.CheckExact` covers all.
- ErrorResponses.FilterExact: option numbers of 256 and more are not covered.
- Dispatch.CopiesUnknowns: the same.
- Dispatch.Refuse: covers requests with numbers below 256 whose options to repeat can all be added to the response; `Dispatch.OrdinaryAnswerable` shows this for numbers up to 23 and twelve options.
- Dispatch.Answer: the same.
- Iterators.CheckOption: covers the types below 24 except 0 and 14, for which a filter is a filter for fence posts; the callers in the modelled files use no others.
- Iterators.SearchType: the same.
- Codec.AddAll: no option is added once the list is open-ended; `Pdus.Pdu.AddOption` states that such an option can never be read.
- Codec.WriteThenRead: the same.
- Blocks.WriteBlockOpt: the same.
- Transfer.PutBlock: the message has a Token, as every dIa message that is not rejected, no option behind the block options, and no end marker lookalike if it has fourteen wire options.
- Transfer.DiaRequest: the handlers and cases are stated for responses of that kind.
- Codec.Send: covers counted lists, and close lists of at most fifteen options.
- UriOptions.CheckSegment: what the original reads once its length has run below zero is not modelled.
- UriOptions.SafeWithRoom: segments that stand for more than 255 bytes are not covered, since the header announces another length (`Options.SetHeadExact`).
- Escapes.EscapedSurvives: values of more than 255 bytes are not covered, for the same reason, nor empty ones, which the writer skips.
- Runs.Propose: the proposal is for the first block; one for a later block makes the reply begin there and is covered by `Transfer.DiaRequest.Respond` only.
- UriOptions.MakeDecodedOption: asks that what is written also fits with a two-byte header.
- Observe notifications, the well-known resource listing, asynchronous requests and resource handlers.
- HTTP bindings, Java bindings, XML and object serialisation, logging, statistics, status code and media type tables.
- The branches for other platforms and for the newer wire format.
- Allocation failure and the switch that simulates packet loss.
