# Verified model of the c-ares resolver core

This project models, in Dafny, the parts of the bundled c-ares library that decide what a DNS
lookup means: how domain names are printed, encoded and expanded, how queries in progress are
indexed, how a host lookup proceeds through its answers, how replies are read, and how addresses
are ordered and query ids are generated. Code that works in place is modelled in place: the name
codec writes into arrays, the lists are linked nodes on the heap, the channel is an object that
owns them, and the sort, the reply parsers and the RC4 generator update arrays in loops. Each of
these methods is proved against a specification, and what the library promises is proved of the
specification.

| file | what it models |
|---|---|
| `Wire.dfy` | bytes, 16- and 32-bit fields, status codes, case-insensitive comparison of C strings |
| `ExpandName.dfy` | `ares_expand_name` and `name_length`: walks over a message, loops, both passes |
| `CompressedNames.dfy` | labels followed by the two bytes of a pointer, and what they expand to |
| `MkQuery.dfy` | `ares_mkquery`: the textual form of a name, the length pass, the encoding loop |
| `NameRoundTrip.dfy` | the two together: round trips, injectivity, the fixed fields of a query |
| `LinkedList.dfy`, `ListForest.dfy` | circular doubly-linked lists, alone and many side by side |
| `SpelledNames.dfy` | names as they may be written, and the query that is made of each |
| `Questions.dfy` | `same_questions`: whether a reply repeats the questions of a request |
| `QueryIndex.dfy`, `Channel.dfy` | queries, the id table, sending, searching by id and by reply, retransmitting, freeing, cancelling |
| `HostLookup.dfy` | `ares_gethostbyname` as a step machine and in direct style |
| `StableOrder.dfy`, `SortAddresses.dfy` | the sortlist, `ares_bitncmp`, and the insertion sort |
| `Records.dfy`, `ParseAReply.dfy`, `ParsePtrReply.dfy` | the A and PTR reply parsers |
| `ReplyBytes.dfy`, `WrittenReplies.dfy` | replies put together byte by byte, what the parsers return for them, and replies that are cut short |
| `Rc4.dfy` | the id generator and its seeding |

How the parts are modelled:

- **Walks.** A position in a message stops at a zero byte, takes a label, jumps, or fails a bounds
  check. Every walk decodes, leaves the message, or is a loop, and exactly one of the three.
  `name_length` decides which: its test on the number of pointers fires exactly for loops. Bytes
  64 to 191 are label lengths, as in the code, although RFC 1035 section 2.3.4 ends at 63.
- **The counter of `name_length`** is unbounded in the model, and `CounterFrom` gives its last and
  largest value. `CounterFitsExactly` says for which lengths of a message it always fits an int;
  `CounterOverflow` is a message of any greater length for which it does not.
- **Writes past a buffer.** The length pass of `ares_mkquery` looks at the last character of the
  name only, so for a name that ends in an escaped period it counts one byte too few, and for "."
  one too many. The model gives the array one byte more than the source allocates and reports
  where the writes end; `EncodingFits` says for exactly which names this is the end of the buffer,
  and `EscapedPeriodOverrun` is a concrete name for which it is not.
- **Lists.** A list node is an object; in the source it is a field of the record it points back to.
  The channel keeps, as ghost state, the sequence of queries in progress, the nodes of each list
  and the list of each node. Its invariant says that the list of all queries is that sequence,
  that each of the 2048 slots of the id table holds exactly the queries that belong there, in the
  same order, that a query in a timeout bucket is in the one of its timeout and a query in the list
  of a server in the one of its server, that the id of a query is the one in its request, and that
  no other nodes are in any list. Every method keeps it.
- **The search for an unused id** stores the id high byte first and reads it back in the byte order
  of the host, so that on little-endian hosts it looks for the id with its bytes exchanged. The
  byte order is an argument of the search; `SearchedId` says for which ids it makes no difference.
- **The environment of a host lookup** is a pair of functions that give the answer of every search
  and the result of every file lookup. All statements hold for every such pair. A search delivers
  exactly one answer, possibly before the call that started it returns; the code touches the lookup
  no more after that call, so both cases are the same step.
- **Replies** are read twice: the specification first decodes all records and then follows them,
  the parsers interleave the two. `ReplyMeaning` removes the running state altogether.
- **Bytes and definitions.** What a decoder is specified to do is also stated from the other side,
  for messages, names and answers that are written down byte by byte with the numbers of RFC 1035:
  pointers in `CompressedNames`, escapes in `SpelledNames`, records in `ReplyBytes`, letters of
  either case in `Wire`, mask bits in `SortAddresses`, and a whole host lookup told from its past
  in `HostLookup`.
- **Integers** are unbounded; where the width matters (16-bit fields, the signed 32-bit TTL, the
  counter of `name_length`, bytes of the RC4 state) it is written out.

The manual page of `ares_gethostbyname` lists a status for a name of digits and periods that is no
address. The code has no such case: such a name is looked up like any other, and so it is here.

## Model

| member | source | states |
|---|---|---|
| ExpandName.Trichotomy | c-ares/ares_expand_name.c:152-183 | every walk from a position inside the message reaches a zero byte, or fails a bounds check, or comes back to where it was; no two of these happen together |
| ExpandName.LongWalkIsCyclic | c-ares/ares_expand_name.c:164-168 | as many steps as the message has bytes mean that a position was visited twice (pigeonhole) |
| ExpandName.CyclicNeverHalts | c-ares/ares_expand_name.c:164-168 | a walk that repeats a position never reaches a zero byte and never fails a bounds check |
| ExpandName.DecodesWithin | c-ares/ares_expand_name.c:152-183 | a name that decodes visits no position twice, and it takes fewer steps than there are bytes |
| ExpandName.EndsOnce | c-ares/ares_expand_name.c:152-183 | the number of steps, and so the list of labels, is determined by the position |
| ExpandName.ExpansionBound | c-ares/ares_expand_name.c:143-189 | the expansion has at most 383 characters for each byte of the message but one, far inside an int for 65535 bytes |
| ExpandName.NameLength | c-ares/ares_expand_name.c:143-189 | the result is the length of the text if and only if the name decodes, otherwise -1; the pointer count rejects exactly the loops and the bounds checks exactly the walks that leave the message; the counter ends at the value that CounterFrom gives, at most 383 for each byte but one unless the walk is a loop, and within an int for every message of up to 32811 bytes |
| ExpandName.CounterBound | c-ares/ares_expand_name.c:152-181 | the counter grows by at most 383 for every 192 bytes walked, over at most as many pointers as the message has bytes |
| ExpandName.CounterOfLoop | c-ares/ares_expand_name.c:164-181 | on labels that end in a pointer back to the first of them, the counter gains their printed length once more than the message has bytes |
| ExpandName.CounterOverflow | c-ares/ares_expand_name.c:152-181 | for every length above 32811 a concrete message of that length for which the counter exceeds an int |
| ExpandName.CounterFitsExactly | c-ares/ares_expand_name.c:146-181 | the counter stays within an int in every call on messages of a given length if and only if that length is at most 32811 |
| ExpandName.MeasureLabel | c-ares/ares_expand_name.c:172-181 | the count grows by the length of the printed label |
| ExpandName.WriteLabel | c-ares/ares_expand_name.c:116-125 | appends the printed label and a period to what is in the buffer |
| ExpandName.WriteName | c-ares/ares_expand_name.c:101-129 | for a name that decodes the unchecked pass reads inside the message, ends, and fills its buffer exactly with the printed labels; it also finds the encoded length |
| ExpandName.AresExpandName | c-ares/ares_expand_name.c:65-138 | succeeds if and only if the name decodes; then the allocated bytes are exactly the text and its terminator |
| ExpandName.AresExpandNameForResponse | c-ares/ares_expand_name.c:192-200 | the same inside a response, with its own status, and the cursor stays inside the message |
| ExpandName.EncLen | c-ares/ares_expand_name.c:89-129 | the encoded length never passes the end of the message |
| ExpandName.EncLenIsLocal | c-ares/ares_expand_name.c:103-129 | the encoded length depends only on the bytes up to the first pointer or the terminator |
| ExpandName.DecodeEncoding | c-ares/ares_expand_name.c:103-129 | the pointer-free encoding of a list of labels, anywhere in a message, decodes to that list and its encoded length is its size |
| ExpandName.LabelsCanBeEncoded | c-ares/ares_expand_name.c:152-181 | the labels of every name that decodes have 1 to 191 bytes, so they have a pointer-free encoding |
| ExpandName.CompressionTransparent | c-ares/ares_expand_name.c:103-129 | the pointer-free encoding of a name that decodes reads, anywhere in any message, as the same labels and text |
| ExpandName.PointerStandsForTarget | c-ares/ares_expand_name.c:105-113 | a pointer decodes if and only if its target does, to the same labels, and is two bytes long |
| ExpandName.PrintedForm | c-ares/ares_expand_name.c:116-125 | periods and backslashes of a label follow a backslash, other bytes stand for themselves, and periods stand between labels |
| CompressedNames.PointerAfterLabels | c-ares/ares_expand_name.c:103-129 | labels and the two bytes of a pointer to an offset have a name exactly if there is one at the offset: the labels, followed by that name; they take two bytes more than the labels |
| CompressedNames.CompressedName | c-ares/ares_expand_name.c:103-129 | in a message with a name at some offset below 0x4000 and, later, labels and the bytes C0 + offset / 256 and offset % 256, the later name is the labels and that name |
| CompressedNames.ExpandCompressed | c-ares/ares_expand_name.c:65-138 | on such a message the program returns the text of both parts and its terminator, and the length up to the pointer |
| MkQuery.MeasureName | c-ares/ares_mkquery.c:101-113 | the first pass computes the length that PrepassLength defines |
| MkQuery.PrepassExact | c-ares/ares_mkquery.c:99-113 | that length is the size of the encoding, one less for a name ending in an escaped period and one more for "." |
| MkQuery.EncodingFits | c-ares/ares_mkquery.c:99-133 | exactly which names the buffer fits, exactly which it fits without a byte left over, and how the limit of 255 bytes is enforced |
| MkQuery.FieldsAt | c-ares/ares_mkquery.c:156-185 | scanning one label at a time finds the fields that unescaped periods separate |
| MkQuery.CountLabel | c-ares/ares_mkquery.c:161-168 | counts the bytes of the label without its backslashes |
| MkQuery.CopyLabel | c-ares/ares_mkquery.c:174-179 | appends the label without its backslashes and stops at the period or the end |
| MkQuery.EncodeLabel | c-ares/ares_mkquery.c:172-179 | appends the length and the label to the encoding so far |
| MkQuery.WriteHeader | c-ares/ares_mkquery.c:137-148 | the twelve bytes of the header |
| MkQuery.WriteLabels | c-ares/ares_mkquery.c:154-185 | succeeds if and only if all labels have 1 to 63 bytes; then they are encoded in order; otherwise what was written fits the encoding |
| MkQuery.WriteQuestion | c-ares/ares_mkquery.c:187-192 | the terminator, the type and the class |
| MkQuery.AresMkquery | c-ares/ares_mkquery.c:88-195 | the status for every name, the whole query on success, and exactly where the writes end relative to the buffer, on success and on errors |
| NameRoundTrip.ParsePrinted | c-ares/ares_mkquery.c:155-185 | parsing the printed form of nonempty labels gives the labels back |
| NameRoundTrip.TextIsInjective | c-ares/ares_expand_name.c:61-62 | the textual form determines the labels |
| NameRoundTrip.EncodeThenExpand | c-ares/ares_mkquery.c:155-188 | for NUL-free labels of 1 to 63 bytes within 255 bytes, encoding the text and expanding it in the query gives the text |
| NameRoundTrip.ReadQuery | c-ares/ares_expand_name.c:101-137 | in a query the name at offset 12 has the encoded labels and its encoded length is the size of the encoding |
| NameRoundTrip.ExpandIsCanonical | c-ares/ares_mkquery.c:155-188 | expanding the encoding of any accepted name gives a text that denotes the same labels |
| NameRoundTrip.PrintedLength | c-ares/ares_mkquery.c:99-113 | the first pass measures a printed name exactly unless its last label ends in a period |
| NameRoundTrip.QueryFields | c-ares/ares_mkquery.c:137-192 | a reader of the query finds the id, the recursion bit, one question, the type and the class |
| NameRoundTrip.EscapedPeriodOverrun | c-ares/ares_mkquery.c:112-113 | a concrete name whose encoding takes one byte more than was allocated |
| SpelledNames.SpelledName | c-ares/ares_mkquery.c:155-185 | a name in which any byte is written as it is or after a backslash has the labels that are meant; a backslash at the very end stands for itself, and a period there ends the name |
| SpelledNames.EveryName | c-ares/ares_mkquery.c:155-185 | every name is spelled in this way |
| SpelledNames.QueryLayout | c-ares/ares_mkquery.c:137-192 | the bytes of a query |
| SpelledNames.MakeSpelled | c-ares/ares_mkquery.c:88-195 | for a spelled name, success exactly if all labels have 1 to 63 bytes and the size is within 255, with the exceptions for "." and an escaped period at the end; then every byte of the query |
| Questions.RepeatsMeaning | c-ares/ares_process.c:1115-1192 | a message that asks these questions is repeated by one that asks those exactly if there are as many and each is among them, up to the case of letters before the first NUL of the name |
| Questions.CompareQuestions | c-ares/ares_process.c:1115-1192 | the program decides this |
| Questions.FindQuestion | c-ares/ares_process.c:1155-1186 | tells whether a question occurs in the reply, up to case of the name, with all questions before it well-formed |
| Questions.SameQuestions | c-ares/ares_process.c:1115-1192 | true if and only if both have a header and the same number of questions and every question of the request occurs in the reply |
| Questions.RepliesTo | c-ares/ares_process.c:1127-1191 | a reply matches a request made by `ares_mkquery` if and only if it has one question, whose name has the same text up to the case of letters before the first NUL, and whose bytes give that type and that class |
| Questions.RepeatedAskTheSame | c-ares/ares_process.c:1155-1180 | two requests that the same reply with one question matches ask for the same name up to case, type and class |
| Questions.EchoIsRecognized | c-ares/ares_process.c:1137-1191 | a reply that carries the question section of such a request unchanged and counts one question matches it, whatever its other header fields and its records |
| NameRoundTrip.MakeAndExpand | c-ares/ares_expand_name.c:65-138 | the two functions in sequence return the text and its terminator |
| LinkedList.InitListHead | c-ares/ares_llist.c:27-31 | makes an empty list |
| LinkedList.InitListNode | c-ares/ares_llist.c:34-38 | makes a node that is in no list |
| LinkedList.IsListEmpty | c-ares/ares_llist.c:41-43 | tells whether the list is empty |
| LinkedList.InsertInList | c-ares/ares_llist.c:46-52 | inserts before a given node of the sequence, touching only the node and its two neighbours |
| LinkedList.RemoveFromList | c-ares/ares_llist.c:55-62 | deletes the node from the sequence, and does nothing to a node in no list |
| LinkedList.SwapLists | c-ares/ares_llist.c:65-86 | exchanges two lists, empty or not |
| LinkedList.NextPrevInverse | c-ares/ares_llist.c:46-62 | in a list, next and prev undo each other |
| LinkedList.RingsAreDisjoint | c-ares/ares_llist.c:65-86 | lists with different heads share no node |
| ListForest.Link | c-ares/ares_llist.c:46-52 | appending to one of many lists leaves all others what they were |
| ListForest.Unlink | c-ares/ares_llist.c:55-62 | removing from one of many lists leaves all others what they were |
| QueryIndex.Query.constructor | c-ares/ares_send.c:84-133 | a new query in no list, whose four nodes point back to it |
| QueryIndex.BucketSearch | c-ares/ares_query.c:79-88 | among any candidates, the first query with an id in its bucket is the first with that id among all queries |
| QueryIndex.FirstAmongFinds | c-ares/ares_process.c:562-573 | a scan finds a query with the id among the candidates whenever there is one |
| QueryIndex.FirstAmongMeaning | c-ares/ares_process.c:562-573 | what a scan finds stands before all other candidates with the id, and it finds nothing only if there is none |
| QueryIndex.BucketMember | c-ares/ares_send.c:142-144 | a query is in the bucket of its id and in no other |
| QueryIndex.BucketWithout | c-ares/ares_process.c:1299 | taking a query out of the sequence is taking it out of its bucket |
| Channels.FrameForTcp | c-ares/ares_send.c:91-98 | the request preceded by its length in two bytes, most significant first |
| Channels.NewQuery | c-ares/ares_send.c:84-133 | the fields of a new query |
| Channels.SentIndexed | c-ares/ares_send.c:136-144 | appending to the list of all queries and to one bucket keeps the id table exact |
| Channels.ReleasedFixed | c-ares/ares_process.c:1298-1302 | taking a query out of its four lists keeps the id table exact |
| Channels.RescheduledLists | c-ares/ares_process.c:814-826 | retransmission moves a query to the end of its new timeout bucket and of its server's list, and changes no other list |
| Channels.Channel.constructor | c-ares/ares_init.c:188-198 | all lists of a new channel are empty |
| Channels.Channel.Send | c-ares/ares_send.c:41-152 | rejects requests of bad length with one callback; otherwise the new query is the last of all queries and of its bucket, every other list and every other query is as before; the choice of server and the rotation |
| Channels.Channel.FindQueryById | c-ares/ares_query.c:72-89 | returns the first of all queries in progress with the id, or null if there is none |
| Channels.SearchedId | c-ares/ares_query.c:77-80 | the id searched for is the one given exactly if the host is big-endian or both bytes are equal; the exchange undoes itself |
| Channels.Channel.FindAnswered | c-ares/ares_process.c:547-575 | a reply goes to the first of all queries in progress with its id whose questions it repeats, and to none if there is no such query |
| Channels.ReleasedLists | c-ares/ares_process.c:1298-1302 | freeing a query takes its four nodes out of every list and leaves the order of the others |
| Channels.Channel.EchoIsDelivered | c-ares/ares_process.c:547-575 | a reply with the id of a query in progress, whose request `ares_mkquery` made, and with its question section unchanged goes to a query with that id and the same question |
| Channels.Channel.Places | c-ares/ares_send.c:136-144 | a query in progress is in the list of all queries and in slot id % 2048; in a timeout bucket it is in the one of its timeout % 1024, and in a server's list in that of its server |
| Channels.Channel.FreeQuery | c-ares/ares_process.c:1296-1302 | the query leaves all lists, each of which is what it was without the query's nodes; the other queries do not change |
| Channels.Channel.Transmit | c-ares/ares_process.c:806-826 | the query moves to the end of the bucket of its new timeout and of its server's list; every other list and query is as before |
| Channels.Channel.EndQuery | c-ares/ares_process.c:1281-1283 | one callback, then the query is gone from all lists, which keep the others in order |
| Channels.Channel.Cancel | c-ares/ares_cancel.c:26-54 | with callbacks that start no query, each query in progress gets one callback, in the order of sending, and every list ends empty |
| Channels.CancellationsAt | c-ares/ares_cancel.c:36-46 | the calls of cancelling, one by one: callback and argument of each query, ECANCELLED and no timeouts |
| Channels.BucketLinks | c-ares/ares_query.c:80-82 | following the links of a slot visits its queries in order |
| HostLookup.SlotRun | c-ares/ares_gethostbyname.c:195-242 | from any search on, against any environment, the callback is called exactly once, last, with a fair report |
| HostLookup.ResolveRun | c-ares/ares_gethostbyname.c:139-252 | the same from any point of the lookup string: all timeouts are reported, and the status is the last search's verdict, the initial one if there was no search, or that of a successful file lookup |
| HostLookup.ResolveAccounts | c-ares/ares_gethostbyname.c:139-242 | at most one search per 'b' for one family and two for either, one file lookup per 'f', an A search only directly after an AAAA search when either is wanted |
| HostLookup.WholeRun | c-ares/ares_gethostbyname.c:139-252 | every event of a run is the one that the events before it, the answers to the searches among them and the lookup string make one expect, and the run ends with the callback |
| HostLookup.AfterSearch | c-ares/ares_gethostbyname.c:195-242 | what follows a search, by position: an A search after an AAAA search exactly if either family is wanted and the answer was of no use; the end exactly if the answer settles the lookup or no method is left; otherwise the next method |
| HostLookup.LiteralMeaning | c-ares/ares_gethostbyname.c:266-295 | for IPv4 the literals are four strings of digits between periods that the platform accepts, for IPv6 these and the IPv6 addresses, and for either family none |
| HostLookup.HostQuery.NextLookup | c-ares/ares_gethostbyname.c:139-193 | does what the direct-style lookup does from here, up to the next search or the end, and uses up part of the lookup string before waiting |
| HostLookup.HostQuery.HostCallback | c-ares/ares_gethostbyname.c:195-242 | continues with the answer as the direct-style lookup does; if it waits again, a lookup or the fallback has been used up |
| HostLookup.HostQuery.EndHquery | c-ares/ares_gethostbyname.c:244-252 | calls the user's callback with the timeouts so far |
| HostLookup.FakeHostent | c-ares/ares_gethostbyname.c:257-326 | which names are address literals |
| HostLookup.GetHostByName | c-ares/ares_gethostbyname.c:87-252 | every whole lookup ends, calls back exactly once, and is the direct-style lookup, with all that is proved of it; every event is as its past makes one expect |
| SortAddresses.Bitncmp | c-ares/bitncmp.c:36-58 | zero if and only if the first n bits agree; the sign tells which side has the one in the first bit that differs |
| SortAddresses.CompareBits | c-ares/bitncmp.c:46-57 | the same for the bits of one byte |
| SortAddresses.MaskByBits | c-ares/ares_gethostbyname.c:480-481 | an entry with a mask matches if and only if the address has its bits where the mask has ones, and it has no bits elsewhere |
| SortAddresses.MatchMeaning | c-ares/ares_gethostbyname.c:474-491 | when any entry matches an address, bit by bit |
| SortAddresses.PrefixMask | c-ares/ares_gethostbyname.c:480-487 | a mask of k ones and then zeros matches what k leading bits match, if the entry has no other bits |
| SortAddresses.PrefixMasks | c-ares/ares_gethostbyname.c:468-492 | writing entries with such masks or with numbers of bits gives every address the same index |
| SortAddresses.FirstMatchMeaning | c-ares/ares_gethostbyname.c:468-492 | the index that decides the order is the least of an entry that matches bit by bit, or the number of entries |
| SortAddresses.GetAddressIndex | c-ares/ares_gethostbyname.c:468-492 | the least index of an entry that matches bit by bit, or the length of the sortlist |
| SortAddresses.MoveIntoPlace | c-ares/ares_gethostbyname.c:451-461 | moves one address back exactly over those that come after it |
| SortAddresses.SortAddresses | c-ares/ares_gethostbyname.c:438-463 | a stable sort by that index, and a permutation |
| StableOrder.StableIsUnique | c-ares/ares_gethostbyname.c:444-448 | there is only one stable sort of a sequence |
| StableOrder.StableIsPermutation | c-ares/ares_gethostbyname.c:444-448 | keeping the order of equal keys implies being a permutation |
| Records.ReadUpToAnswers | c-ares/ares_parse_a_reply.c:76-96 | accepts exactly the replies with a header, one question and all of it |
| Records.ReadHead | c-ares/ares_parse_a_reply.c:128-143 | decodes the owner and the fixed part of a record if they fit |
| ReplyBytes.WhatFits | c-ares/ares_parse_a_reply.c:76-138 | exactly which messages have a question, and exactly where a whole record stands, by the bytes |
| ReplyBytes.RrHere | c-ares/ares_parse_a_reply.c:128-143 | the bytes of owner, type, class, TTL, length and data, with names that may end in a pointer to the question, are read as that record |
| ReplyBytes.ReplyIsRead | c-ares/ares_parse_a_reply.c:76-205 | reading a reply that was put together from a question and records gives back the question and every record, with its signed TTL and the place of its data |
| WrittenReplies.WrittenAReply | c-ares/ares_parse_a_reply.c:126-205 | of such a reply: the name that counts, the addresses with their TTLs, the aliases and the smallest CNAME TTL, told from the records as written |
| WrittenReplies.ParseWrittenA | c-ares/ares_parse_a_reply.c:54-263 | the status, the host and every returned address and TTL of the program for such a reply |
| WrittenReplies.WrittenPtrReply | c-ares/ares_parse_ptr_reply.c:93-168 | of such a reply: the name that counts and the PTR targets |
| WrittenReplies.ParseWrittenPtr | c-ares/ares_parse_ptr_reply.c:47-217 | the status, the name and the aliases of the program for such a reply |
| WrittenReplies.CutShort | c-ares/ares_parse_a_reply.c:70-205 | a reply that is cut off anywhere before the end of its last answer is rejected by both parsers |
| ParseAReply.FollowedAddresses | c-ares/ares_parse_a_reply.c:145-195 | the addresses are those of the records whose owner is, at their place, the target of the last CNAME before them |
| ParseAReply.AliasesAreOwners | c-ares/ares_parse_a_reply.c:175-182 | the aliases are the owners of the CNAMEs in order; addresses and aliases together are no more than the answers |
| ParseAReply.CnameTtlOfAll | c-ares/ares_parse_a_reply.c:192-194 | the clamping TTL is the smallest of any CNAME of class IN, wherever it stands |
| ParseAReply.ReplyMeaning | c-ares/ares_parse_a_reply.c:126-205 | all of this for a whole reply, without a running state |
| ParseAReply.MalformedReply | c-ares/ares_parse_a_reply.c:126-205 | a reply is malformed if and only if its question or a record does not fit, or a CNAME's target is no name |
| ParseAReply.ReadAnswers | c-ares/ares_parse_a_reply.c:122-205 | the answer loop agrees with decoding all records first and following them then; the cursor and both arrays stay in bounds |
| ParseAReply.ClampTtls | c-ares/ares_parse_a_reply.c:216-222 | each TTL becomes the smaller of itself and the clamping TTL, in place |
| ParseAReply.AresParseAReply | c-ares/ares_parse_a_reply.c:54-263 | the status, the host, the number of addresses returned and each of their TTLs for every reply and every choice of outputs |
| ParsePtrReply.FollowedTargets | c-ares/ares_parse_ptr_reply.c:111-159 | the targets are those of the PTR records whose owner is, at their place, the target of the last CNAME before them |
| ParsePtrReply.ReplyMeaning | c-ares/ares_parse_ptr_reply.c:93-168 | the same for a whole reply |
| ParsePtrReply.MalformedReply | c-ares/ares_parse_ptr_reply.c:93-168 | a reply is malformed if and only if its question or a record does not fit, or the target of a CNAME, or of a PTR that counts where it stands, is no name |
| ParsePtrReply.StoreAlias | c-ares/ares_parse_ptr_reply.c:125-144 | stores in bounds, keeps what was stored when the array doubles, and leaves a free place |
| ParsePtrReply.ReadAnswers | c-ares/ares_parse_ptr_reply.c:85-168 | the answer loop agrees with decoding all records first and following them then |
| ParsePtrReply.AresParsePtrReply | c-ares/ares_parse_ptr_reply.c:47-217 | the status; the aliases are the counting targets in order and the name is the last of them |
| Rc4.RoundsMeaning | c-ares/ares_query.c:56-69 | the generator in the words of its usual description: both indices, the exchange, and the byte for the key stream |
| Rc4.CryptMeaning | c-ares/ares_query.c:64-66 | every binary digit of the buffer is changed exactly where the key stream has a one |
| Rc4.MixingMeaning | c-ares/ares_init.c:1745-1770 | the state after seeding, and each step of the mixing |
| Rc4.StateIsPermuted | c-ares/ares_query.c:58-62 | the generator only permutes its state |
| Rc4.CryptTwice | c-ares/ares_query.c:64-66 | running the generator twice from equal keys restores the buffer |
| Rc4.CryptInPieces | c-ares/ares_query.c:54-69 | running it over two pieces in turn is running it over the whole |
| Rc4.Rc4Key.Rc4 | c-ares/ares_query.c:46-70 | the buffer is xored with the key stream and the key advances by one round a byte |
| Rc4.Rc4Key.GenerateNewId | c-ares/ares_init.c:1777-1782 | the id is the next two bytes of the key stream |
| Rc4.Rc4Key.InitIdKey | c-ares/ares_init.c:1736-1775 | the state is the mixing of what the random bytes and the identity leave, and so a permutation of it |
| Wire.SameNameMeaning | c-ares/ares_strcasecmp.c:31-42 | two buffers hold the same name if and only if the bytes before their first NULs are as many and each pair is equal or the two cases of one ASCII letter |
| Wire.SameNameOfStrings | c-ares/ares_strcasecmp.c:31-42 | the same of strings with and without a terminator |
| Wire.SameNameEquivalence | c-ares/ares_strcasecmp.c:31-42 | sameness of names is an equivalence |
| Wire.Get16Put16 | c-ares/ares_dns.h:20-25 | reading a stored 16-bit field gives the low 16 bits of what was stored |

## Left out

- ExpandName.NameLength: the counter is unbounded; where it would leave a 32-bit int, which only a loop in a message of more than 32811 bytes can bring about, C leaves the behaviour undefined, and the model goes on counting and rejects the loop.
- Channels.Channel.Send: ends before the first transmission; sockets, the choice of another server after a failure and the TCP send queues are not modelled, only the moves between lists (Transmit) and the end of a query (EndQuery).
- Channels.Channel.Transmit: the timeout is an argument; its computation from the clock and a random number is not modelled.
- Channels.Channel.Cancel: callbacks that start new queries while the channel is drained, and closing the sockets afterwards.
- Channels.Channel.EndQuery: a callback that starts a new query, the TCP send queues that still refer to the request, and closing the sockets afterwards.
- HostLookup.FakeHostent: the platform's address parsers are arguments, and the host entry made for a literal is not built.
- HostLookup.GetHostByName: what a file lookup and a search do inside; they are given by the environment. Sorting the addresses of a host before the callback is modelled on its own.
- Rc4.Rc4Key.Rc4: buffers longer than 32767 bytes, for which the 16-bit loop counter does not suffice.
- Allocation failure and freeing: allocation is taken to succeed everywhere.
- The loop that draws ids until one is unused, because nothing bounds the number of draws; and so any claim that ids in use differ.
- What `ares_process.c` does around the search for the answered query: truncated and refused replies, sockets, timeouts and retries.
- The AAAA and NS parsers, which repeat the A loop with another record type, and the MX, SRV and TXT parsers.
- Search domains, configuration files, options, and the command-line tools.
