# Filtering DNS forwarder: model and proofs

The program answers DNS queries over UDP. It reads a list of domain names, keeps them in a trie of
labels, refuses address queries for a listed name or anything under it, and passes the other
address queries on to an upstream server. This project models that core in Dafny and proves what it
promises, from the bytes of a query to the reply and the counters.

| file | what it models |
|---|---|
| `Bytes.dfy`, `Names.dfy` | bytes, C strings, limits; splitting a text at its dots and joining labels |
| `Normalizer.dfy`, `Splitter.dfy` | clean-up of a written name; the backward scan for its labels |
| `Blocklist.dfy`, `Spelling.dfy` | the meaning of a list of names, without any trie; capitals, white space and trailing dots in a name |
| `FilterNode.dfy`, `Trie.dfy`, `Statistics.dfy`, `Loader.dfy` | the trie with its growing child arrays, its statistics, loading from lines |
| `Decoder.dfy`, `Parser.dfy` | names with compression pointers, headers, questions, messages |
| `Bits.dfy` | masks and shifts as arithmetic |
| `Builder.dfy`, `Encoder.dfy` | error responses, the second question walker, names in wire form |
| `Resolver.dfy`, `Server.dfy` | upstream attempts and checks; one query; whole runs and their counters |
| `LineEnds.dfy` | carriage returns inside a line |
| `EndToEnd.dfy` | from filter lines and query bytes to the verdict, and over whole runs |
| `Witnesses.dfy` | inputs on which the program differs from what one may expect |

How the parts are modelled:

- A text is a sequence of bytes. `CString` is one without NUL; `CStr` is what C sees of a buffer.
- Bit operations on bytes and 16-bit words are written as arithmetic; `Bits.dfy` proves on bit
  vectors that masks, shifts and the flags of error responses come to the same.
- The trie is made of objects with a real array of children. Its invariant is flat: a ghost map sends
  each known domain suffix to its node, so the reversed labels of the program become list suffixes.
- A name in a message has a `Reading`: labels and pointers down to the zero byte, with no bound on
  their number. The decoder is proved to accept exactly the readings within its limits.
- Allocation is an oracle. Insertion takes one answer per allocation, so it can fail after some nodes
  have been linked, and splitting one per label; the others take one answer for all their allocations.
- Sockets, resolution of the upstream address and the clock become parameters: a sequence of events
  for the server, up to three attempt outcomes for each upstream query. A run ends with its events.

Where the code differs from its documentation or from the standard, the code is followed. Each
difference has a condition that says exactly when the two agree, and an input on which they do not:

- The decoder accepts names of up to 256 bytes in wire form; section 2.3.4 of RFC 1035 allows 255
  (`Encoder.DecodeWire`, `Witnesses.LongNameIsDecoded`).
- The encoder accepts texts of 255 characters, whose wire form the decoder refuses
  (`Encoder.EncodeThenDecode`, `Encoder.EncodedButNotDecoded`).
- Clean-up drops white space, but stops at a full buffer: behind a name of 255 characters any further
  byte, also white space, makes it refuse the name (`Normalizer.NormalizedIff`,
  `Witnesses.SpaceBehindFullName`).
- An error response repeats the question count but copies only the first question, so it parses again
  exactly if the count is at most one (`Builder.ErrorResponseRoundTrip`,
  `Witnesses.SecondQuestionIsLost`).
- The server announces FORMERR for a query that does not parse and for one without questions, and
  NXDOMAIN for a blocked name, but an error response needs a parsed message and a first question
  whose name has no pointer. A header alone, or a blocked name behind a pointer, stays unanswered
  (`Server.NoQuestionsReplied`, `Witnesses.HeaderAloneIsUnanswered`, `EndToEnd.CoveredReplied`,
  `Witnesses.BlockedBehindPointer`).
- A label with a dot, a NUL or white space in it loses its borders in the text
  (`EndToEnd.AgreementIff`, `EndToEnd.AgreementOnLabels`, `Witnesses.DottedLabelIsFiltered`).
- A carriage return inside a line does not end it, although the repository lists CR among the line
  ends: two usable names become one other name, or none (`LineEnds.CarriageReturnIff`,
  `LineEnds.CarriageReturnInput`).
- A lookup that runs out of memory answers "not blocked", so the name is sent upstream
  (`Trie.Filter.IsDomainBlocked`, `Witnesses.BlockedNameGoesUpstream`).
- The "blocked" counter also counts NXDOMAIN answers from upstream (`Server.RunIsConserved`,
  `Witnesses.UpstreamAnswerCountsAsBlocked`).

## Model

| member | source | states |
|---|---|---|
| Normalizer.NormalizeDomain | filter.c:85-140 | the clean-up loops over the buffer accept exactly the names the specification accepts and leave its text, NUL-terminated |
| Normalizer.NormalizedIff | filter.c:113-137 | accepted exactly if the lower-cased text without white space is shorter than the buffer, does not fill it with white space still to come, and is a name without empty labels followed by dots only; the result is that name |
| Normalizer.NormalizedOutput | filter.c:101-139 | an accepted name is lower-case, has no white space and no empty label, and is shorter than the buffer |
| Normalizer.NormalizedIdempotent | filter.c:85-140 | cleaning a cleaned name up again with the same buffer changes nothing |
| Normalizer.NoEmptyField | filter.c:123-137 | the checks for leading and consecutive dots hold exactly if no field between dots is empty |
| Spelling.CleanByByte | filter.c:101-111 | byte by byte: white space (codes 9 to 13 and 32) leaves nothing, a capital (65 to 90) its small letter, any other byte itself |
| Spelling.AcceptedIsTidy | filter.c:101-139 | no byte of an accepted text is a capital or white space, by their codes; no field is empty; the text fits the buffer |
| Spelling.TidyIsKept | filter.c:101-139 | a text without capitals, white space and empty fields is accepted unchanged, without the dots behind it |
| Spelling.CaseIsIgnored | filter.c:109 | two names that differ in case only stand for the same labels: as listed names, and as queries for every list |
| Spelling.SpaceIsIgnored | filter.c:103-107 | white space anywhere in a name that does not fill the buffer changes nothing |
| Spelling.TidyLabels | filter.c:101-239 | a tidy name stands for its fields exactly if none has more than 63 bytes, also with dots behind it |
| Splitter.SplitDomainLabels | filter.c:152-239 | one slot per dot plus one; all slots are filled exactly if no label is empty, and then they hold the labels in reverse, each at most 63 bytes; a name without empty labels is refused exactly for a longer label or a failed allocation |
| Names.JoinFields | filter.c:157-238 | joining the labels of any text with dots gives the text back |
| Names.FieldsJoin | filter.c:157-238 | splitting a dotted list of dot-free labels gives the list back |
| Names.SuffixOfText | filter.c:381-385 | "equal, or ends with a dot and the other name" on texts is "list suffix" on their labels |
| Blocklist.VerdictOnText | filter.c:381-439 | the verdict is "blocked" exactly if the cleaned query equals a cleaned listed name or ends with a dot and one |
| FilterNodes.FilterNode.FindChild | filter.c:246-259 | returns a child with exactly the wanted label, or null if no child has it |
| FilterNodes.FilterNode.AddChild | filter.c:266-293 | appends the child after all existing ones in order; capacity doubles from 4 only when full; fails only when growth cannot be allocated, changing nothing |
| FilterNodes.GrownIsCapacity | filter.c:272-275 | capacities stay zero or four times a power of two, the next one being 4 or the double |
| Trie.Filter.AddDomain | filter.c:307-379 | success adds exactly the name to the blocked set and exactly its suffixes to the nodes; any failure, also after some nodes were linked, leaves the blocked set as it was; valid names fail only for lack of memory |
| Trie.Filter.Insert | filter.c:325-367 | the walk ends at the node of the name; new nodes are only suffixes of it; the trie invariant holds even when it stops half-way |
| Trie.Filter.IsDomainBlocked | filter.c:392-439 | "blocked" exactly if the query is a usable name, a blocked name covers it, and none of the allocations for its labels fails |
| Trie.Filter.Lookup | filter.c:410-430 | the walk from the root finds a blocked node exactly if some blocked name is a suffix of the labels |
| Trie.Filter.TrieShape | filter.c:326-370 | in every reachable trie: no two nodes are the same object, share an array or share a child, and the root is nobody's child; depth at most 128, labels of 1 to 63 bytes without dots, distinct siblings, counts within doubled capacities, root not blocked |
| Trie.Filter.SuffixKnown | filter.c:326-367 | every suffix of a known name has a node |
| Trie.SuffixesAre | filter.c:296-299 | the nodes a name adds are exactly those of its list suffixes |
| Statistics.CountStats | filter.c:550-569 | adds the number of nodes and of blocked nodes at or below a node, and the greatest depth among them |
| Statistics.FilterStatistics | filter.c:574-589 | total domains is the number of blocked names; after successful insertions only, total nodes is the number of their distinct non-empty suffixes and maximum depth their greatest label count |
| Statistics.BelowIsUnderKids | filter.c:566-568 | everything below a node is below exactly its children |
| Statistics.InsertionKeepsTight | filter.c:328-370 | after successful insertions every node lies on the path to a blocked name |
| Statistics.TightIsSuffixes | filter.c:328-370 | then the nodes besides the root are exactly the distinct non-empty suffixes of the blocked names |
| Loader.LoadLines | filter.c:485-527 | after any load the blocked set is exactly the names of the lines whose insertion succeeded: usable lines only, and every usable line for which memory suffices; failed insertions leave no nodes but those of suffixes of names in the list; if none failed, every node lies on the path to a blocked name |
| Loader.EntryMeaning | filter.c:488-514 | every line is white space, a trimmed text and line ends; it offers the text for insertion unless that is empty or starts with "#" |
| Loader.ListedByLine | filter.c:499-527 | a name is blocked after a load exactly if some line taken is neither blank nor a comment and means it |
| Loader.AllTakenIsAll | filter.c:485-527 | without a failed insertion of a usable line the names are those of all entries |
| Loader.LoadsCompare | filter.c:307-439 | of two loaded tries, the one with more lines blocks all the other does; with the same lines taken, in any order and with any repeats, they agree on every query |
| Loader.PermutedLoads | filter.c:307-439 | two loads of a permutation of the same lines, none failing, agree on every query |
| LineEnds.CarriageReturnIff | filter.c:488-514 | a line with a carriage return in it means exactly the names its two sides would mean as lines, if and only if nothing but white space stands before it; or a comment or unusable text does and nothing usable follows; or a usable name does, only dots follow and the line fits |
| LineEnds.TwoNamesAreJoined | filter.c:488-517 | two usable names on the sides of a carriage return are never both listed |
| LineEnds.CarriageReturnInput | filter.c:488-517 | the line "a", CR, "b" means the one name "ab" |
| LineEnds.UsableIff | filter.c:488-517 | a line is usable exactly if its cleaned text is no comment, has no empty or long label, and its stripped form fits; it then means the fields of that text |
| Decoder.ParseDnsName | dns_parser.c:90-187 | the loop accepts exactly what the decoder specification accepts, leaves its text and its end offset, and takes at most 138 rounds on any input |
| Decoder.DecodeMeaning | dns_parser.c:101-186 | sound and complete: a name is accepted exactly if it has a reading with pointers strictly backwards, at most 10 of them, and text within both limits; labels and end offset are those of every such reading |
| Decoder.RunSound | dns_parser.c:101-186 | from any state of the loop, acceptance yields a reading within the remaining limits |
| Decoder.RunComplete | dns_parser.c:101-186 | from any state of the loop, a reading within the remaining limits is accepted with its labels and end |
| Decoder.ReadingIsUnique | dns_parser.c:101-186 | at most one reading starts at a position |
| Decoder.ReadingIsAcyclic | dns_parser.c:116-134 | a reading never visits a position, and so a pointer, twice |
| Decoder.ReadingIsShort | dns_parser.c:105-182 | an accepted name has at most 127 labels and 138 steps |
| Decoder.ReadingFits | dns_parser.c:105-182 | with no limit on jumps or length, a reading takes no more steps than the message has bytes |
| Witnesses.TenPointers | dns_parser.c:120-124 | of the chains of n pointers, each to the one before, those of at most ten are followed |
| Bits.PointerBits | dns_parser.c:105-114 | the pointer test and the 14-bit offset are those of the masks and shifts |
| Bits.FlagBits | dns_server.c:319 | the tested and copied flag bits are those of the masks |
| Bits.ErrorFlagBits | dns_builder.c:87-88 | the flags of an error response are QR, the query's RD and the code combined by "or" |
| Parser.ParseDnsQuestion | dns_parser.c:210-249 | the question parser computes the specified question and next offset |
| Parser.ParseDnsMessage | dns_parser.c:261-330 | the message parser computes header, all questions and raw bytes as specified, and fails on lack of memory |
| Parser.QuestionMeaning | dns_parser.c:210-249 | a question is accepted exactly if its name has a reading within the limits and four more bytes follow; type and class are those byte pairs, and the next offset is behind them |
| Parser.MessageMeaning | dns_parser.c:261-330 | a message is accepted exactly if behind twelve bytes stand as many complete questions as bytes 4 and 5 announce; header numbers, every question in order and the raw bytes are what the bytes say |
| Parser.QuestionMovesOn | dns_parser.c:229-240 | a question moves the offset on by at least five bytes and stays inside the message |
| Parser.MessageSize | dns_parser.c:297-311 | an accepted message holds all announced questions and is at least 12 + 5 * qdcount bytes long |
| Builder.BuildDnsHeader | dns_builder.c:113-143 | writes the twelve header bytes and nothing else |
| Builder.HeaderRoundTrip | dns_builder.c:113-143 | reading a written header gives it back, writing a read header gives its bytes |
| Builder.FindQuestionEnd | dns_builder.c:32-63 | the pointer loop computes the specified walk |
| Builder.WalkersAgree | dns_builder.c:37-60 | the walk finds an end exactly if the first question is complete and its name has a reading without pointers, and it is the end of that reading plus type and class |
| Builder.BuildErrorResponse | dns_builder.c:17-108 | builds the specified response exactly if the code is at most 5, the walk succeeds and memory suffices |
| Builder.ResponseMeaning | dns_builder.c:17-108 | byte by byte: a response exists exactly for a code up to 5 and a complete first question without pointers; it has bytes 0, 1, 4 and 5 of the query, 128 plus its RD bit, the code, six zero bytes and the first question, and ends there |
| Builder.ErrorResponseRoundTrip | dns_builder.c:73-107 | the response to a parsed query has its identifier and RD bit, QR, the code and no records; it parses again exactly if qdcount is at most 1, with the same questions |
| Encoder.EncodeDnsName | dns_builder.c:148-217 | the number of bytes and the bytes are those of the wire form of the non-empty fields; refused exactly for a long text or label or a small buffer, or lack of memory |
| Encoder.EncodeIff | dns_builder.c:148-217 | a text is encoded exactly if it has at most 255 characters, no field over 63, and its characters plus two, less one for each empty field, fit; a dot behind it changes nothing |
| Encoder.Strtok | dns_builder.c:177-203 | the tokens are the non-empty fields between dots, one after the other |
| Encoder.DecodeWire | dns_parser.c:166-181 | a name in wire form anywhere in a message is decoded to its labels exactly if it has at most 256 bytes and fits the buffer |
| Encoder.DecodeCompressed | dns_parser.c:104-136 | compression round trip: labels followed by a pointer to an earlier name are decoded to both lists together, under the limits of the name written out, and the name ends behind the pointer |
| Encoder.EncodeThenDecode | dns_builder.c:148-217 | decoding an encoded text consumes its bytes and yields its non-empty fields exactly if they take at most 254 characters and fit; without empty fields the text itself |
| Encoder.EncodedButNotDecoded | dns_builder.c:162-165 | a text of 255 characters that is encoded and then refused by the decoder |
| Witnesses.LongNameIsDecoded | dns_parser.c:166-181 | a name of 256 bytes in wire form that is decoded |
| Witnesses.SpaceBehindFullName | filter.c:102-116 | a usable name of 255 characters that a space behind it makes unusable |
| Witnesses.SecondQuestionIsLost | dns_builder.c:90-105 | a query of 22 bytes with two questions whose error response does not parse |
| Encoder.DecodeThenEncode | dns_builder.c:176-216 | encoding a decoded name gives its form with pointers followed exactly if no label contains a dot or NUL; that form is the original bytes if there were no pointers |
| Resolver.ForwardQuery | resolver.c:117-286 | the retry loop and the checks pass on the specified answer, and send the query unchanged as often as specified |
| Resolver.ForwardMeaning | resolver.c:177-272 | passed on exactly if it is the first answer within three attempts, cut to 512 bytes, has at least 12 bytes, the query's first two bytes and a third byte of at least 128; nothing else in it matters; at most three sends; 12 to 512 bytes |
| Resolver.ForwardSends | resolver.c:173-215 | the query is sent exactly once for each attempt up to the first answer, at the latest the third attempt, whose send does not fail |
| Server.DnsServer.ProcessDnsQuery | dns_server.c:106-203 | one query has the specified reply, and only the query itself goes upstream |
| Server.ProcessIsSafe | dns_server.c:106-203 | for any upstream behaviour: replies carry the query's identifier and QR in 12 to 512 bytes, at most three sends, filtered queries are not sent and get NXDOMAIN, NOERROR comes only from upstream |
| Server.ReplyMeaning | dns_server.c:124-202 | the code of every reply: FORMERR without questions, NOTIMPL for other types, NXDOMAIN for blocked names, SERVFAIL without an acceptable answer, which otherwise is passed on unchanged |
| Server.QueryMeaning | dns_server.c:106-203 | from the bytes of a query and the readings of its questions, for all memory and upstream behaviour: code 1 without questions, code 4 and no sending if the type bytes are not 0 and 1, code 3 and no sending if the filter stops it, else the answer from upstream or code 2; any other message is dropped |
| Server.SentIff | dns_server.c:149-185 | a query is sent as often as the attempts say if it asks for an address that is not known to be blocked, and never otherwise |
| Server.RepliedIff | dns_server.c:111-202 | without memory failures a parsed query is answered exactly if its first question is complete without pointers, or it was allowed and an acceptable answer came |
| Server.NoQuestionsReplied | dns_server.c:124-136 | a query without questions is answered exactly if memory suffices and what follows its header has the form of a question without pointers; a header alone never is |
| Server.RunIsSafe | dns_server.c:254-344 | in every run, every exchange is the processing of a datagram of 12 to 512 bytes and is safe |
| Server.EveryArrivalIsProcessed | dns_server.c:254-330 | in every run the exchanges are exactly those of the datagrams of at least 12 bytes, in order: their first 512 bytes with their own memory, upstream and delivery, processed; so many queries are counted |
| Server.ArrivalsAreAll | dns_server.c:254-300 | those datagrams are the events of the run that carry at least 12 bytes, each as often as it occurs |
| Server.RunTreatsArrivals | dns_server.c:254-330 | in every run the k-th of them gets the reply and the sends that its bytes call for |
| Server.RunIsConserved | dns_server.c:316-327 | in every run: queries = unanswered + blocked + forwarded + other codes; blocked = filtered and answered + NXDOMAIN from upstream; forwarded = NOERROR from upstream; errors are accounted for |
| Server.DnsServer.RunServer | dns_server.c:254-344 | the loop's counters and exchanges are those of the run |
| Server.DnsServer.Handle | dns_server.c:257-343 | one round of the loop does one step of the run |
| EndToEnd.LabelsOfQuestion | filter.c:392-408 | the text of plain labels cleans up and splits to the same labels in lower case |
| EndToEnd.QueryCaseIsIgnored | filter.c:392-439 | two queries whose labels differ in case only get the same verdict from every list |
| EndToEnd.VerdictOnWire | dns_server.c:163-166 | for an accepted first name with plain labels, compressed or not, the verdict is "blocked" exactly if a listed name is a list suffix of its lower-cased labels |
| EndToEnd.AgreementIff | dns_parser.c:171-177 | for any accepted labels, also with NUL inside, the verdict agrees with the suffix test for every list exactly if the cleaned name is its plain tail |
| EndToEnd.AgreementOnLabels | dns_parser.c:171-177 | for labels without NUL it agrees for every list exactly if all labels are plain, or the last one is not and the name is refused |
| EndToEnd.AgreementBeforePlain | dns_parser.c:171-177 | with a plain last label it agrees for every list exactly if all labels are plain |
| Witnesses.DottedLabelIsFiltered | dns_server.c:163-177 | an accepted query whose name is the one label "a.b", filtered for the listed name "b" although no suffix of its labels is listed |
| Witnesses.HeaderAloneIsUnanswered | dns_server.c:124-136 | the twelve bytes of a header without questions are accepted and never answered |
| Witnesses.BlockedBehindPointer | dns_builder.c:40-43 | a query of 18 bytes for a listed name behind a pointer that is filtered and never answered |
| EndToEnd.FilterDecides | dns_server.c:149-197 | a parsed address query is filtered exactly if its name is covered; it is sent upstream only otherwise |
| EndToEnd.CoveredReplied | dns_server.c:166-178 | an address query for a covered name is answered exactly if the response can be built and its name has no pointer, and then with NXDOMAIN |
| EndToEnd.RunFilters | dns_server.c:254-344 | over every run: no address query for a covered name goes upstream, and it is answered, with NXDOMAIN, exactly if its name has no pointer, unless memory fails it |
| EndToEnd.RunFiltersListed | dns_server.c:254-344 | over every run: a query is filtered exactly if it parses, its first question asks for the address of a name the list blocks, and memory suffices |
| Witnesses.BlockedNameGoesUpstream | dns_server.c:163-197 | a query for a listed name that is sent upstream three times because its lookup ran out of memory |
| Witnesses.UpstreamAnswerCountsAsBlocked | dns_server.c:319-322 | a run on an empty list that ends with one query counted as blocked and none filtered |
| EndToEnd.Serve | main.c:233-253 | whatever allocations fail during the load, the server runs as specified on exactly the names of the lines taken; on all entries if no usable line failed |

## Left out

- Sockets, time limits, signals and resolution of the upstream address: operating system calls, replaced by event and attempt outcomes.
- Argument parsing, logging and the verbose counts of loaded and ignored lines: printing only.
- Opening the filter file and cutting it into pieces of at most 509 bytes with fgets: lines are given as read.
- The average branching factor and the percentages: floating-point display.
- Freeing of memory, NULL arguments and the wrapper functions for tests: single branches or thin forwards.
- Parser.ParseDnsMessage: one answer of the oracle stands for all allocations of the call, as any failing one has the same result.
- Trie.Filter.Insert: the labels arrive as a sequence read off the array that the splitter filled, which nobody changes any more.
- Counters are unbounded; the program's wrap around after 2^32 or 2^64 queries.
- Writes of a refused call into its output buffer, and of a refused name into the offset, are not specified; no caller looks at them.
