# Verified models of three network services

This project models, and proves properties of, three stateful programs of the repository.

**The iterative DNS resolver** (`lab6`). A lookup asks one server; if the response only refers elsewhere, it
asks every cached server of every suffix of the name, longest suffix first, recursing into each. The model covers
the whole path: the two name encoders, the in-place decoder, compressed names, the record decoders that share one
cursor, the two caches with the multimap order and its text dump, the label loops, and the referral search. The
network is a function from the number of the query, the server asked and the bytes of the query to the bytes of
the response; a timeout is a response that announces no records. RFC 1035 (sections 2.3.4, 3.1, 4.1.1 to 4.1.4)
is written down separately, as `ReadLabels`, `ParseRecord` and `Parse`, and the byte-by-byte code is proved
against it.

**The lease-based name service** (`lab2`). A bounded table of leases with expiry. `NameService` is the state
machine with its history of bindings and the theorems about all runs; `NameServer` is the server itself, whose
handlers, sweep and main loop are proved to take only steps of that machine; `Requests` is the in-place packet
encoder, validity check and decoder. The clock is an object that never goes back, and every handler reads it
where the source does.

**The buffered line reader** (`lab1`). State kept from call to call over blocks of 1 to 32 bytes, proved equal to
a reader over the plain byte stream.

`Permits` is the acceptor's limit on concurrent handlers, over all interleavings.

## Files

| file | contents |
|---|---|
| CStrings, Options | bytes, C strings and the C string routines used; optional results |
| NameCodec, NameDecoder | name encoders, trimmer; in-place decoder on every buffer, round trips |
| NameReader, NameWalk | reading compressed names; exactly when that is what RFC 1035 says |
| Records, Decoders, Sections | cursor against record layout; the three decoders; the loops over the sections |
| Responses, SmallNetwork | whole messages as RFC 1035 reads them; a network that refers |
| Multimap, CacheDump, Caches | ordered multimap; its dump; the two cache classes |
| Headers, Queries | message headers; what the resolver asks, as RFC 1035 reads it |
| LabelBuffers, Resolver | label loops; referral search, lookups |
| Permits | the permit counter |
| Requests, NameService, NameServer | packets; lease state machine; server |
| LineReader | buffered reader |

## What turned out false, and the exact condition

* The decoders read the fixed fields of a record one byte late after a pointer, and after the zero byte of a root
  owner when the cursor stands exactly on it (`Late`). For owners whose own label bytes are neither zero nor above 191,
  and root owners of types below 256, an answer or additional record leaves the cursor where RFC 1035 puts the next
  record, or one short of it on a zero byte that the next decode skips, exactly when the fields are read late and the
  data length is below 256, or there is no data (`StepExact`; `SpelledOutMisread` is an instance that fails). An
  authority record whose data begins with a name does so exactly when that name ends the data (or a zero byte follows
  its pointer) and the fields are read late or the low byte of the data length is between 1 and 191
  (`AuthorityStepExact`). If the data is one name, the cursor is in step and the name server is the true one exactly
  when the fields are read late (`ServerExact`; `SpelledOutServer` is an instance in step with a wrong server).
  `MessageExact` carries this over any number of records of any sections. The record type is read correctly exactly
  when the high bytes of type and class agree, or, if the fields are not read late, when both bytes of the type agree
  (`FieldsExact`). The resolver's theorems therefore take responses whose records satisfy these conditions, as far as
  the program reads them (`GoodMessage`).
* A compressed name is walked as RFC 1035 prescribes exactly when every pointer fits one byte and no label byte is
  zero or has both top bits set (`WalkExact`); if every pointer fits one byte, the bytes copied are the true ones
  exactly when no label byte is zero or has both top bits set (`ScanExact`). `FarPointerMisread` is an instance
  that fails.
* For every name, encoding it, copying it with `strcpy` and decoding it in place stays inside the buffer and gives the
  name back exactly when every label has 1 to 127 bytes (`TextRoundTrip`). A longer label has a length byte that is
  negative as a `char` or too small; `LongLabelMisread` is a name of 130 bytes that comes back with dots in it.
* A query spells the name as RFC 1035 reads it exactly when all labels have 1 to 63 bytes (`QueryExact`);
  it cannot read the query for any name of 64 bytes without a dot (`LongLabelQuery`).
* KEEP_ALIVE renews nothing, because `insert` keeps an existing entry (`KeepAliveRenewsNothing`); `KeepAliveServed` is
  the server answering it with SUCCESS and then losing the name. With a positive keep-alive time, a DEFINE that answers
  SUCCESS has bound the name exactly when the name had left the table; with another one also when the expired entry
  that stayed is the very entry asked for (`DefineSuccessExact`, `ZeroLeaseServed`). `StaleDefine` is a run, and
  `StaleDefineServed` the server at work, in which the LOOKUP after a successful DEFINE finds nothing.
* A lookup that starts at a cached server and, after a referral, fails asks a server of that name again, because the
  start server is not recorded as contacted (`StartAskedAgain`).
* The header of the line reader calls it analogous to `fgets`. It takes what `fgets` takes unless the newline
  comes right at the size limit, and exactly then it needs one cell more than the caller announced
  (`FgetsExceptAtLimit`; `LineTooLong` is an instance).
* A packet survives encoding and decoding exactly when its codes are in range and its last name byte is zero or no
  earlier one is (`RoundTrip`; `LastByteRefused` is an instance that fails). With two different buffers `decode`
  copies from its second argument into its first, the reverse of its documentation; `Decode` follows the code.

## Model

| member | source | states |
|---|---|---|
| NameCodec.ConvertToDnsFormat | lab6/dns_resolver.cpp:598-640 | the rewinding two-mode scan terminates and yields the length-prefixed labels of the dotted text, lengths modulo 256, for every name |
| NameCodec.Serialize | lab6/dns_header.h:46-90 | the second encoder writes header, the same encoding of the name, type and class, in strlen + 18 bytes |
| NameCodec.LengthByteExact | lab6/dns_header.h:49-66 | a length is stored as it is up to 255, and modulo 256 |
| NameCodec.SmallName | lab6/dns_resolver.cpp:598-640 | the bytes of one encoded name |
| NameDecoder.ConvertToDottedFormat | lab6/dns_resolver.cpp:912-927 | the in-place decoder, whose loops share an index and re-measure the string, on every buffer: what it leaves, and exactly when it leaves the buffer |
| NameDecoder.WireDecodes | lab6/dns_resolver.cpp:912-927 | on a wire form it leaves the dotted text and a terminator and touches nothing after the wire form |
| NameCodec.JoinSplit | lab6/dns_resolver.cpp:598-640 | joining the labels of any text gives the text back |
| NameCodec.SplitJoin | lab6/dns_resolver.cpp:912-927 | the labels of a joined text are the labels joined, when none contains a dot |
| NameCodec.EncodedCStr | lab6/dns_resolver.cpp:366-367 | after strcpy a key holds the labels before the first whose length byte is zero |
| NameDecoder.TextRoundTrip | lab6/dns_resolver.cpp:598-640 | for every name, whatever lies behind its key, decoding stays inside and gives the name back if and only if every label has 1 to 127 bytes |
| NameDecoder.LongLabelMisread | lab6/dns_resolver.cpp:917 | a 130-byte label, whose length byte is negative as a char, comes back as another text from inside its 255-byte buffer |
| NameDecoder.EncodeThenDecode | lab6/dns_resolver.cpp:366-372 | encoder, strcpy and in-place decoder together stay inside the buffer and return the name if and only if every label has 1 to 127 bytes |
| NameDecoder.DecodeThenEncode | lab6/dns_resolver.cpp:372-379 | in-place decoder, then encoder, is the identity on every well-formed wire form |
| NameCodec.TrimName | lab6/dns_resolver.cpp:582-596 | trimming removes exactly the first label |
| NameReader.ReadPtrName | lab6/dns_resolver.cpp:889-910 | following a pointer, recursively, copies exactly the bytes of the walk into the buffer at the running index |
| NameReader.ReadName | lab6/dns_resolver.cpp:864-887 | a name is copied whole and the cursor ends just past the first pointer or on the zero byte |
| NameReader.PointerBits | lab6/dns_resolver.cpp:930-932 | testing bits 6 and 7 recognises exactly the bytes from 192 up |
| NameReader.ScanIsRfc | lab6/dns_resolver.cpp:864-910 | on readable names the copied bytes are those of the label expansion of section 4.1.4 of RFC 1035 |
| NameReader.ScanEndIsRfc | lab6/dns_resolver.cpp:864-887 | the cursor ends just behind a pointer, wherever it leads, or on the zero byte of a name that is spelled out |
| NameWalk.ScanExact | lab6/dns_resolver.cpp:864-910 | if every pointer fits one byte, the bytes copied are those of RFC 1035 if and only if label bytes are neither zero nor above 191 |
| NameWalk.WalkExact | lab6/dns_resolver.cpp:867-908 | the walk over the message is that of RFC 1035 if and only if pointers fit one byte and label bytes are neither zero nor above 191 |
| NameWalk.ScanIsWalk | lab6/dns_resolver.cpp:880-905 | the bytes copied are those at which the walk copies |
| NameWalk.FarPointerMisread | lab6/dns_resolver.cpp:872 | a concrete message whose far pointer is followed to the wrong name |
| NameReader.ReadWire | lab6/dns_header.h:46-84 | RFC 1035 reads an encoded name back as its labels |
| Records.FieldsExact | lab6/dns_resolver.cpp:794-837 | exactly when the type, the data length and the data position read by the decoders are the true ones, for compressed, spelled-out and root owners |
| Records.StepExact | lab6/dns_resolver.cpp:794-857 | after one answer or additional record the cursor is in step if and only if the record keeps it so |
| Records.SpelledOutMisread | lab6/dns_resolver.cpp:811-857 | an address record with a spelled-out owner after which the cursor is out of step |
| Records.AuthorityStepExact | lab6/dns_resolver.cpp:642-686 | after one authority record, SOA included, the cursor is in step if and only if the name in its data ends it and the fields are read late or the low byte of the data length is between 1 and 191 |
| Records.ServerExact | lab6/dns_resolver.cpp:683-697 | for data that is one name: in step with the true name server if and only if the fields are read late; otherwise, in step, the server begins with the low byte of the data length |
| Records.SpelledOutServer | lab6/dns_resolver.cpp:660-684 | an authority record with a spelled-out owner: in step, and the wrong server |
| Records.OwnerExact | lab6/dns_resolver.cpp:649-658 | if every pointer fits one byte, the owner, an authority's zone, is the true one if and only if it is readable |
| Records.MessageExact | lab6/dns_resolver.cpp:487-507 | over any number of records of any sections every decode ends in step if and only if every record keeps it so |
| Decoders.ReadAddress | lab6/dns_resolver.cpp:934-945 | the four bytes become dotted decimal text |
| Decoders.AddressTextInjective | lab6/dns_resolver.cpp:934-945 | the text of an address determines its four bytes |
| Decoders.DecodeAnswerRecord | lab6/dns_resolver.cpp:794-862 | cursor arithmetic and effect on the resolved names, for every record read inside the message |
| Decoders.DecodeAuthoritativeRecord | lab6/dns_resolver.cpp:642-702 | the cursor ends behind the name read as data, that name is mapped to the owner, an earlier zone of the same server is kept |
| Decoders.DecodeAdditionalRecord | lab6/dns_resolver.cpp:704-792 | the address of a server just named goes to the cache under its zone, any other record only moves the cursor |
| Sections.DecodeAnswers | lab6/dns_resolver.cpp:487-490 | any answer section read inside the message: the effects of its records in order, on one cursor |
| Sections.DecodeAuthorities | lab6/dns_resolver.cpp:498-500 | the same for any authority section and the map of servers to zones |
| Sections.DecodeAdditionals | lab6/dns_resolver.cpp:503-506 | the same for any additional section and the name server cache |
| Responses.GoodAnswersRead | lab6/dns_resolver.cpp:487-490 | a section of good answers of any length: all addresses taken in order, cursor exactly at its end |
| Responses.GoodAuthoritiesRead | lab6/dns_resolver.cpp:498-500 | a section of good authorities, root-owned records included: cursor in step, servers mapped to their zones |
| Responses.GoodAdditionalsRead | lab6/dns_resolver.cpp:503-506 | a section of good additionals: one cache entry per address of a listed server, in order |
| Responses.AnswersExact | lab6/dns_resolver.cpp:839-858 | the addresses read off a section are those of its records of type 1, each with its owner |
| Responses.InsertAllIsFirst | lab6/dns_resolver.cpp:697 | a server listed more than once keeps the first zone listed |
| Responses.DecodeReferral | lab6/dns_resolver.cpp:496-507 | both sections of any referral read inside the message, one after the other |
| Responses.GoodReferralRead | lab6/dns_resolver.cpp:496-507 | for a good referral the cache gains exactly the nested-loop join of the additional addresses with the listed servers, under each server's first zone |
| Responses.GlueIsJoin | lab6/dns_resolver.cpp:697-778 | the two passes over authorities and additionals compute the nested-loop join |
| Responses.AddAllIsLast | lab6/Locked_Map.cpp:18-25 | of several answers for a name the last one stays, other names keep their addresses |
| Headers.HeaderFields | lab6/dns_header.h:21-45 | the six fields of a header, in network order |
| Responses.CountsExact | lab6/dns_resolver.cpp:486-503 | answers, authorities and additionals are counted by the fourth, fifth and sixth field; a referral has both of the last two |
| SmallNetwork.SmallReferralGood | lab6/dns_resolver.cpp:470-507 | a referral with two servers and the address of the second, in literal bytes, is a good message and tells the resolver just that server, its zone and the text of its address |
| SmallNetwork.SmallNetGood | lab6/dns_resolver.cpp:440-482 | a network that sends it for its name meets what the resolver's theorems ask |
| Multimap.RangeIsServersOf | lab6/Locked_Multi.cpp:5-13 | the equal range of a key holds exactly the servers stored under it, oldest first |
| Multimap.LessByFirstDifference | lab6/Locked_Multi.cpp:21 | keys are ordered by their first differing byte, a prefix first |
| Multimap.EmplaceAllServers | lab6/Locked_Multi.cpp:30-37 | emplacing keeps the order, adds each entry once, and puts it behind the older ones of its key |
| Caches.LockedMulti.GetNS | lab6/Locked_Multi.cpp:5-13 | the iterator range enumerates the servers of the key |
| Caches.LockedMulti.Emplace | lab6/Locked_Multi.cpp:30-37 | exactly one entry is added and every other key is unchanged |
| Caches.LockedMulti.GetKeys | lab6/Locked_Multi.cpp:15-28 | the upper_bound walk visits the first entry of every run of equal keys |
| Caches.LockedMulti.Serialize | lab6/Locked_Multi.cpp:39-66 | the dump is the rendering of the runs |
| CacheDump.GroupsExact | lab6/Locked_Multi.cpp:15-66 | runs have strictly increasing keys, every stored key is there, each with all its servers |
| CacheDump.UngroupGroups | lab6/Locked_Multi.cpp:39-66 | every entry is in the dump exactly once, in multimap order |
| CacheDump.DumpDeterminesCache | lab6/Locked_Multi.cpp:39-66 | two delimiter-free caches with the same dump are equal |
| CacheDump.SmallDump | lab6/Locked_Multi.cpp:39-66 | the bytes of one dump |
| Caches.LockedMap.Find | lab6/Locked_Map.cpp:7-16 | the stored address, or the empty string |
| Caches.LockedMap.Add | lab6/Locked_Map.cpp:18-25 | the address of one name is replaced, all others stay |
| LabelBuffers.TrimLabel | lab6/dns_resolver.cpp:514-525 | decode, test for a dot, trim and encode turn the key of a suffix into the key of the next shorter one, or report that there is none |
| Queries.QueryFields | lab6/dns_resolver.cpp:437-446 | every query asks for an address (type 1) of class IN (1), after its name, and ends where records begin |
| Queries.QueryExact | lab6/dns_resolver.cpp:440-482 | RFC 1035 reads the query name as the labels of the text if and only if they have 1 to 63 bytes |
| Queries.QuestionExact | lab6/dns_resolver.cpp:420-446 | the whole query is a standard query with one question, for the address of the name, and nothing else, under the same condition |
| Resolver.Resolver.Exchange | lab6/dns_resolver.cpp:420-465 | the bytes given to the network are such a query |
| Queries.LongLabelQuery | lab6/dns_header.h:46-84 | the query for a name of 64 bytes without a dot cannot be read |
| Resolver.Resolver.CheckNsCacheForLabel | lab6/dns_resolver.cpp:537-580 | the first cached server of the key not yet contacted is returned and recorded, or the empty sign and no change |
| Resolver.FirstFreshIsFirst | lab6/dns_resolver.cpp:537-570 | every server cached before it is contacted |
| Resolver.ResolvableNames | lab6/dns_resolver.cpp:366-367 | every name of up to 253 bytes with labels of 1 to 127 bytes can be looked up |
| Resolver.Resolver.WhereToStart | lab6/dns_resolver.cpp:365-391 | the address of the best cached server, or the root server when no suffix has one |
| Resolver.BestIsLongestSuffix | lab6/dns_resolver.cpp:365-391 | the best server is the first uncontacted one of the longest suffix that has any |
| Resolver.Resolver.SendDnsRequest | lab6/dns_resolver.cpp:406-535 | the search terminates; exactly one query to the given server and one per newly contacted server, no newly contacted server twice, each cached under a suffix; true exactly when the name is resolved; the first reply decides as Outcome says; failure after a referral leaves no cached server of any suffix uncontacted, those added by nested requests included; both caches hold exactly what they held and what the replies of this request gave, in the order of the queries |
| Resolver.Resolver.Search | lab6/dns_resolver.cpp:508-532 | the referral loop keeps every suffix already dealt with exhausted through nested requests, and the caches learn exactly what the replies give |
| Resolver.SearchNested | lab6/dns_resolver.cpp:527-530 | a nested request keeps the accounting of queries, the growth of the cache and the origin of contacted servers |
| Resolver.PathBound | lab6/dns_resolver.cpp:557-570 | distinct contacted servers are at most as many as there are server names |
| Resolver.Resolver.HandleLookup | lab6/dns_resolver.cpp:207-283 | a resolved name is answered without a query; any other is asked of the best cached server or the root, then of the contacted ones, within a bound on queries; the address sent back is the one last given for the name by the replies of this lookup |
| Resolver.StartAskedAgain | lab6/dns_resolver.cpp:365-391 | a failed search that leaves nothing uncontacted has come back to the server it started at |
| Resolver.LearnedMore | lab6/dns_resolver.cpp:508-532 | what a request and its nested requests taught is what all their replies teach, in the order of the queries |
| Resolver.Resolver.ServeLookups | lab6/dns_resolver.cpp:218-280 | in any run of lookups a name once found is found again without a further query |
| Permits.RunConserves | lab6/dns_resolver.cpp:288-337 | in every interleaving permits plus running handlers minus launches not yet counted is 100, at most 100 handlers run, and idle means all permits are back |
| Permits.HandlersAtOnce | lab6/dns_resolver.cpp:319-332 | n handlers can run at once if and only if n is at most 100 |
| Permits.LaunchesAfterShutdown | lab6/dns_resolver.cpp:317-334 | after a shutdown at most one handler starts, the one whose client was being accepted |
| Permits.LateLaunch | lab6/dns_resolver.cpp:317-334 | and in some runs it does |
| Permits.DrainReturnsAll | lab6/dns_resolver.cpp:309-311 | from any reachable state the finishing of the running handlers returns every permit |
| Requests.Encode | lab2/encode.cpp:13-57 | the whole packet after encoding, in place or into another buffer, and refusal exactly for codes out of range |
| Requests.PortOrder | lab2/encode.cpp:23 | the encoded port, as stored, is read from the network as the port of the request |
| Requests.SwapExact | lab2/encode.cpp:105 | conversion between host and network order exchanges the two bytes |
| Requests.CodesExact | lab2/encode.cpp:61-66 | message types 1 to 6 and statuses 0 to 5 are valid, and no others |
| Requests.IsInvalid | lab2/encode.cpp:61-88 | zero exactly for codes in range and a name that is zero after its first zero byte |
| Requests.Decode | lab2/encode.cpp:92-113 | the whole packet after decoding, and acceptance exactly for acceptable packets |
| Requests.RoundTrip | lab2/encode.cpp:13-113 | an encoded packet decodes to the same port, codes and name, and is accepted exactly when stated |
| Requests.LastByteRefused | lab2/encode.cpp:40-86 | a packet with codes in range that is refused after encoding |
| NameService.StepKeepsInv | lab2/oit_ns.cpp:199-238 | every request keeps the table within its capacity and in agreement with the history of bindings |
| NameService.RunInv | lab2/oit_ns.cpp:203-230 | so does every state of every run |
| NameService.LookupExact | lab2/ns_handler.cpp:116-157 | LOOKUP with port 0 succeeds with port p if and only if the latest inserting DEFINE not followed by a CLOSE bound p and has not expired; a name not found is not in the table afterwards, and no other entry goes |
| NameService.LookupInRun | lab2/ns_handler.cpp:116-157 | the same for every LOOKUP of every run |
| NameService.CloseExact | lab2/ns_handler.cpp:161-196 | CLOSE succeeds only for the bound port, and does while the binding is unexpired; another port gets INVALID_ARG and changes nothing; without a binding SERVICE_NOT_FOUND |
| NameService.KeepAliveExact | lab2/ns_handler.cpp:36-69 | KEEP_ALIVE succeeds only for the bound port, and does while the binding is unexpired unless the table is full |
| NameService.RoomExact | lab2/oit_ns.cpp:203-230 | DEFINE and KEEP_ALIVE erase entries only from a full table; those expired before go, those unexpired after do not |
| NameService.ReplyExact | lab2/ns_handler.cpp:16-196 | type and port of every reply, with the codes as numbers |
| NameService.DefineExact | lab2/ns_handler.cpp:73-112 | DEFINE is refused exactly while an unexpired binding exists or the table is still full after the sweep, which implies that nothing had expired when the sweep began and follows from nothing having expired when it ended |
| NameService.LogExact | lab2/ns_handler.cpp:16-34 | exactly which requests insert or remove a binding |
| NameService.EntriesStable | lab2/ns_handler.cpp:27-28 | only DEFINE adds a name, and no entry changes while it stays |
| NameService.LeaseHolds | lab2/ns_handler.cpp:73-216 | in every run a binding stays, unchanged and in the table, until it expires or is closed |
| NameService.DefinedUntilTimeoutOrClose | lab2/ns_handler.cpp:73-196 | until then, at the time the request is decided, every LOOKUP returns its port and every competing DEFINE gets SERVICE_IN_USE or ALL_PORTS_BUSY |
| NameService.KeepAliveRenewsNothing | lab2/ns_handler.cpp:36-69 | KEEP_ALIVE moves no timeout |
| NameService.DefineSuccessExact | lab2/ns_handler.cpp:98-108 | with a positive keep-alive time a successful DEFINE has bound the name exactly when the name had left the table; with another one also when the expired entry that stayed is the one asked for |
| NameServer.ZeroLeaseServed | lab2/ns_handler.cpp:98-108 | the server itself in that last case, with a keep-alive time of 0 |
| NameServer.KeepAliveServed | lab2/ns_handler.cpp:36-69 | the server itself answers KEEP_ALIVE with SUCCESS and then loses the name |
| NameServer.RefusalsServed | lab2/oit_ns.cpp:199-238 | the server at work, codes as numbers: found, in use, and CLOSE and KEEP_ALIVE with another port |
| NameServer.FullServed | lab2/oit_ns.cpp:199-238 | the server at work, codes as numbers: table full, not found, closed, stopped |
| NameService.StaleDefine | lab2/ns_handler.cpp:97-102 | a run in which DEFINE succeeds and the LOOKUP at the same time finds nothing |
| NameServer.StaleDefineServed | lab2/oit_ns.cpp:199-238 | the server itself answers DEFINE, DEFINE after the lease and LOOKUP with SUCCESS, SUCCESS and SERVICE_NOT_FOUND |
| NameServer.Server.UpdateService | lab2/ns_handler.cpp:16-34 | a new name is inserted with its timeout, an existing entry is left alone |
| NameServer.Server.KeepAlive | lab2/ns_handler.cpp:36-69 | success exactly for a known name and its port, and no change to the table |
| NameServer.Server.DefineService | lab2/ns_handler.cpp:73-112 | in use, stale or new, decided at one clock reading |
| NameServer.Server.LookupServicePort | lab2/ns_handler.cpp:116-157 | takes only LOOKUP steps, erasing an expired entry |
| NameServer.Server.RemoveService | lab2/ns_handler.cpp:161-196 | takes only CLOSE steps, of which CloseExact says when they succeed |
| NameServer.Server.ClearTimedoutServices | lab2/ns_handler.cpp:199-216 | in any order and with a moving clock, all entries expired at the start go and none unexpired at the end goes |
| NameServer.Server.SweepIfFull | lab2/oit_ns.cpp:203-206 | makes the room that DEFINE and KEEP_ALIVE find |
| NameServer.Server.GenerateResponse | lab2/oit_ns.cpp:199-238 | every decoded request is answered by a step of the state machine |
| NameServer.Server.Handle | lab2/oit_ns.cpp:330-439 | every datagram gets an encodable response with the name it carried; a bad one gets UNDEFINED_ERROR and changes nothing |
| NameServer.Server.Serve | lab2/oit_ns.cpp:323-441 | the loop ends with the first accepted STOP; the accepted requests and the replies that clients decode form a run of the state machine, and anything else is sent UNDEFINED_ERROR |
| LineReader.Reader.Refill | lab1/src/readline.c:24-42 | fetching a block changes nothing that is pending, and fails only when nothing is |
| LineReader.Reader.TakeByte | lab1/src/readline.c:44-65 | one pass of the loop takes the byte the unbuffered reader takes next, or ends the line where it does |
| LineReader.Reader.FillLine | lab1/src/readline.c:19-67 | the loop terminates and stores exactly the bytes the unbuffered reader takes |
| LineReader.Reader.ReadLine | lab1/src/readline.c:9-68 | one call returns the unbuffered reader's line, of the length that size and first newline give, terminated by a zero, leaves the rest pending, and answers NULL exactly when nothing is pending |
| LineReader.Reader.ReadLines | lab1/src/readline.c:9-68 | any run of calls returns the unbuffered reader's lines |
| LineReader.SameLines | lab1/src/readline.c:13-47 | the lines are the same however the input is cut into blocks |
| LineReader.LinesConserve | lab1/src/readline.c:49-64 | the lines and the unread remainder are together the input |
| LineReader.NullIsFinal | lab1/src/readline.c:27-36 | NULL means everything is read, and every later call answers NULL |
| LineReader.AllIsRead | lab1/src/readline.c:56-64 | with sizes of at least 2, as many calls as bytes read everything |
| LineReader.LineShape | lab1/src/readline.c:45-64 | a line ends at a newline, at the limit or at the end of input, and nowhere else |
| LineReader.SizeExact | lab1/src/readline.c:9-64 | in the caller's size alone: a call returns up to and including a newline among the first `size` bytes, and otherwise `size - 1` bytes or all there are |
| LineReader.FgetsExceptAtLimit | lab1/src/readline.c:49-60 | exactly when a call takes more than fgets would, and one cell more than announced |
| LineReader.LineTooLong | lab1/src/readline.c:49-60 | with a size of 2, a byte and its newline come as one line |

## Left out

- NameDecoder.ConvertToDottedFormat: answers false where the source reads or writes outside the buffer (before it, for an empty name) and does not follow it there.
- NameReader.ReadName: the bytes copied must stop inside the message after some number of jumps and fit the name buffer; on other input the source does not terminate or leaves its buffers.
- Records.FieldsExact: owners must be walked as RFC 1035 does up to their pointer, and records owned by the root have types below 256; otherwise the source takes the fixed fields or label bytes for something else.
- Records.StepExact: the same owners as FieldsExact.
- Records.AuthorityStepExact: the same owners, and data that begins with a name walked as RFC 1035 does.
- Records.ServerExact: the same, and data that is exactly one readable name; without it there is no true server to compare with.
- Records.OwnerExact: near pointers; a far pointer is followed to another place, which may hold the same name by accident.
- Records.MessageExact: records whose owners and servers are walked as in StepExact and AuthorityStepExact.
- Decoders.ReadAddress: the two-byte buffer that receives each number is taken to be large enough.
- Responses.GoodAuthoritiesRead: the data is exactly one name, as in NS records; after an SOA record the source is out of step, so responses with one are not good messages where the program reads it, that is beside additional records and without an answer for the name.
- Sections.DecodeAnswers: every record is read inside the message and its name decoded inside its buffer, here and in the other two sections; for an answer owned by the root the source writes before the buffer.
- Responses.GoodAnswersRead: compressed owners, here and in additional records; of the spelled-out ones only those without data stay in step, which carry no address.
- Decoders.DecodeAnswerRecord: the class field and the TTL are passed over; the source prints the class and uses neither.
- Resolver.Resolver.SendDnsRequest: responses must satisfy GoodMessage and name servers from one finite set, without which an adversarial network keeps the search going for ever; the question section is taken to repeat the query, as the source does.
- Resolver.Resolver.Exchange: the datagram sent is the serialized query; the source passes the size of the stream object as its length.
- Resolver.Resolver.WhereToStart: names with a first label that is not empty and labels of at most 127 bytes; on others the source decodes label buffers into other texts or outside them.
- Resolver.Resolver.HandleLookup: the same names, which fit the 255-byte label buffers; the address sent back, not the text around it; the dump, verbose, normal and shutdown commands are not modelled.
- Caches.LockedMulti: the mutexes, and lookups that run concurrently; all resolver statements are about sequential runs.
- Caches.LockedMap: the dump of the resolved names, whose order is that of a hash table.
- Permits: sockets, the 45 second accept time-out and the busy wait; an accept that times out starts a handler in the model, as it does in the source.
- NameServer.Server.Handle: what lies behind the 50 name bytes in memory is taken to begin with a zero byte; the source reads on behind a name of 50 bytes other than zero. So do the other handlers.
- NameServer.Server: getopt, sockets and logging; datagrams shorter than a request count as padded with zeros.
- LineReader.Reader: one descriptor per thread; the source keeps one set of static variables per thread for all descriptors.
- The order in which a hash table is swept is arbitrary in the model.
- Storage management of strings and records, such as the dangling result of the encoder, is not part of this model.
- The file transfer labs, the clients, the port helpers and the older packet encoder of lab1 would add only I/O or easier variants.
