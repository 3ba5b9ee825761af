# Sniffbox: a verified model of its core

This project models the parts of the sniffbox workspace where state, arithmetic and parsing meet, in Dafny 4.11, and
proves what they promise. `dafny verify dfyconfig.toml` checks all of it.

What changes in place in the program is a class, an array or a loop here, proved against a function on values; what
the program promises is then a lemma about that function, over every input or every sequence of operations. Bytes and
machine words are subset types of the integers, and every wrap, cast and saturation that can be reached is written out.

| files | what they model |
|---|---|
| `Hashing`, `RecencyList`, `AddressChoice`, `Shard`, `RecencyHistory` | one shard of the FakeIP table: an index-linked list with free list and two indexes, as a bounded recency list |
| `PoolLayout`, `PoolState`, `PoolHistory`, `Placement`, `FakeIpPool` | the sharded FakeIP pool: address geometry, routing, histories, placement independent of order |
| `DnsNames`, `DnsMessage`, `DnsReply`, `DnsRecords`, `DnsServer`, `DnsWire` | the DNS codec, compressed names included, the server between client and pool, and its messages bit by bit |
| `DrainCounter` | byte counters raced by adders and two kinds of drainers, as interleaved atomic steps |
| `Utf8`, `ChunkSyntax`, `ChunkDecoder`, `Dechunk` | the chunked coding (section 7.1 of RFC 9112), a streaming and a one-shot decoder of it |
| `HttpFraming`, `ChunkOverflow`, `HttpBodies` | heads and bodies of HTTP/1.1 messages under every segmentation of reads, and against a framing without a 64-bit limit |
| `TlsRecords`, `TlsHello` | handshake messages across TLS records, and the ClientHello parser |
| `QuicFrames`, `QuicSniffer`, `QuicReassembly`, `QuicTiling` | CRYPTO frames of QUIC packets, the sniffer that collects them, and their reassembly up to the server name |
| `Socks5`, `SocksRequest`, `SocksNegotiation`, `SocksDialogue`, `SocksSession`, `SocksUdp` | SOCKS5 client and server, run against each other from the greeting to the reply; datagrams |
| `IdlePool` | the queue of idle upstream connections shared by concurrent tasks, and its refill |
| `SortedPairs`, `IniEnv`, `IniValues`, `IniFiles` | the settings file: quoting exporter and scanner, and what they make of any value and any file |
| `NodeNames` | generated node names, and the list they end up in |
| `NegCache`, `NegCacheLimits` | the timed table of failure streaks, and when it departs from them |
| `MachineInts`, `Wrappers` | machine integers, options and results |

## Where the program does less than it seems to promise

Each point is a lemma below: inputs on which the promise fails, and the exact condition under which it holds.

- The restart test of the FakeIP pool claims addresses independent of order; that holds exactly when no two names of
  the set share an ideal address, or shards hold one entry (`Placement.OrderIndependenceExactly`). With room for two
  entries every hash has sets of names on which it fails (`Placement.TooManyNames`,
  `Placement.SomeNamesDependOnOrder`).
- A reply repeats the question count of the query but echoes one question, so a client can parse it exactly when the
  query announced one question (`DnsReply.AnswerReadsBack`; a query with two: `DnsReply.TwoQuestionsUnreadable`).
- The query builder accepts names that are not ASCII, which the parser reads as Latin-1, so a name comes back exactly
  when it is ASCII (`DnsServer.QueryRoundTrip`).
- A counter's bytes are all paid exactly while the total stays below 2^64 (`DrainCounter.NothingLostNorPaidTwice`; one
  byte lost: `DrainCounter.WrapLosesBytes`).
- The one-shot chunk decoder stops at a size line that is not UTF-8, where the streaming one goes on
  (`Dechunk.DecodersAgreeExactly`; a body: `Dechunk.NonUtf8ExtensionDiffers`).
- The relay copies a chunk and its line end by a count that wraps at 64 bits, so a body whose declared chunk is absent
  can pass for complete: exactly when a declared size plus two overflows (`ChunkOverflow.AcceptedExactly`; a body:
  `HttpBodies.AbsentChunkIsAccepted`).
- A reassembled QUIC stream of exactly 65536 bytes passes every limit, but its record gets a length of zero
  (`QuicReassembly.RecordReadsExactly`; a hello lost: `QuicReassembly.LargestStreamIsLost`).
- A fragment beyond a gap blocks a hello that is already complete, and a shorter repeat of a piece loses the rest of
  it: there is a record exactly when the pieces held tile a start of the stream that completes its message
  (`QuicTiling.RecordOfTiles`; two losses: `QuicReassembly.GapBlocksHello`, `QuicTiling.ShorterRepeatLoses`).
- The number reported for a line without its closing quote counts a CR and an LF as a line end each
  (`IniFiles.FileIsScanned`), so in a file with CR LF line ends the (i + 1)-th line is reported as number 2 i + 1
  (`IniFiles.CrLfFile`).
- The negative cache answers every history by the rule only in three kinds of configurations
  (`NegCacheLimits.FaithfulExactly`). A failure that collects garbage reads the clock twice and may drop its own entry
  in between, with any threshold and ttl from 2 on (`NegCacheLimits.StraddlingFailureForgets`; the events that do no
  harm: `NegCache.AnsweredExactly`); with a threshold of 255 the count wraps before the cap applies, in builds without
  overflow checks (`NegCacheLimits.LargestThresholdForgets`).
- For the same reason a collection can change a later answer, exactly when threshold and ttl are both at least 2
  (`NegCacheLimits.GcIsUnobservableExactly`, `NegCacheLimits.GcShows`).

## Model

| member | source | states |
|---|---|---|
| Hashing.FastRange | sniffbox/crates/sb-dns/src/hash.rs:180-182 | The slot is below n for every 64-bit hash |
| Hashing.FastRangeIsHighWord | sniffbox/crates/sb-dns/src/hash.rs:180-182 | The slot is the high word of hash times n, said without dividing |
| Hashing.HighWordMonotone | sniffbox/crates/sb-dns/src/hash.rs:180-182 | Slots follow the order of the hashes, from 0 for 0 to n - 1 for 2^64 - 1 |
| Hashing.EverySlotIsReached | sniffbox/crates/sb-dns/src/hash.rs:180-182 | Every slot is reached by some hash |
| Hashing.ProbeStep | sniffbox/crates/sb-dns/src/hash.rs:185-190 | For n of at least 2 the probe step lies in [1, n) |
| RecencyList.ScanVisits | sniffbox/crates/sb-dns/src/pool.rs:237-242 | The wrap-around scan behind the 32 probes reaches every slot of the slice within n steps |
| RecencyList.FreeAddressExists | sniffbox/crates/sb-dns/src/pool.rs:219-247 | While fewer addresses are taken than the slice has, the search finds one whatever the hash: the `unreachable!` is unreachable |
| RecencyList.IdealSlotWins | sniffbox/crates/sb-dns/src/pool.rs:219-225 | A free ideal slot is always the one chosen |
| RecencyList.RoomForOne | sniffbox/crates/sb-dns/src/pool.rs:200-203 | After the eviction test the list is below its capacity and a free address exists |
| RecencyList.InternedWellFormed | sniffbox/crates/sb-dns/src/pool.rs:196-211 | Interning keeps the abstract list well formed: names and addresses distinct, every address in the slice, length within the capacity |
| RecencyList.LookedBackWellFormed | sniffbox/crates/sb-dns/src/pool.rs:213-217 | Looking back keeps the abstract list well formed |
| AddressChoice.SlotIsCandidate | sniffbox/crates/sb-dns/src/pool.rs:219-247 | The search looks at exactly these slots in this order: k strides from the ideal slot for k up to 32, around the end of the slice, and then every slot in turn |
| AddressChoice.FoundIsFirstChoice | sniffbox/crates/sb-dns/src/pool.rs:219-247 | The address found is the first of them that is not taken |
| AddressChoice.WhereANewNameGoes | sniffbox/crates/sb-dns/src/pool.rs:128-141 | A new name goes to the shard its hash selects, in front of what is left there, at the first choice of its mixed hash; stated on high words, with no function of the model |
| FakeIpShard.Shard.constructor | sniffbox/crates/sb-dns/src/pool.rs:181-194 | A new shard satisfies the representation invariant and holds the empty list |
| FakeIpShard.Shard.CountIsLive | sniffbox/crates/sb-dns/src/pool.rs:48-59 | `count` is the length of the abstract list, which the invariant bounds by the capacity |
| FakeIpShard.Shard.Unlink | sniffbox/crates/sb-dns/src/pool.rs:286-304 | Taking any node out of the doubly-linked list leaves forward and backward links of the others in agreement from head to tail and changes no payload |
| FakeIpShard.Shard.PushFront | sniffbox/crates/sb-dns/src/pool.rs:306-317 | Linking a detached node in front keeps the list linked both ways, with that node first |
| FakeIpShard.Shard.Promote | sniffbox/crates/sb-dns/src/pool.rs:319-325 | Exactly moves one entry to the front of the abstract list; indexes and free list stay exact |
| FakeIpShard.Shard.FindFreeIp | sniffbox/crates/sb-dns/src/pool.rs:219-247 | The probing loops return the first free slot of the probe and scan order; the panic branch is dead |
| FakeIpShard.Shard.AllocNode | sniffbox/crates/sb-dns/src/pool.rs:249-269 | Reuses a free index or appends a node, touches no other node, and live and free indices go on partitioning the node vector |
| FakeIpShard.Shard.EvictTail | sniffbox/crates/sb-dns/src/pool.rs:271-284 | Removes exactly the last entry of the abstract list from list and both indexes |
| FakeIpShard.Shard.Insert | sniffbox/crates/sb-dns/src/pool.rs:204-210 | Adds exactly one entry in front, to list and both indexes |
| FakeIpShard.Shard.Intern | sniffbox/crates/sb-dns/src/pool.rs:196-211 | Refines the abstract operation: move to front, or evict the last entry if full and put the new one in front at its first free address |
| FakeIpShard.Shard.Lookback | sniffbox/crates/sb-dns/src/pool.rs:213-217 | Refines the abstract operation: the owner of the address moves to the front and is returned; an unknown address changes nothing |
| RecencyHistory.LruIsTruncatedRecency | sniffbox/crates/sb-dns/src/pool.rs:196-217 | After any sequence of operations the live names are, in order, the first `cap` of the unbounded recency list |
| RecencyHistory.BeforeInRecency | sniffbox/crates/sb-dns/src/pool.rs:319-325 | In the unbounded recency list exactly the names touched since stand before a name |
| RecencyHistory.LiveIffRecentlyTouched | sniffbox/crates/sb-dns/src/pool.rs:196-217 | A touched name is live if and only if fewer than `cap` other names were touched since |
| RecencyHistory.UntouchedIsNotLive | sniffbox/crates/sb-dns/src/pool.rs:196-217 | A name no operation touched is not live |
| PoolLayout.BlockFits | sniffbox/crates/sb-dns/src/pool.rs:70-76 | The block of any prefix, found by alignment, fits 32 bits |
| PoolLayout.BlockIsAligned | sniffbox/crates/sb-dns/src/pool.rs:70-76 | The block is the aligned stretch of 2^(32 - prefix) addresses around the configured one |
| PoolLayout.CapacityBound | sniffbox/crates/sb-dns/src/pool.rs:103-106 | Slices fill no more than the block, and capacities add up to at least the request or the slices, and to less than one entry per shard over the request |
| PoolLayout.PlanIsSound | sniffbox/crates/sb-dns/src/pool.rs:83-126 | Every accepted configuration lays its slices side by side from network + 4 and leaves less than one address per shard over; as many shards as asked for, but at least one and with 16 addresses each; capacities that add up to what was asked for as far as the slices hold it, and to less than one entry per shard over it; the ttl as asked |
| PoolLayout.RefusedIffTiny | sniffbox/crates/sb-dns/src/pool.rs:85-91 | A configuration is refused if and only if its block has fewer than 21 addresses, with the number that could be assigned |
| PoolLayout.OwningSlice | sniffbox/crates/sb-dns/src/pool.rs:143-153 | Dividing the offset by the span finds the slice an address lies in |
| PoolState.AfterKeepsInvariant | sniffbox/crates/sb-dns/src/pool.rs:128-153 | Every operation keeps each shard well formed and every name in the shard its hash selects |
| PoolState.LiveLooksBack | sniffbox/crates/sb-dns/src/pool.rs:143-153 | The address of every live entry looks back to its name |
| PoolState.LookbackIsLive | sniffbox/crates/sb-dns/src/pool.rs:143-153 | Whatever a look-up returns is a live entry with that address |
| PoolState.AddressesAreUnique | sniffbox/crates/sb-dns/src/pool.rs:128-153 | Two live entries never share an address, not even across shards |
| PoolState.TotalBound | sniffbox/crates/sb-dns/src/pool.rs:172-174 | The entries of all shards add up to at most shards times capacity |
| PoolState.AfterGrows | sniffbox/crates/sb-dns/src/pool.rs:196-217 | No operation makes a shard hold fewer entries |
| PoolState.PoolSafety | sniffbox/crates/sb-dns/src/pool.rs:83-153 | For every accepted configuration and every sequence of operations: totals within the block and below the request plus one per shard, every live address in [network + 4, broadcast), and every one looks back to its own lower-cased name |
| PoolState.InternThenLookback | sniffbox/crates/sb-dns/src/pool.rs:128-153 | What intern returns looks back to the lower-cased name it was given |
| PoolState.LiveKeepsAddress | sniffbox/crates/sb-dns/src/pool.rs:196-200 | Any spelling of a live name gets the address it already has |
| PoolState.SpellingsOfOneName | sniffbox/crates/sb-dns/src/pool.rs:128-135 | Two names are one to the pool if and only if they differ in the case of ASCII letters only |
| PoolState.OnlyTheTailLeaves | sniffbox/crates/sb-dns/src/pool.rs:200-202 | An operation removes at most the last entry of the one full shard it works on; no other entry leaves or changes |
| PoolHistory.ShardLivesItsShare | sniffbox/crates/sb-dns/src/pool.rs:128-153 | A shard of the pool behaves as one shard alone under its share of the operations |
| PoolHistory.PoolLru | sniffbox/crates/sb-dns/src/pool.rs:128-153 | Over any sequence of pool operations a touched name is live, and looks back, if and only if fewer than `cap` names of its shard were touched since |
| Placement.RunKeepsIdeal | sniffbox/crates/sb-dns/src/pool.rs:219-225 | While no ideal addresses collide every live entry sits at its ideal address |
| Placement.CollisionBreaksOrder | sniffbox/crates/sb-dns/src/pool.rs:219-236 | With room for two entries, two names with one ideal address make the addresses depend on the order |
| Placement.RestartTestFails | sniffbox/crates/sb-dns/src/pool.rs:375-391 | So for any two names with one ideal address: the two runs of the unit test disagree on the second |
| Placement.OrderIndependenceExactly | sniffbox/crates/sb-dns/src/pool.rs:375-391 | Any two pools asked for names of a set in any order, with any repeats, give the same addresses if and only if no two of the names share an ideal address or shards hold one entry only; the unit test claims it unconditionally |
| Placement.IndependentMeansIdeal | sniffbox/crates/sb-dns/src/pool.rs:219-225 | Two runs always agree on the addresses if and only if every run gives every name its ideal address |
| Placement.TooManyNames | sniffbox/crates/sb-dns/src/pool.rs:375-391 | For every hash: more names than the slices have addresses, in a pool whose shards hold two entries, depend on the order |
| Placement.SomeNamesDependOnOrder | sniffbox/crates/sb-dns/src/pool.rs:375-391 | For every hash and every layout with room for two there are two names on which the unit test fails: one pool asked for both in one order and one asked in the other disagree |
| Placement.NothingIsEvicted | sniffbox/crates/sb-dns/src/pool.rs:196-211 | While every shard's share of the names fits its capacity nothing is evicted |
| FakeIpPool.Lowered | sniffbox/crates/sb-dns/src/pool.rs:129-135 | The conditional lower-casing equals lower-casing always |
| FakeIpPool.Pool.New | sniffbox/crates/sb-dns/src/pool.rs:83-126 | Fails as the plan does; otherwise builds the shards of the plan, all empty |
| FakeIpPool.Pool.Intern | sniffbox/crates/sb-dns/src/pool.rs:128-141 | The sharded object refines the abstract pool operation |
| FakeIpPool.Pool.Lookback | sniffbox/crates/sb-dns/src/pool.rs:143-153 | The sharded object refines the abstract look-up, out-of-range addresses included |
| FakeIpPool.Pool.Len | sniffbox/crates/sb-dns/src/pool.rs:172-174 | With other tasks at work between the shard locks: the sum lies between the live entries at the start and at the end, so alone it is their number |
| DnsNames.ParseName | sniffbox/crates/sb-dns/src/message.rs:83-111 | The parsing loop computes the recursive reading of a name, its errors included |
| DnsNames.SkipName | sniffbox/crates/sb-dns/src/message.rs:294-317 | The 256-step skipping loop computes the recursive skipping of a name |
| DnsNames.ReadName | sniffbox/crates/sb-dns/src/message.rs:319-351 | Following compression pointers ends on every buffer, cyclic ones included, by hops left and then bytes left |
| DnsNames.ParsedIsWire | sniffbox/crates/sb-dns/src/message.rs:83-111 | What is accepted is a sequence of wire labels and the name is their lower-cased spelling |
| DnsNames.WireIsParsed | sniffbox/crates/sb-dns/src/message.rs:83-111 | Every sequence of wire labels is accepted, ending right behind itself, if and only if it spells at most 255 bytes; otherwise the name is too long |
| DnsNames.WireIsSkipped | sniffbox/crates/sb-dns/src/message.rs:294-317 | Wire labels are skipped to the same place |
| DnsNames.WireIsRead | sniffbox/crates/sb-dns/src/message.rs:319-351 | ASCII wire labels are read back as their dotted text |
| DnsNames.WalkersAgree | sniffbox/crates/sb-dns/src/message.rs:294-351 | On any buffer: where parsing succeeds, skipping ends at the same place within its bound, and reading gives the same name up to letter case if the bytes are ASCII |
| DnsMessage.ParseQuery | sniffbox/crates/sb-dns/src/message.rs:52-81 | The query parser computes the functional reading of a query, every error included |
| DnsMessage.BuildQueryWith | sniffbox/crates/sb-dns/src/message.rs:162-186 | The builder writes header, labels and question; the empty name is the root, and an empty label, one over 63 bytes or a name over 255 is refused |
| DnsMessage.WriteResponseHeader | sniffbox/crates/sb-dns/src/message.rs:150-156 | Patches exactly the flag and count bytes of the echoed header in place |
| DnsMessage.EchoPrefix | sniffbox/crates/sb-dns/src/message.rs:119-123 | A reply starts with the query up to the end of its question and a response header |
| DnsMessage.AnswerA | sniffbox/crates/sb-dns/src/message.rs:125-135 | The echoed question, then one A record that points at its name |
| DnsMessage.WriteErrorResponse | sniffbox/crates/sb-dns/src/message.rs:353-364 | The bare twelve-byte error reply to an unparsable query: its id if it has two bytes, zero otherwise |
| DnsReply.ReadTxt | sniffbox/crates/sb-dns/src/message.rs:260-273 | The strings of a TXT record, cut where the record ends |
| DnsReply.ReadRecord | sniffbox/crates/sb-dns/src/message.rs:243-289 | One answer record adds what its type says to the result |
| DnsReply.ParseResponse | sniffbox/crates/sb-dns/src/message.rs:204-292 | The response parser computes the functional reading of a response; no access is out of bounds |
| DnsRecords.NameIsRead | sniffbox/crates/sb-dns/src/message.rs:319-351 | A name compressed by any chain of pointers, cycles and dangling ones included, reads as the whole name if it ends, takes at most eight pointers and 255 bytes, and as none otherwise |
| DnsRecords.SelfPointerIsDropped | sniffbox/crates/sb-dns/src/message.rs:639-653 | A pointer to itself gives no name |
| DnsRecords.ResponseReadsBack | sniffbox/crates/sb-dns/src/message.rs:204-292 | Every encoded response with any questions and any A, AAAA, TXT, MX, SRV and other records, names compressed in any way, reads back: id, code, addresses, strings, exchanges and services in order, and the least ttl of the addresses |
| DnsReply.AnswerReadsBack | sniffbox/crates/sb-dns/src/message.rs:125-135 | An A reply to any accepted query reads back as its id, no error, that one address and its ttl if the query announced one question, and as an error if and only if it announced another count, because the count is echoed but only one question is |
| DnsReply.EmptyReplyReadsBack | sniffbox/crates/sb-dns/src/message.rs:137-148 | The same for replies without answers |
| DnsReply.TwoQuestionsUnreadable | sniffbox/crates/sb-dns/src/message.rs:119-148 | An accepted query with two questions, to which neither an A reply nor an error reply can be parsed |
| DnsServer.HandleQuery | sniffbox/crates/sniffbox/src/dns_server.rs:45-70 | Serving a query on the pool object equals the function on the abstract pool |
| DnsServer.QueryRoundTrip | sniffbox/crates/sb-dns/src/message.rs:162-186 | A built query for any name parses back to its id, flag and type, and to the name with each byte lower-cased and taken for a Latin-1 character, or as too long if that has more than 255 bytes; it is the lower-cased name if and only if the name is ASCII |
| DnsServer.ResolvedEndToEnd | sniffbox/crates/sniffbox/src/dns_server.rs:45-70 | Building, serving and parsing an A query for any name that is not too long and that the filter accepts gives the id, no error, exactly one address with the pool ttl, and that address looks back to the name as parsed, for an ASCII name the lower-cased name |
| DnsServer.RefusedEndToEnd | sniffbox/crates/sniffbox/src/dns_server.rs:45-70 | A filtered name reads back as NXDOMAIN and leaves the pool as it was |
| DnsServer.OtherTypesEndToEnd | sniffbox/crates/sniffbox/src/dns_server.rs:45-70 | Any other record type reads back as an empty success and leaves the pool as it was |
| DnsServer.TooLongEndToEnd | sniffbox/crates/sniffbox/src/dns_server.rs:45-70 | A name the builder accepts and the parser finds too long reads back as a format error and leaves the pool as it was |
| DnsWire.ReplyIsAResponse | sniffbox/crates/sniffbox/src/dns_server.rs:45-70 | Whatever arrives, the reply has every header field of a response: the id, the QR and RA bits, opcode zero, the recursion bit and question count of the query, the code of its case, one answer or none; and no server takes it for a query |
| DnsWire.AnswerIsAboutTheQuestion | sniffbox/crates/sb-dns/src/message.rs:125-135 | A reader that follows pointers reads the same name in the answer as in the question; type A, class IN, the ttl and the address follow |
| DnsWire.QueryIsAQuery | sniffbox/crates/sb-dns/src/message.rs:162-186 | A built query has every header field of a standard query with one question |
| DnsWire.SampleQuery | sniffbox/crates/sb-dns/src/message.rs:162-186 | The query for a.bc byte by byte, and the name it is read as |
| DnsWire.BadNames | sniffbox/crates/sb-dns/src/message.rs:83-111 | How a name fails behind any labels, when parsed and when skipped: the end of the message, a pointer, a reserved byte, a label that passes the end |
| DrainCounter.StepConserves | sniffbox/crates/sb-stats/src/types.rs:252-264 | Every atomic step of adders and drainers, spurious exchange failures included, keeps each cursor equal to what was paid out for it |
| DrainCounter.StepNeverAhead | sniffbox/crates/sb-stats/src/types.rs:252-264 | While the total fits 64 bits no step lets a cursor or a pending exchange pass the counter |
| DrainCounter.RunConserves | sniffbox/crates/sb-stats/src/types.rs:230-264 | Both hold after every interleaving |
| DrainCounter.NothingLostNorPaidTwice | sniffbox/crates/sb-stats/src/types.rs:230-264 | In every interleaving, for each of the two cursors: paid plus pending equals everything added if and only if the total is below 2^64 |
| DrainCounter.PaymentsAreTimely | sniffbox/crates/sb-stats/src/types.rs:252-264 | A step moves its cursor by exactly what it pays and no other cursor, and pays zero only when nothing is pending; while the total fits 64 bits it pays at most what is pending |
| DrainCounter.SoloDrainTakesAll | sniffbox/crates/sb-stats/src/types.rs:252-264 | A drain left alone pays everything pending, or nothing if the counter has wrapped below its cursor |
| DrainCounter.HonestFailureMeansProgress | sniffbox/crates/sb-stats/src/types.rs:258-262 | An exchange that fails for a reason means that another call moved the cursor in the meantime |
| DrainCounter.WrapLosesBytes | sniffbox/crates/sb-stats/src/types.rs:254-257 | Of 2^64 bytes added in two additions 2^64 - 1 are paid and one is lost |
| ChunkSyntax.SizeIsRead | sniffbox/crates/sb-web/src/clash_logs.rs:184-188 | Every well-formed size line, with any extension, is read as the size it denotes, or refused from 2^64 on |
| ChunkSyntax.NumberIsRead | sniffbox/crates/sb-web/src/clash_logs.rs:184-188 | Any number in hexadecimal digits of either case, with leading zeros, blanks and an extension |
| ChunkSyntax.OnlyNumbersAreRead | sniffbox/crates/sb-web/src/clash_logs.rs:184-188 | Nothing but a number between blanks, perhaps behind a plus sign, is read as a size |
| Utf8.DecodesExactly | sniffbox/crates/sb-web/src/clash_logs.rs:186-186 | Bytes are text if and only if they are the UTF-8 encoding of some sequence of characters |
| ChunkDecoder.FindCrlf | sniffbox/crates/sb-web/src/clash_logs.rs:200-202 | The position of the first CRLF |
| ChunkDecoder.Decoder.Feed | sniffbox/crates/sb-web/src/clash_logs.rs:159-197 | The loop over the mutable fields computes the functional step: new state, output appended, success |
| ChunkDecoder.DriveExtends | sniffbox/crates/sb-web/src/clash_logs.rs:159-197 | What a call leaves unread a later call reads as if it had come in one piece |
| ChunkDecoder.FeedTwice | sniffbox/crates/sb-web/src/clash_logs.rs:159-197 | Feeding a and then b gives output, state and success of feeding a followed by b |
| ChunkDecoder.CutsDoNotMatter | sniffbox/crates/sb-web/src/clash_logs.rs:159-197 | Any cutting of the input gives the output and success of one call, and its state unless it failed |
| ChunkDecoder.DriveBody | sniffbox/crates/sb-web/src/clash_logs.rs:159-197 | A well-formed body decodes to the concatenation of its chunk data and leaves what follows |
| ChunkDecoder.WellFormedDecodes | sniffbox/crates/sb-web/src/clash_logs.rs:159-197 | The same for the body cut into any pieces |
| Dechunk.Dechunk | sniffbox/crates/sb-ppgw/src/clash.rs:381-400 | The one-shot loop computes the functional decoding; none where the unchecked position arithmetic would overflow |
| Dechunk.SizesAgree | sniffbox/crates/sb-ppgw/src/clash.rs:386-390 | Both decoders read a well-formed size line alike when the whole line is UTF-8; otherwise this one reads 0 |
| Dechunk.BodyFrom | sniffbox/crates/sb-ppgw/src/clash.rs:381-400 | A well-formed body decodes to its data up to the first size line that is not UTF-8 |
| Dechunk.DecodersAgreeExactly | sniffbox/crates/sb-ppgw/src/clash.rs:381-400 | One-shot and streaming decoder agree on a well-formed body if and only if every chunk has a UTF-8 size line |
| Dechunk.NonUtf8ExtensionDiffers | sniffbox/crates/sb-ppgw/src/clash.rs:386-390 | A well-formed body on which they differ: one chunk whose extension holds the byte FF, decoded to its data by the streaming decoder and to nothing by this one |
| HttpFraming.FindHeadEnd | sniffbox/crates/sb-web/src/http.rs:102-104 | The end of the first CRLFCRLF, or that there is none |
| HttpFraming.HeadEndsAt | sniffbox/crates/sb-web/src/http.rs:102-104 | A head ends behind the first 13, 10, 13, 10 |
| HttpFraming.SearchFrom | sniffbox/crates/sb-web/src/http.rs:76-79 | Searching again from three bytes back finds the first end |
| HttpFraming.ReadHead | sniffbox/crates/sb-web/src/http.rs:73-100 | For every way the stream is cut into reads: the end of the first blank line, accepted whenever it lies within 64 KiB, refused if there is none, with end of stream only if nothing was read; buffer plus unread stream are all the bytes, and the buffer stays below 64 KiB plus one read |
| HttpFraming.ReadBodyBounded | sniffbox/crates/sb-web/src/http.rs:225-262 | Takes exactly the declared body when it is within the limit and all there; leftover plus unread stream is what follows it |
| HttpFraming.RelayCounted | sniffbox/crates/sb-web/src/http.rs:288-315 | Relays exactly the declared bytes; leftover plus unread stream is what follows them |
| HttpFraming.DrainCounted | sniffbox/crates/sb-web/src/server.rs:449-474 | Skips exactly the declared bytes, if they are at most 1 MiB |
| HttpFraming.PrefixedReader.ReadByte | sniffbox/crates/sb-web/src/http.rs:362-377 | Prefix and source read as one stream |
| HttpFraming.PrefixedReader.ReadLine | sniffbox/crates/sb-web/src/http.rs:379-392 | Reads and copies up to the first LF, and returns the line without the CRs before it |
| HttpFraming.StrippedExactly | sniffbox/crates/sb-web/src/http.rs:385-390 | What is left of a line does not end in CR or LF, and only those are taken off |
| HttpFraming.PrefixedReader.CopyExact | sniffbox/crates/sb-web/src/http.rs:394-419 | Copies exactly count bytes across prefix and source, or all there is |
| HttpFraming.RelayTrailers | sniffbox/crates/sb-web/src/http.rs:330-335 | Copies trailer lines up to the first empty one |
| HttpFraming.RelayTurn | sniffbox/crates/sb-web/src/http.rs:323-339 | Copies one chunk, or the closing one with its trailers, and nothing else |
| HttpFraming.RelayChunked | sniffbox/crates/sb-web/src/http.rs:317-341 | For every way the stream is cut into reads: relays byte for byte the prefix of the stream that is the chunked body, and leaves exactly what follows |
| HttpBodies.RelayBody | sniffbox/crates/sb-web/src/http.rs:264-286 | For all four framings: what is relayed, what is left, and which error is given; after a failure in a chunked body what was relayed is a prefix of the input |
| HttpBodies.DrainChunked | sniffbox/crates/sb-web/src/server.rs:475-480 | Skips a chunked body through a reader limited to 1 MiB: succeeds if and only if the body is complete and ends within the prefix and that much of the stream, and otherwise gives the error of what it can see |
| HttpBodies.ConsumeBody | sniffbox/crates/sb-web/src/server.rs:441-483 | For no body, declared lengths and chunked bodies: skips exactly what the relay takes as the body, within the limit; leftover plus unread stream is what follows it; otherwise the error it gives |
| HttpBodies.BodyInWindow | sniffbox/crates/sb-web/src/http.rs:317-341 | Whether and where a chunked body ends does not depend on the bytes behind it |
| ChunkOverflow.SizedTurnExactly | sniffbox/crates/sb-web/src/http.rs:323-339 | For every declared size and every rest of the stream: the wrapped count of bytes to copy takes the chunk the framing means if and only if size plus two fits 64 bits or less follows than the wrapped count |
| ChunkOverflow.FramesUntilOverflow | sniffbox/crates/sb-web/src/http.rs:317-341 | On every stream the code frames as without a limit up to the first declared size that overflows; there the framing wants more bytes than a stream below 2^64 has |
| ChunkOverflow.AcceptedExactly | sniffbox/crates/sb-web/src/http.rs:317-341 | Every complete body is taken exactly, and what is taken is a complete body if and only if none of its declared sizes overflows |
| HttpBodies.BodyIsFramed | sniffbox/crates/sb-web/src/http.rs:317-341 | A well-formed body is framed whole and alone, and overflows exactly where a chunk has 2^64 - 2 bytes or more |
| HttpBodies.AbsentChunkIsAccepted | sniffbox/crates/sb-web/src/http.rs:317-341 | Behind the size line FFFFFFFFFFFFFFFE the code takes any body that follows as if that chunk had been there; the framing says the stream ends too early |
| HttpBodies.BodyIsTaken | sniffbox/crates/sb-web/src/http.rs:317-341 | A well-formed chunked body shorter than 2^64 bytes, extensions and trailers included, is taken whole and alone whatever follows it |
| HttpBodies.RelayedDecodes | sniffbox/crates/sb-web/src/http.rs:317-341 | What is relayed of a well-formed chunked body decodes, in any pieces, to its data if and only if it reaches the end of the closing size line, which it does if no chunk size overflows |
| Socks5.Handshake | sniffbox/crates/sb-outbound/src/socks5.rs:26-53 | The client writes, reads and ends as the function of its input says |
| Socks5.ReadMethodReply | sniffbox/crates/sb-outbound/src/socks5.rs:55-68 | Two bytes: the version is checked, FF is a refusal |
| Socks5.SendUserpass | sniffbox/crates/sb-outbound/src/socks5.rs:70-100 | Refuses long credentials; otherwise sends the sub-negotiation built in a fixed buffer and checks the reply |
| Socks5.NegotiateMethod | sniffbox/crates/sb-outbound/src/server.rs:39-77 | The server writes, reads and ends as the function of its input says |
| Socks5.VerifyUserpass | sniffbox/crates/sb-outbound/src/server.rs:79-105 | Reads both length-prefixed strings and accepts exactly the configured pair |
| Socks5.ClientAccepts | sniffbox/crates/sb-outbound/src/socks5.rs:26-100 | Whatever a server sends: the client is through if and only if it is [5, 0], or [5, 2, 1, 0] and credentials that fit were offered, and takes no more |
| Socks5.ClientWrites | sniffbox/crates/sb-outbound/src/socks5.rs:26-100 | What the client writes, byte by byte, on any input |
| Socks5.VerifyAccepts | sniffbox/crates/sb-outbound/src/server.rs:79-105 | The check accepts exactly the configured pair, byte by byte |
| Socks5.ServerAccepts | sniffbox/crates/sb-outbound/src/server.rs:39-105 | Whatever a client sends: the server is through if and only if it offers what is asked for and, if asked, sends the configured pair; and has then written its choice and the confirmation |
| Socks5.ClientRefuses | sniffbox/crates/sb-outbound/src/socks5.rs:26-100 | Every way the client fails, in the order of its checks |
| Socks5.ServerRefuses | sniffbox/crates/sb-outbound/src/server.rs:39-77 | Every way the server fails on a greeting |
| Socks5.OfferRefused | sniffbox/crates/sb-outbound/src/server.rs:39-77 | A greeting without what is asked for is answered by [5, 255] |
| Socks5.LoginRefused | sniffbox/crates/sb-outbound/src/server.rs:79-105 | A wrong pair is answered by [1, 1] |
| SocksNegotiation.ClientOnScript | sniffbox/crates/sb-outbound/src/socks5.rs:26-100 | What the client does on any part of what the server may send |
| SocksNegotiation.VerifyOnRequest | sniffbox/crates/sb-outbound/src/server.rs:79-105 | The check waits on every proper part of a request and decides the whole one by equality of the credentials |
| SocksNegotiation.ServerOnScript | sniffbox/crates/sb-outbound/src/server.rs:39-105 | What the server does on any part of what the client may send |
| SocksNegotiation.ScriptsAre | sniffbox/crates/sb-outbound/src/server.rs:39-105 | The negotiation of the two sides, byte by byte |
| SocksNegotiation.NoDeadlock | sniffbox/crates/sb-outbound/src/server.rs:39-105 | When everything written in the negotiation has been read the client is not waiting |
| SocksNegotiation.Negotiated | sniffbox/crates/sb-outbound/src/server.rs:39-105 | If the sides agree, each is through after the other's negotiation bytes and looks at nothing behind them |
| SocksDialogue.SendConnect | sniffbox/crates/sb-outbound/src/socks5.rs:182-194 | Writes the request, or refuses the host, and reads one reply |
| SocksDialogue.ConnectThrough | sniffbox/crates/sb-outbound/src/pool.rs:352-364 | Negotiation and request in sequence write, read and end as the function of the input says |
| SocksDialogue.UdpAssociateAuth | sniffbox/crates/sb-outbound/src/socks5_udp.rs:20-49 | The same for an associate request, returning the address in the reply |
| SocksDialogue.Serve | sniffbox/crates/sniffbox/src/inbound_proxy.rs:230-271 | The server negotiates, reads one request and replies as the caller decides, or closes |
| SocksDialogue.ReplyOnPart | sniffbox/crates/sb-outbound/src/socks5.rs:144-180 | A reply is waited for to its end, a refusal to its fourth byte, and decided there |
| SocksDialogue.PartOfRequest | sniffbox/crates/sb-outbound/src/server.rs:107-156 | A request is waited for to its end |
| SocksDialogue.KeepsToLines | sniffbox/crates/sb-outbound/src/server.rs:39-181 | Each side, on any part of what it may read: takes all of it, writes part of its own lines, succeeds only on the whole and only if the session is served, and fails only if it is not |
| SocksDialogue.NotBothWait | sniffbox/crates/sb-outbound/src/server.rs:39-181 | When everything written has been read, not both sides are waiting |
| SocksSession.StepKeeps | sniffbox/crates/sb-outbound/src/server.rs:39-181 | Every read and write of either side keeps: written is read, on its way, or still to be written, in order |
| SocksSession.SidesAgree | sniffbox/crates/sb-outbound/src/server.rs:39-181 | In every interleaving and cutting of reads and writes negotiation, request and reply take a bounded number of moves, and when none is left both sides have ended, with success if and only if the server asks for no credentials or the client has the same ones of at most 255 bytes each, and the request, if one is made, fits, is UTF-8 and is granted; after success nothing written is unread |
| SocksRequest.EncodeConnectInto | sniffbox/crates/sb-outbound/src/socks5.rs:104-136 | Writes the request to the front of the buffer and nothing behind it, or refuses an empty or long host |
| SocksRequest.ReadRequest | sniffbox/crates/sb-outbound/src/server.rs:107-156 | The request reader takes and returns what the function of its input says, every error included |
| SocksRequest.ConnectIsRead | sniffbox/crates/sb-outbound/src/server.rs:107-156 | The server reads every request of the client back: an address up to IPv6 flow information and scope, a host exactly if it is UTF-8, leaving whatever follows |
| SocksRequest.WriteReply | sniffbox/crates/sb-outbound/src/server.rs:158-181 | Writes the reply to a request |
| SocksRequest.ReadConnectReply | sniffbox/crates/sb-outbound/src/socks5.rs:144-180 | The reply reader takes and returns what the function of its input says, every error included |
| SocksRequest.ReadAssociateReply | sniffbox/crates/sb-outbound/src/socks5_udp.rs:51-96 | The associate reply reader, which wants an address |
| SocksRequest.ReplyIsRead | sniffbox/crates/sb-outbound/src/socks5.rs:144-180 | Every reply of the server is read back: success takes exactly the reply and gives the bound address, any other code is the error |
| SocksRequest.AnyReplyIsRead | sniffbox/crates/sb-outbound/src/socks5.rs:144-180 | Any reply with an IPv4, IPv6 or host-bound address: success is taken whole and nothing behind it, an associate reply gives the address or refuses the host, any other code is the error after four bytes |
| SocksRequest.PartOfAnyReply | sniffbox/crates/sb-outbound/src/socks5.rs:144-180 | Every proper part of such a reply is waited on, for no more than what is missing |
| SocksRequest.AnyRequestIsRead | sniffbox/crates/sb-outbound/src/server.rs:107-156 | Any client's request, with any command, address or host, is read as what it says; an empty or non-text host is refused |
| SocksRequest.OnlyRequestsAreRead | sniffbox/crates/sb-outbound/src/server.rs:107-156 | Nothing else is accepted as a request |
| SocksRequest.OnlyRepliesAreRead | sniffbox/crates/sb-outbound/src/socks5.rs:144-180 | Nothing but a reply of success is accepted as one |
| SocksRequest.WrittenByteByByte | sniffbox/crates/sb-outbound/src/socks5.rs:104-136 | Requests and replies as written, byte by byte |
| SocksRequest.RequestRefuses | sniffbox/crates/sb-outbound/src/server.rs:107-156 | How a request is refused: version, address type |
| SocksRequest.RequestWaits | sniffbox/crates/sb-outbound/src/server.rs:107-156 | How many bytes a request cut short still lacks |
| SocksRequest.ReplyRefuses | sniffbox/crates/sb-outbound/src/socks5.rs:144-180 | How both readers refuse a reply: version, code, reserved byte, address type |
| SocksRequest.ReplyWaits | sniffbox/crates/sb-outbound/src/socks5.rs:144-180 | How many bytes a reply cut short still lacks, for both readers |
| SocksUdp.EncodeUdpRequestInto | sniffbox/crates/sb-outbound/src/socks5_udp.rs:98-114 | Replaces the buffer by header, address and payload |
| SocksUdp.EncodeUdpRequestDomainInto | sniffbox/crates/sb-outbound/src/socks5_udp.rs:116-133 | Replaces the buffer by header, host and payload; a refused host leaves it alone |
| SocksUdp.AddressDatagram | sniffbox/crates/sb-outbound/src/socks5_udp.rs:151-196 | An encoded datagram decodes to its address, without the IPv6 fields that are not sent, and its payload |
| SocksUdp.DomainDatagram | sniffbox/crates/sb-outbound/src/socks5_udp.rs:179-190 | A datagram for a host decodes to the unspecified address, its port and its payload |
| SocksUdp.AcceptedIsEncoded | sniffbox/crates/sb-outbound/src/socks5_udp.rs:151-196 | Whatever is accepted is laid out as the encoders lay it out; that includes a host of no bytes, which the encoder refuses to write |
| SocksUdp.DatagramRefuses | sniffbox/crates/sb-outbound/src/socks5_udp.rs:151-196 | Every way a datagram is refused, in the order of the checks |
| IdlePool.DroppingIsFiltering | sniffbox/crates/sb-outbound/src/pool.rs:318-330 | In a queue in order of arrival dropping the stale prefix drops exactly the stale entries |
| IdlePool.DropsExactly | sniffbox/crates/sb-outbound/src/pool.rs:144-158 | There is something stale to drop if and only if the first entry was put in the timeout or longer ago |
| IdlePool.ApplyKeeps | sniffbox/crates/sb-outbound/src/pool.rs:134-220 | Every locked section of every task, with times and configurations read earlier, keeps order of arrival and the length bound |
| IdlePool.QueueSafety | sniffbox/crates/sb-outbound/src/pool.rs:134-330 | In every state tasks can bring about: order of arrival, length within some configured maximum, and a taken entry is the oldest one not stale at the time of the taker |
| IdlePool.FixedConfigBounds | sniffbox/crates/sb-outbound/src/pool.rs:209-220 | With one configuration its maximum bounds the queue |
| IdlePool.HandedOutOnce | sniffbox/crates/sb-outbound/src/pool.rs:134-220 | Over any sequence of events a connection is handed out at most as often as it was put in |
| IdlePool.ReturnedOnce | sniffbox/crates/sb-outbound/src/pool.rs:134-195 | Of two calls of acquire in a run of all tasks, however they overlap, both return the same connection only if it was put in twice |
| IdlePool.ReleasedIsHandedOut | sniffbox/crates/sb-outbound/src/pool.rs:209-220 | A connection released into an empty queue is handed out to whoever asks before its timeout has passed, and to nobody later |
| IdlePool.SocksPool.EvictStale | sniffbox/crates/sb-outbound/src/pool.rs:318-330 | The loop drops exactly the stale entries |
| IdlePool.SocksPool.ReleaseClean | sniffbox/crates/sb-outbound/src/pool.rs:209-220 | Appends the connection with the current time, unless the queue is full |
| IdlePool.SocksPool.FlushIdle | sniffbox/crates/sb-outbound/src/pool.rs:197-207 | Empties the queue, returns how many there were and notifies the refill task |
| IdlePool.SocksPool.TakeFront | sniffbox/crates/sb-outbound/src/pool.rs:144-158 | Drops stale entries, says whether there were any, and takes the first of the others |
| IdlePool.SocksPool.Acquire | sniffbox/crates/sb-outbound/src/pool.rs:134-195 | With any interference between its locked sections: a pooled connection is the one its own last section took from the queue, alive, and not stale at the time of the call; otherwise that section found the queue empty and a dial is made; the refill task is notified if and only if a dead connection was thrown away, one of its own sections dropped a stale one, the queue is below its minimum, or a dial is made |
| IdlePool.SocksPool.WarmOnce | sniffbox/crates/sb-outbound/src/pool.rs:256-316 | A refill alone: nothing when there is enough; otherwise every connection dialled joins the queue in order of the answers, queue plus dials in flight never pass the target, it ends at the target or after three failures in a row, never more than eight dials at once, and a silent upstream is dialled exactly three times, one at a time |
| IdlePool.TargetInMax | sniffbox/crates/sb-outbound/src/pool.rs:264-270 | The target is within the maximum and, if the minimum is, between the minimum and twice the minimum |
| IdlePool.TargetRises | sniffbox/crates/sb-outbound/src/pool.rs:264-270 | Each recent miss raises the target by one, up to twice the minimum and to the maximum |
| IniEnv.ScanValue | sniffbox/crates/sb-ppgw/src/inienv.rs:200-240 | The scanner with its three quoting modes computes the function whose exact law `IniValues.ScannedExactly` states |
| IniEnv.ShellQuote | sniffbox/crates/sb-ppgw/src/inienv.rs:242-254 | The quoting loop computes the quoted text |
| IniEnv.ScanAfterQuote | sniffbox/crates/sb-ppgw/src/inienv.rs:242-254 | Scanning the quoted form of any string gives the string |
| IniValues.WordIsScanned | sniffbox/crates/sb-ppgw/src/inienv.rs:200-240 | Any word of bare, escaped, single-quoted and double-quoted parts scans to its meaning, and what follows white space is dropped |
| IniValues.ScannedIsWord | sniffbox/crates/sb-ppgw/src/inienv.rs:200-240 | Whatever is scanned is such a word |
| IniValues.ScannedExactly | sniffbox/crates/sb-ppgw/src/inienv.rs:200-240 | A value is refused as unclosed if and only if it does not start with a word that ends there |
| IniValues.ScanAfterDoubleQuote | sniffbox/crates/sb-ppgw/src/inienv.rs:214-228 | Any value, double-quoted with a backslash before each character that needs one, scans to itself |
| IniEnv.Scan | sniffbox/crates/sb-ppgw/src/inienv.rs:150-177 | The line loop computes the functional parse, strict or counting skipped lines |
| IniEnv.ParsedIsWellFormed | sniffbox/crates/sb-ppgw/src/inienv.rs:150-177 | Parsed keys are keys, sorted, and values hold no line break |
| IniFiles.EveryLineIsOne | sniffbox/crates/sb-ppgw/src/inienv.rs:150-177 | Every line is an assignment, one without its closing quote, or a remark |
| IniFiles.FileIsScanned | sniffbox/crates/sb-ppgw/src/inienv.rs:150-177 | Any file: leniently, what its assignments say and the number of unclosed ones; strictly the same, or the first unclosed one with its key and number |
| IniFiles.LastAssignmentWins | sniffbox/crates/sb-ppgw/src/inienv.rs:150-177 | Of several assignments to a key the last one wins |
| IniFiles.SettingIsLastAssignment | sniffbox/crates/sb-ppgw/src/inienv.rs:101-112 | A setting is its last assignment if that is not empty, else its default |
| IniFiles.WrittenValue | sniffbox/crates/sb-ppgw/src/inienv.rs:122-138 | What is exported for a key, `cf_proxy` clamped, and how it is quoted |
| IniFiles.CrLfFile | sniffbox/crates/sb-ppgw/src/inienv.rs:154-172 | In a file with CR LF line ends the error names the right key, and the (i + 1)-th line as number 2 i + 1 |
| IniEnv.Export | sniffbox/crates/sb-ppgw/src/inienv.rs:122-138 | The export loop writes banner, known keys in table order and the others in key order |
| IniEnv.ExportIsScanned | sniffbox/crates/sb-ppgw/src/inienv.rs:122-138 | An export parses, strictly or not, to exactly its assignments with nothing skipped |
| IniEnv.ExportRoundTrip | sniffbox/crates/sb-ppgw/src/inienv.rs:109-138 | For every text the parser accepts: reading its export preserves every effective setting, `cf_proxy` up to its clamp, and exporting again gives the same text |
| NodeNames.GenerateSuffix | sniffbox/crates/sb-ppgw/src/yamltx.rs:179-190 | The division loop computes the bijective base-26 numeral |
| NodeNames.RankOfSuffix | sniffbox/crates/sb-ppgw/src/yamltx.rs:179-190 | Ranking a suffix gives its number back |
| NodeNames.SuffixOfRank | sniffbox/crates/sb-ppgw/src/yamltx.rs:179-190 | Every non-empty string over A to Z is the suffix of its rank |
| NodeNames.SuffixIsBijective | sniffbox/crates/sb-ppgw/src/yamltx.rs:179-190 | Suffixes are a bijection from the naturals to those strings |
| NodeNames.SuffixesInOrder | sniffbox/crates/sb-ppgw/src/yamltx.rs:179-190 | Suffixes are counted off by length and then alphabetically |
| NodeNames.TakenAreFew | sniffbox/crates/sb-ppgw/src/yamltx.rs:169-176 | Taken candidates are fewer than the used names |
| NodeNames.GenerateNodeName | sniffbox/crates/sb-ppgw/src/yamltx.rs:145-177 | The search ends within one more try than there are used names, with a name outside them |
| NodeNames.NodeNameIs | sniffbox/crates/sb-ppgw/src/yamltx.rs:145-177 | The name is base, at sign, prefix and address tail, with the first free suffix if that is used |
| NodeNames.OctetTail | sniffbox/crates/sb-ppgw/src/yamltx.rs:151-161 | The tail of an IPv4 address is its last octet |
| NodeNames.DigitsTail | sniffbox/crates/sb-ppgw/src/yamltx.rs:151-161 | The tail of an IPv6 address is its last four digits |
| NodeNames.DnsBurn | sniffbox/crates/sb-ppgw/src/yamltx.rs:74-119 | The loop over the proxies computes the functional result: new sub-resolver nodes, the originals, new nodes |
| NodeNames.BurnedList | sniffbox/crates/sb-ppgw/src/yamltx.rs:74-119 | Exactly one new node for every original whose server is a name and every address found for it, in order: the same entry but for the server, under the name the two give it with at most one suffix; all new names distinct from each other and from every original, the originals an unchanged block in order |
| NegCache.SniffNegCache.IsHit | sniffbox/crates/sb-sniff/src/neg_cache.rs:58-66 | Answers by the table alone and changes nothing |
| NegCache.SniffNegCache.NoteFailure | sniffbox/crates/sb-sniff/src/neg_cache.rs:68-93 | Collects garbage when large, then bumps, restarts or creates the entry; `count` stays the table size |
| NegCache.SniffNegCache.NoteSuccess | sniffbox/crates/sb-sniff/src/neg_cache.rs:95-102 | Removes the entry; `count` stays the table size |
| NegCache.SniffNegCache.CollectGarbage | sniffbox/crates/sb-sniff/src/neg_cache.rs:104-109 | Keeps exactly the unexpired entries |
| NegCache.EventsTouch | sniffbox/crates/sb-sniff/src/neg_cache.rs:68-109 | What each event does to the entries of other keys: a failure collects only in a table of 4096 and more, and only what has expired |
| NegCache.TableRepresents | sniffbox/crates/sb-sniff/src/neg_cache.rs:58-109 | After harmless events the entry of a key is the length of its current failure streak, capped, and the end of its suppression; an absent or expired entry means there is none |
| NegCache.ApplyRepresentsExactly | sniffbox/crates/sb-sniff/src/neg_cache.rs:68-93 | One event keeps the table in step with a key if and only if it is harmless or about another key; harmful is a failure that collects and whose entry, expiring between the two clock readings, held a count that mattered and would still matter |
| NegCache.HitIffSuppressed | sniffbox/crates/sb-sniff/src/neg_cache.rs:58-66 | After harmless events, for thresholds up to 254, a key is hit if and only if its last `threshold` events are failures with gaps below the ttl and now is within the ttl of the last |
| NegCache.HarmIsSeen | sniffbox/crates/sb-sniff/src/neg_cache.rs:68-93 | Every harmful event is seen: after it, and at most as many further failures as reach the threshold, the key should be suppressed and is not |
| NegCache.AnsweredExactly | sniffbox/crates/sb-sniff/src/neg_cache.rs:58-109 | For thresholds up to 254 a history is answered by the rule at every point, and after any further failures of the key asked about, if and only if all its events are harmless |
| NegCacheLimits.StraddlingFailureForgets | sniffbox/crates/sb-sniff/src/neg_cache.rs:68-93 | For every threshold of at least 2 and every ttl of at least 2 ticks, a history on which the answer is wrong: a full table, and a last failure that reads the clock before and after its entry expires |
| NegCacheLimits.LargestThresholdForgets | sniffbox/crates/sb-sniff/src/neg_cache.rs:76-83 | With threshold 255 the 256th failure in a row lifts the suppression, because the byte wraps before the cap |
| NegCacheLimits.FaithfulExactly | sniffbox/crates/sb-sniff/src/neg_cache.rs:41-109 | The history rule holds of every history, without exception, if and only if the threshold is 1, the ttl is 0, or the ttl is one tick and the threshold at most 254 |
| NegCache.GcIsUnobservable | sniffbox/crates/sb-sniff/src/neg_cache.rs:104-109 | Collecting garbage at any points changes no answer, for every threshold, if all failures are harmless with the collections and without them |
| NegCacheLimits.GcShows | sniffbox/crates/sb-sniff/src/neg_cache.rs:68-109 | For every threshold and ttl of at least 2, a history on which a collection changes an answer, because without it the table is still full at the next failure |
| NegCacheLimits.GcIsUnobservableExactly | sniffbox/crates/sb-sniff/src/neg_cache.rs:68-109 | Collecting garbage changes no answer of any history if and only if the threshold is 1 or the ttl at most one tick |
| TlsRecords.CollectHandshake | sniffbox/crates/sb-sniff/src/tls.rs:35-65 | The growing loop computes the recursive collection |
| TlsRecords.FragmentsCollect | sniffbox/crates/sb-sniff/src/tls.rs:35-65 | Any cutting of a message of at most 65536 bytes into records, empty ones included, collects back to the message |
| TlsRecords.OutcomeIsStable | sniffbox/crates/sb-sniff/src/tls.rs:35-65 | Any outcome but "too short" is unchanged by further bytes |
| TlsRecords.PrefixIsShort | sniffbox/crates/sb-sniff/src/tls.rs:35-65 | Every proper prefix of a record stream whose last record ends the message is too short |
| TlsRecords.AnnouncedTooLarge | sniffbox/crates/sb-sniff/src/tls.rs:35-65 | A message that announces more than 65536 bytes is refused as soon as its length is there |
| TlsRecords.WrongTypeIsRefused | sniffbox/crates/sb-sniff/src/tls.rs:18-33 | A record of another type before the message is complete is refused |
| TlsRecords.CollectedIsRecords | sniffbox/crates/sb-sniff/src/tls.rs:35-65 | Whatever is collected is the message at the front of a sequence of handshake records |
| TlsHello.ParseSni | sniffbox/crates/sb-sniff/src/tls.rs:138-153 | The server-name reader on a cursor |
| TlsHello.ParseAlpn | sniffbox/crates/sb-sniff/src/tls.rs:155-167 | The protocol-list reader on a cursor |
| TlsHello.ParseBody | sniffbox/crates/sb-sniff/src/tls.rs:92-135 | The hello reader on a cursor computes the functional parse, every error included |
| TlsHello.ParseHandshake | sniffbox/crates/sb-sniff/src/tls.rs:84-136 | The message reader does |
| TlsHello.ParseClientHello | sniffbox/crates/sb-sniff/src/tls.rs:71-82 | The single-record reader does |
| TlsHello.HelloRoundTrip | sniffbox/crates/sb-sniff/src/tls.rs:84-136 | Parsing any encoded hello gives what its extensions mean, and the header announces exactly its length |
| TlsHello.WrappedIsRead | sniffbox/crates/sb-sniff/src/tls.rs:71-136 | The QUIC wrapping of a message is one record of version 0301 around it, and reads as the message, whatever follows |
| TlsHello.PathsAgree | sniffbox/crates/sb-sniff/src/tls.rs:35-136 | Up to 65535 bytes the message collected from any records and its single-record wrapping read alike |
| TlsHello.HelloAcrossRecords | sniffbox/crates/sb-sniff/src/tls.rs:35-136 | Any hello of at most 65536 bytes in any records parses to its meaning |
| TlsHello.FirstHostName | sniffbox/crates/sb-sniff/src/tls.rs:138-153 | A server-name list gives its first host name if and only if that is the UTF-8 encoding of some text, as every ASCII name is |
| TlsHello.HostAcrossRecords | sniffbox/crates/sb-sniff/src/tls.rs:35-153 | A hello whose last server-name list starts with a host parses, from any records, to that host |
| TlsHello.OtherTypesAreRefused | sniffbox/crates/sb-sniff/src/tls.rs:71-90 | Records and messages of another type are refused, with their errors |
| TlsHello.CutHelloIsShort | sniffbox/crates/sb-sniff/src/tls.rs:84-136 | Every proper prefix of a hello is too short |
| QuicFrames.ReadVarint | sniffbox/crates/sb-sniff/src/quic.rs:299-316 | The shifting loop computes the big-endian value |
| QuicFrames.VarintRoundTrip | sniffbox/crates/sb-sniff/src/quic.rs:299-316 | Every value in every admissible width reads back |
| QuicFrames.SampleVarints | sniffbox/crates/sb-sniff/src/quic.rs:299-316 | The widths, and the samples of appendix A.1 of RFC 9000 |
| QuicFrames.CutVarints | sniffbox/crates/sb-sniff/src/quic.rs:299-316 | An integer cut short is an error with its width and what there is |
| QuicFrames.ExtractCryptoFrames | sniffbox/crates/sb-sniff/src/quic.rs:173-223 | The cursor loop computes the functional list of pieces |
| QuicFrames.PayloadPieces | sniffbox/crates/sb-sniff/src/quic.rs:173-223 | From any well-formed payload exactly the CRYPTO pieces are found, in order, up to its end or the first frame of another type |
| QuicFrames.CutCryptoIsMalformed | sniffbox/crates/sb-sniff/src/quic.rs:173-223 | A CRYPTO frame whose data is cut short is malformed |
| QuicSniffer.IncrementalSniffer.IngestPiece | sniffbox/crates/sb-sniff/src/quic.rs:104-125 | Counts, replaces or refuses a piece as the function says, with its error |
| QuicSniffer.IncrementalSniffer.Feed | sniffbox/crates/sb-sniff/src/quic.rs:77-102 | Refines the functional step, its error included: finished, given up after 16 calls, undecryptable, malformed, or every piece ingested up to the first refusal |
| QuicSniffer.IncrementalSniffer.TryReassemble | sniffbox/crates/sb-sniff/src/quic.rs:143-171 | The loop over the sorted pieces returns them as one record if they follow each other from offset 0 and hold a whole message, nothing otherwise |
| QuicSniffer.IncrementalSniffer.TryTakeSni | sniffbox/crates/sb-sniff/src/quic.rs:127-141 | Takes the name of a whole hello and ends, or changes nothing but the mark of an outer hello |
| QuicSniffer.ReachableIsAccounted | sniffbox/crates/sb-sniff/src/quic.rs:77-141 | After any sequence of feeding and taking the byte count is the sum of the piece lengths, at most 65536, in at most 64 pieces |
| QuicSniffer.OverTheLimits | sniffbox/crates/sb-sniff/src/quic.rs:104-125 | A piece is refused if and only if it makes more than 64 pieces or 65536 bytes, and that ends the sniffer; otherwise it is added |
| QuicReassembly.ReassemblyIsOrderFree | sniffbox/crates/sb-sniff/src/quic.rs:104-171 | A stream of 4 to 65536 bytes holding a whole message, in at most 64 fragments, in any order with any repeats, is reassembled to one record around it |
| QuicReassembly.RecordExactly | sniffbox/crates/sb-sniff/src/quic.rs:143-171 | For any stream and any set of its fragments held: there is a record if and only if these are exactly the first k fragments for some k and their bytes complete a message, and the record is those bytes; a fragment beyond a gap blocks a message that is complete |
| QuicReassembly.GapBlocksHello | sniffbox/crates/sb-sniff/src/quic.rs:143-171 | A whole hello and a fragment behind a gap: the message is complete and there is no record |
| QuicTiling.RecordOfTiles | sniffbox/crates/sb-sniff/src/quic.rs:143-171 | For pieces of one stream in any cuttings, overlapping ones included: there is a record if and only if the pieces held tile a start of the stream that completes its message, and it is the record around that start |
| QuicTiling.ReachableRecord | sniffbox/crates/sb-sniff/src/quic.rs:77-171 | The same in every state reached by feeding packets with any cuttings of one stream and asking for the name |
| QuicTiling.ShorterRepeatLoses | sniffbox/crates/sb-sniff/src/quic.rs:104-125 | A message held in one piece is lost when a shorter start of it is sent again |
| QuicReassembly.MissingFragmentIsNoRecord | sniffbox/crates/sb-sniff/src/quic.rs:143-171 | In any order: a record before a given fragment has arrived means that nothing after it has, and that the fragments before it complete a message |
| QuicReassembly.RecordReadsExactly | sniffbox/crates/sb-sniff/src/quic.rs:163-170 | The record reads as the message up to 65535 bytes; at 65536 its length field is zero and reading fails |
| QuicReassembly.LargestStreamIsLost | sniffbox/crates/sb-sniff/src/quic.rs:163-170 | A hello at the start of a stream of 65536 bytes reads where it stands, and is not found by the sniffer |
| QuicReassembly.HelloOutOfOrder | sniffbox/crates/sb-sniff/src/quic.rs:104-171 | A hello and anything behind it, cut into fragments that arrive in any order, parses to its meaning |
| QuicReassembly.NameIsSniffed | sniffbox/crates/sniffbox/src/udp_engine.rs:823-850 | From packets to the name: a hello in at most 64 fragments, in at most 16 packets, in any order with any repeats, among other frames and unreadable packets, gives the caller exactly the name in it, or none if it has none |
| QuicReassembly.HostIsSniffed | sniffbox/crates/sniffbox/src/udp_engine.rs:823-850 | So the caller gets the host that the hello names |
| QuicReassembly.OnlySixteenCount | sniffbox/crates/sniffbox/src/udp_engine.rs:823-850 | Whatever the packets are, those behind the sixteenth change nothing |

## Left out

- The mixing inside `rapidhash` and `fmix64`: function parameters to 64-bit values; everything is proved for all of them.
- Cryptography of QUIC (key derivation, header protection, AES-GCM): a packet is its plaintext, or the error of a packet that cannot be read.
- The domain filter, `String::from_utf8_lossy` and the concrete table of settings: parameters, with the properties used stated as conditions (`KeepsAscii`, `PlainTable`).
- Sockets, timers, task scheduling and I/O errors other than end of stream: reads return any non-empty part of what is there, the clock is an integer that never goes back. The SOCKS5 session has a failing write to a closed peer as a step.
- Weak memory order: atomic operations and locked sections interleave sequentially consistently.
- HTTP header parsing, the choice of framing and the connection loop: framing is an argument. After a failed upstream connect the proxy hands back a body prefix as leftover, so nothing is claimed about whole connections.
- Resolving names and YAML: the naming loop works on a list of nodes and the addresses resolved for each.
- Metrics that only count (acquires, dead, warmed) of the idle pool; that a wake-up is delivered, and the periodic tick.
- Routing, flags, static files, screens, process supervision, direct and spliced copying.
- HttpBodies.ConsumeBody: for a chunked body it follows the code's own count, which `ChunkOverflow` compares with the framing; for a body that runs to the end of the connection it drops the prefix and reads nothing, as the code does.
- Dechunk.Dechunk: gives no result where `i + size` passes 2^64; the code panics there, on the addition or, built without overflow checks, on the slice that follows.
- NegCache.SniffNegCache.NoteFailure: runs without other calls in between; under concurrency the mirror `count` can drift, which is not modelled.
- NegCache.AnsweredExactly: asks for a threshold up to 254; `NegCacheLimits.FaithfulExactly` covers 255.
- DnsRecords.ResponseReadsBack: covers encoded records; labels of reserved types and strings that run past their record are covered by `DnsReply.ParseResponse` only.
- IdlePool.SocksPool.Acquire: other tasks interfere a finite but unlimited number of times during one call; without that bound the call need not return.
- IdlePool.SocksPool.WarmOnce: is a refill with no other task at work, and settings that do not change meanwhile.
- SocksSession.SidesAgree: covers one request per connection, up to its reply; what the two ends relay afterwards is left out.
- NodeNames.GenerateNodeName: counts in unbounded integers where the code has 64 bits, out of reach for a set of names in memory.
