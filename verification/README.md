# Verification model of rstrace

Proofs about the parts of rstrace that decide, count and parse. Check them with `dafny verify dfyconfig.toml`.

- **IP blacklist.** `Bits`, `Cidr`, `BlacklistSpec`, `Survivors` and `Blacklist` (module `IpBlacklist`) model the list of
  CIDR blocks, edited in place, and its lookups. `LpmTrie` models the kernel trie, down to the byte order of its keys, and
  shows that it finds the entry the list finds. `Stun`, `XdpSpec` and `XdpMaps` model the XDP program; `HitAccounting`
  balances its hit counters over whole runs and `PassAccounting` the counts of frames it lets pass; `EndToEnd` goes from
  edits to verdicts.
- **Double-buffer drain.** `DrainProtocol` is the protocol between kernel writers and the draining thread as interleaved
  atomic steps: a writer reads the flag in one step and increments in another, and the drainer reads, emits and removes
  one key at a time. `DrainRuns` builds its uninterrupted runs. `Dstlog` and `DryRunLog` are its two instances: the
  drain loops of the destination log and of the dry-run log, the latter on the maps of the XDP program, each shown to be a
  quiet run of the protocol.
- **Packet parsers.** `TlsSni` and `DnsQuery` check the ClientHello and question parsers against the message grammars in
  both directions. They start at the TCP and UDP payload.
- **Exec events.** `ExecEvents`, `CStrings`, `CommFilters`, `Utf8` and `ProcTree` follow an exec event from the kernel's
  scratch buffer to the printed line.

Numbers are integers with the source's widths written out; the hit counters wrap at 2^64. Bitwise operations are defined
bit by bit on integers. `Option` and `Result` stand for the source's error returns. Limits, protocol numbers
and wire constants have their names in the code and stand as plain numbers in what is proved about it.

Where the code does not do what a reader would expect, the model follows the code and states exactly when it does:

- `sort_dedup` can leave duplicate ranges (`Survivors.DedupsIffNoSandwich`).
- Two bounds of the kernel STUN check compare an offset with an address: UDP frames that end before their datagram does
  pass the blacklist, as STUN or through an error, exactly as `Stun.NotRefusedIff` and `XdpSpec.ListedUdpPassesIff` say.
- The SNI parser checks the list length against the whole extension and can panic on a slice (`TlsSni.PanicIff`).
- The DNS parser stops after 32 labels (`DnsQuery.ReadBackIff`), and different questions share a record key when their
  names have the same pieces between dots (`DnsQuery.SameKeyIff`).
- Counter increments between the two loops of a dump are not reported (`HitAccounting.HitsConserved`, `HitAccounting.LateHitsAreLost`).
- The `--comm` help text says exact match; the comparison is a prefix test (`CommFilters.ExactIff`).
- `resolve_root_process` stops after 64 steps (`ProcTree.IdempotentIff`, `ProcTree.LongLine`).

## Model

| member | source | states |
|---|---|---|
| Cidr.CidrBlock | rstrace/src/ip_blacklist.rs:495-506 | The mask-and-or range is the aligned block of 2^(32-prefix) addresses that contains the address (RFC 4632 section 3.1). |
| Cidr.InRangeIffTop | rstrace/src/ip_blacklist.rs:326-326 | An address passes the start/end comparison exactly when its leading prefix bits, as a number, equal the block's. |
| Cidr.InRangeIffBits | rstrace/src/ip_blacklist.rs:495-506 | An address is in the range exactly when each of its first prefix bits equals the start's. |
| Cidr.CommonAddress | rstrace/src/ip_blacklist.rs:495-506 | Two blocks of one prefix length that share an address are equal. |
| Cidr.NestedOrDisjoint | rstrace/src/ip_blacklist.rs:495-506 | Any two blocks are nested or disjoint, and which of the two is decided by the shorter prefix. |
| Cidr.RangeFixesPrefix | rstrace/src/ip_blacklist.rs:495-506 | Equal ranges come from equal prefix lengths. |
| Bits.MaskedParts | rstrace/src/ip_blacklist.rs:497-505 | And-ing and or-ing, bit by bit, with a mask of high ones and its complement give quotient and block end. |
| BlacklistSpec.ParsedIsCanonical | rstrace/src/ip_blacklist.rs:479-493 | A prefix above 32 is an error; anything else gives an entry with the line's text and prefix whose block holds the written address and is the block of its own start. |
| BlacklistSpec.MatchingIndex | rstrace/src/ip_blacklist.rs:322-328 | The filter and max_by_key pick an entry that contains the address, no containing entry is longer, none after it is as long; none is picked exactly when none contains it. |
| BlacklistSpec.MatchingIndexIffBest | rstrace/src/ip_blacklist.rs:322-328 | That property determines the index. |
| BlacklistSpec.HitIffInUnion | rstrace/src/ip_blacklist.rs:317-319 | A hit is membership in the union of the ranges. |
| BlacklistSpec.MatchedKeyBySet | rstrace/src/ip_blacklist.rs:321-328 | Which prefix and range a lookup finds depends only on the set of entries, not on order or repetition. |
| BlacklistSpec.StableSortSpec | rstrace/src/ip_blacklist.rs:366-366 | The sort by start orders, rearranges, and keeps entries of one start in order. |
| BlacklistSpec.DedupSpec | rstrace/src/ip_blacklist.rs:367-367 | Dedup keeps the first of each run of equal neighbours, adds nothing, and keeps the order. |
| BlacklistSpec.DedupRanges | rstrace/src/ip_blacklist.rs:367-367 | Dedup keeps the set of ranges. |
| BlacklistSpec.SortDedupSpec | rstrace/src/ip_blacklist.rs:365-368 | sort_dedup gives a list sorted by start, without equal neighbours, with the same set of ranges. |
| BlacklistSpec.SortDedupIdempotent | rstrace/src/ip_blacklist.rs:365-368 | sort_dedup twice is sort_dedup once. |
| BlacklistSpec.SortDedupKeepsMatches | rstrace/src/ip_blacklist.rs:365-368 | sort_dedup never changes the prefix and range that a lookup finds. |
| BlacklistSpec.ParseLinesSpec | rstrace/src/ip_blacklist.rs:461-473 | The loop over a file parses it exactly when every line's prefix is valid, and then yields the blocks of its lines. |
| BlacklistSpec.ParsedLineByLine | rstrace/src/ip_blacklist.rs:461-473 | Each line gives its own entry, in place: its text, prefix and block. |
| BlacklistSpec.WithoutRangeSpec | rstrace/src/ip_blacklist.rs:356-356 | retain removes exactly the entries with the range and keeps the order. |
| BlacklistSpec.WithoutRangeConcat | rstrace/src/ip_blacklist.rs:356-356 | Entry by entry, in place: retain drops an entry of the range and keeps any other once. |
| BlacklistSpec.ApplyKeepsInvariant | rstrace/src/ip_blacklist.rs:330-368 | Each edit keeps the list canonical and sorted and acts on the set of ranges as union, insert, delete or identity. |
| BlacklistSpec.EveryHistory | rstrace/src/ip_blacklist.rs:330-368 | The same over every history of edits, with hits being membership in the union of the resulting set. |
| BlacklistSpec.EverySpelling | rstrace/src/ip_blacklist.rs:330-368 | Over every history, the first entry of a range has the label of the line that brought the range in when it was last absent: adding and merging never replace it. |
| BlacklistSpec.EveryEntryWasWritten | rstrace/src/ip_blacklist.rs:330-368 | Over every history, each entry has the label, prefix and block of some line of some edit. |
| Survivors.DedupsIffNoSandwich | rstrace/src/ip_blacklist.rs:365-368 | sort_dedup removes every duplicate range exactly when no two equal ranges have a different range of the same start between them. |
| Survivors.DuplicateSurvives | rstrace/src/ip_blacklist.rs:365-368 | A list of three on which a duplicate survives. |
| IpBlacklist.Blacklist.MatchingEntry | rstrace/src/ip_blacklist.rs:322-328 | Returns the best entry of the list as it stands, or nothing when no entry contains the address. |
| IpBlacklist.Blacklist.SortDedup | rstrace/src/ip_blacklist.rs:365-368 | Replaces the list by its sorted, deduplicated form and keeps the invariant. |
| IpBlacklist.Blacklist.Merge | rstrace/src/ip_blacklist.rs:360-363 | Appends and tidies. |
| IpBlacklist.Blacklist.LoadLines | rstrace/src/ip_blacklist.rs:330-338 | Loads a file's lines, or leaves the list alone when one is bad; keeps the invariant. |
| IpBlacklist.Blacklist.AddCidr | rstrace/src/ip_blacklist.rs:340-352 | Adds one block unless its range is there; keeps the invariant; fails exactly on a bad prefix. |
| IpBlacklist.Blacklist.RemoveCidr | rstrace/src/ip_blacklist.rs:354-358 | Removes every entry of one range; keeps the invariant. |
| IpBlacklist.Blacklist.SyncToEbpf | rstrace/src/ip_blacklist.rs:370-413 | Loads trie, counters and switches in order, or fails when the list is too long; on a fresh trie the maps then answer like the list. |
| IpBlacklist.Blacklist.ResetHits | rstrace/src/ip_blacklist.rs:425-430 | Zeroes the counters in use and no other. |
| IpBlacklist.Blacklist.DumpHits | rstrace/src/ip_blacklist.rs:415-438 | Prints one line for exactly the entries whose counter is above 0, each with its text and count, and leaves the counters zero. |
| IpBlacklist.SyncReady | rstrace/src/ip_blacklist.rs:385-398 | Loading any canonical list that fits succeeds and makes trie and scan agree on every address. |
| LpmTrie.KeyBytesAreOctets | rstrace/src/ip_blacklist.rs:450-458 | On a little-endian machine the key word's bytes in memory are the four octets in network order, for inserted and looked-up keys alike. |
| LpmTrie.LookupFrom | rstrace-ebpf/src/ip_blacklist.rs:124-126 | A trie lookup returns the value under the longest stored prefix of the address. |
| LpmTrie.InsertAllLoads | rstrace/src/ip_blacklist.rs:385-392 | Loading up to 2048 entries into an empty trie never runs out of slots, and each node holds the last entry that maps to it. |
| LpmTrie.InsertAllIff | rstrace/src/ip_blacklist.rs:385-392 | Loading into a trie in any state succeeds exactly when old and new nodes together fit 2048 slots, or none is new; nodes that no entry has keep their values. |
| LpmTrie.TrieAgreesWithScan | rstrace-ebpf/src/ip_blacklist.rs:124-133 | The kernel lookup returns the very index that the userspace scan picks, overlaps and duplicates included. |
| LpmTrie.SyncedTrieAgrees | rstrace/src/ip_blacklist.rs:304-314 | The same for the trie that sync_to_ebpf builds from a fresh one. |
| Stun.KernelAgreesWithUserspace | rstrace-ebpf/src/ip_blacklist.rs:167-212 | On a frame that holds the whole declared UDP datagram the kernel STUN check equals the userspace check of its payload and ports. |
| Stun.UserStunIff | rstrace/src/ip_blacklist.rs:193-222 | For every payload and ports, byte by byte: at least 20 bytes, first two bytes 00 or 01 then 01 or 11, length within the payload, and the cookie 21 12 A4 42 or, with length at most 256, port 3478 on one side (RFC 5389 section 6). |
| Stun.BindingTypeIff | rstrace-ebpf/src/ip_blacklist.rs:160-165 | The accepted types are exactly the words with method 1 and either class bit free, 0x0001, 0x0011, 0x0101 and 0x0111. |
| Stun.KernelStunIff | rstrace-ebpf/src/ip_blacklist.rs:167-212 | On whole datagrams the kernel says yes exactly under the same byte conditions at the frame's offsets. |
| Stun.AnswerIff | rstrace-ebpf/src/ip_blacklist.rs:167-212 | For every frame, cut or whole: the kernel check says no exactly when a field that the frame holds speaks against STUN, yes exactly when none does and the cookie is all there, and fails exactly when none does and the frame ends before that. |
| Stun.NotRefusedIff | rstrace-ebpf/src/ip_blacklist.rs:173-187 | The check fails to say no exactly when userspace takes the whole datagram for STUN, or the frame is cut, both bounds compare with an address beyond the cut, and nothing left of the datagram speaks against STUN. |
| Stun.LengthBoundsNotice | rstrace-ebpf/src/ip_blacklist.rs:173-187 | Were the bounds compared with the frame's length, no cut would go unnoticed. |
| Stun.CutShortExample | rstrace-ebpf/src/ip_blacklist.rs:185-187 | A frame cut short that the kernel check accepts. |
| XdpSpec.Ipv4OffsetIff | rstrace-ebpf/src/ip_blacklist.rs:227-248 | The IPv4 header is found at an offset exactly when the frame is IPv4 there, plain or behind one 802.1Q tag. |
| XdpSpec.ReadHeaderIff | rstrace-ebpf/src/ip_blacklist.rs:60-64 | Source, destination and protocol are those of the frame's IPv4 header. |
| XdpSpec.DropsIff | rstrace-ebpf/src/ip_blacklist.rs:53-102 | A frame is dropped exactly when it is IPv4, its protocol is 6 with TCP enabled or 17 with UDP enabled, dry-run is off, source or destination is a userspace hit, and, if UDP, it is neither STUN to userspace nor cut unnoticed. |
| XdpSpec.ListedUdpPassesIff | rstrace-ebpf/src/ip_blacklist.rs:81-101 | A UDP frame from or to a listed address passes exactly when userspace takes it for STUN or it is cut unnoticed. |
| XdpSpec.ListedTcpDroppedIff | rstrace-ebpf/src/ip_blacklist.rs:112-121 | A TCP frame from or to a listed address is dropped exactly when TCP is enabled. |
| XdpSpec.OtherFramesPass | rstrace-ebpf/src/ip_blacklist.rs:66-68 | A frame whose protocol is switched off, or is neither TCP nor UDP, passes and changes no map. |
| XdpSpec.OtherEtherTypesPass | rstrace-ebpf/src/ip_blacklist.rs:227-248 | So does a frame that is not IPv4. |
| XdpSpec.HeadersOnlyPassIff | rstrace-ebpf/src/ip_blacklist.rs:173-177 | A 34-byte frame that ends with its IPv4 header, from a listed address, is dropped when it lies below address 8 and passes uncounted anywhere else. |
| XdpSpec.VerdictIgnoresCounters | rstrace-ebpf/src/ip_blacklist.rs:73-99 | The verdict does not depend on the counting maps, full ones whose inserts fail included. |
| XdpMaps.Maps.BumpHitIp | rstrace-ebpf/src/ip_blacklist.rs:129-133 | Increments the counter of the address's entry in place, and nothing else. |
| XdpMaps.Maps.RecordDryRunIp | rstrace-ebpf/src/ip_blacklist.rs:135-154 | Counts one more for the address in the active dry-run map and changes nothing else; fails, changing nothing, exactly when a new address finds that map full. |
| XdpMaps.Maps.RecordStunPass | rstrace-ebpf/src/ip_blacklist.rs:156-158 | Counts one more for the address and changes no other counter or map; fails, changing nothing, exactly when a new address finds the map full. |
| XdpMaps.Maps.TryIpBlacklist | rstrace-ebpf/src/ip_blacklist.rs:60-102 | The program on the maps in place has the state and result of the specification. |
| XdpMaps.Maps.IpBlacklist | rstrace-ebpf/src/ip_blacklist.rs:53-58 | Errors pass. |
| HitAccounting.FrameEffect | rstrace-ebpf/src/ip_blacklist.rs:93-99 | One frame moves each counter by the number of its blocked endpoints that blame the entry; no bump misses the array. |
| HitAccounting.HitsConserved | rstrace-ebpf/src/ip_blacklist.rs:270-276 | Over every run of frames, counter reads and counter resets: reported + held + blamed between a read and its reset = all (dropped frame, blocked endpoint) pairs of the entry, up to wraps at 2^64. |
| HitAccounting.DumpIsReadsThenResets | rstrace/src/ip_blacklist.rs:415-430 | The reads and resets of a dump, with nothing between, have the effect of the method. |
| HitAccounting.OneStepDumpsConserve | rstrace/src/ip_blacklist.rs:415-430 | Over every run of frames and uninterrupted dumps: reported + held = all (dropped frame, blocked endpoint) pairs of the entry, up to wraps. |
| HitAccounting.PrintedIsReported | rstrace/src/ip_blacklist.rs:432-438 | Over every run of frames and dumps, what the dumps print for an entry is what their reads reported. |
| HitAccounting.PrintedConserves | rstrace/src/ip_blacklist.rs:415-438 | Over every such run: printed + held = all (dropped frame, blocked endpoint) pairs of the entry, up to wraps. |
| HitAccounting.LateHitsAreLost | rstrace/src/ip_blacklist.rs:415-430 | A frame between the read and the reset of a counter: all its hits of that entry are reported nowhere and held nowhere. |
| HitAccounting.GrandTotalBounds | rstrace-ebpf/src/ip_blacklist.rs:93-99 | Over every run the blame of all entries together lies between the number of drops and twice that. |
| EndToEnd.HistoryDecidesVerdict | rstrace/src/ip_blacklist.rs:15-36 | After any history of edits, loaded into the maps, frames are dropped exactly as the set of blocks that the edits describe says. |
| PassAccounting.FrameCounts | rstrace-ebpf/src/ip_blacklist.rs:73-92 | One frame counts its listed ends, source first, up to the first failed insert: in the active dry-run map, or, of STUN, among the passes; the other maps stay. |
| PassAccounting.CountAllCounts | rstrace-ebpf/src/ip_blacklist.rs:142-154 | Each address counted before a failed insert adds one to its counter. |
| PassAccounting.StunPassesCounted | rstrace-ebpf/src/ip_blacklist.rs:81-91 | Over every run the pass counter of an address grows by the number of (STUN frame let pass, distinct listed end) pairs whose insert succeeded, up to wraps at 2^64. |
| DryRunLog.DryRunLoop.constructor | rstrace/src/ip_blacklist.rs:100-106 | Points the writers at map A. |
| DryRunLog.DryRunLoop.Tick | rstrace/src/ip_blacklist.rs:114-128 | Flips the flag, prints a listing of the map that was active and empties it; the other map and all else stay. |
| DryRunLog.DryRunLoop.DrainDryRun | rstrace/src/ip_blacklist.rs:137-160 | Prints each key of the map once with its count, then leaves it empty. |
| DryRunLog.CountsAreSteps | rstrace-ebpf/src/ip_blacklist.rs:135-154 | Counting a frame's listed ends is choosing and recording in the drain protocol, counts taken modulo 2^64. |
| DryRunLog.TickIsSteps | rstrace/src/ip_blacklist.rs:114-160 | A tick is a flip and a whole drain of the protocol. |
| DryRunLog.RunIsQuiet | rstrace/src/ip_blacklist.rs:100-135 | Over every run of frames and ticks, flag, both maps and printed lines are those of a quiet protocol run that recorded exactly the logged pairs. |
| DryRunLog.DryRunConserved | rstrace/src/ip_blacklist.rs:100-160 | Over every such run and for every address: printed + in A + in B = the (frame, distinct listed end) pairs whose insert succeeded, up to wraps at 2^64, and the map that is not active is empty. |
| DrainProtocol.StepKeepsPhaseOk | rstrace/src/dstlog.rs:102-131 | In every interleaving a snapshot has no key twice and each key not yet removed is still in the drained map. |
| DrainProtocol.StepBalances | rstrace-ebpf/src/dstlog.rs:202-221 | Every step of a writer or the drainer keeps, for every key: recorded = emitted + read and not emitted + in the maps + lost. |
| DrainProtocol.EveryRunKeeps | rstrace/src/dstlog.rs:78-97 | Both hold over every run. |
| DrainProtocol.AccountBetweenDrains | rstrace/src/dstlog.rs:78-97 | Between drains, for every key and interleaving: recorded = emitted + in map A + in map B + lost. |
| DrainProtocol.OnlyHeldKeysLose | rstrace-ebpf/src/dstlog.rs:211-221 | An event is lost only as one more increment of a key of the drained map between its reading and its removal. |
| DrainProtocol.RemoveNeverFails | rstrace/src/dstlog.rs:128-130 | remove always finds its key. |
| DrainProtocol.DrainerNeverStuck | rstrace/src/dstlog.rs:102-132 | In every reachable state in the middle of a drain some step of the drainer is enabled. |
| DrainProtocol.UnreadKeySurvives | rstrace/src/dstlog.rs:107-130 | Over every run until the next drain of a map starts reading: the map holds what it held of a key that the last drain did not read, and every event of the key put in since. |
| DrainProtocol.DrainEmitsHeld | rstrace/src/dstlog.rs:107-126 | What the map holds of a key when a drain starts reading is in the log once that drain has emitted, in every interleaving. |
| DrainProtocol.QuietStep | rstrace/src/dstlog.rs:81-90 | If no writer is late when a scan starts, each step keeps: nothing lost, the snapshot's rest is the drained map. |
| DrainProtocol.QuietRunsLoseNothing | rstrace/src/dstlog.rs:81-90 | Over every run without late writers nothing is lost, the inactive map is empty between drains, and every event was emitted once or is in the active map. |
| DrainProtocol.LateWriterLoses | rstrace-ebpf/src/dstlog.rs:202-209 | A run with one late writer that loses an event. |
| Dstlog.CountingLog.constructor | rstrace/src/dstlog.rs:62-66 | Starts with both maps empty and buffer A active. |
| Dstlog.CountingLog.Record | rstrace-ebpf/src/dstlog.rs:202-221 | Counts the key in the active map or fails on a full one; the history stays a quiet protocol run. |
| Dstlog.CountingLog.Tick | rstrace/src/dstlog.rs:80-91 | Flips the buffers; the drained map ends empty, its content is listed once in the log, the other map is untouched; the history stays a quiet protocol run. |
| Dstlog.CountingLog.DrainAndPrint | rstrace/src/dstlog.rs:102-132 | The drain of one map, in three loops. |
| Dstlog.Snapshot | rstrace/src/dstlog.rs:107-110 | Lists the map: each key once with its count. |
| Dstlog.CountingLog.Print | rstrace/src/dstlog.rs:117-126 | Passes every entry and prints those that are shown. |
| Dstlog.CountingLog.RemoveAll | rstrace/src/dstlog.rs:128-130 | Removes every listed key and leaves the other map alone. |
| DrainRuns.ListingTotals | rstrace/src/dstlog.rs:107-110 | A listing's totals are the map's counts. |
| DrainRuns.DrainRun | rstrace/src/dstlog.rs:102-132 | Reading, emitting and removing in the order of any listing, with nobody in between, is a quiet run of the protocol that logs the listing and leaves the map empty. |
| TlsSni.ParseSniExtension | rstrace/src/tls_sni_capture.rs:231-253 | The parser's answer for one server_name extension, panic included. |
| TlsSni.ParseTlsSni | rstrace/src/tls_sni_capture.rs:176-229 | The offset-driven parser with its extension loop terminates and computes the specified answer. |
| TlsSni.RoundTrip | rstrace/src/tls_sni_capture.rs:286-319 | For every ClientHello whose vectors fit their length fields, and any trailing bytes, parsing its serialization gives the answer of its first server_name extension (RFC 8446 sections 4.1.2 and 4.2). |
| TlsSni.HostNameIsFound | rstrace/src/tls_sni_capture.rs:321-325 | If that extension lists a host name of 1 to 253 bytes first, the answer is that name (RFC 6066 section 3). |
| TlsSni.MadeOfAnswers | rstrace/src/tls_sni_capture.rs:186-228 | A payload made of header, vectors, complete other extensions and a server_name extension is answered from that extension, whatever follows it in the block. |
| TlsSni.AnswerIsMadeOf | rstrace/src/tls_sni_capture.rs:186-228 | Conversely, every payload with an answer or a panic is made up like that. |
| TlsSni.OnlyClientHellos | rstrace/src/tls_sni_capture.rs:176-185 | Payloads under 43 bytes, not of record type 0x16 and version 3, or with another handshake type than 1, are not answered. |
| TlsSni.ExtensionNamesIff | rstrace/src/tls_sni_capture.rs:231-252 | The extension is answered with a name exactly when it encodes a list starting with that host name. |
| TlsSni.ExtensionPanicsIff | rstrace/src/tls_sni_capture.rs:235-252 | The slice runs past the extension exactly when the name ends inside the declared list but outside the extension. |
| TlsSni.ListInsideNeverPanics | rstrace/src/tls_sni_capture.rs:235-238 | A declared list inside the extension rules that out. |
| TlsSni.PanicExample | rstrace/src/tls_sni_capture.rs:236-252 | A well-formed message of 62 bytes on which it happens, whatever follows it. |
| TlsSni.NameIff | rstrace/src/tls_sni_capture.rs:176-253 | A name is answered exactly on payloads made of a message whose first server_name extension names it. |
| TlsSni.PanicIff | rstrace/src/tls_sni_capture.rs:176-253 | The parser panics exactly on payloads made of a message whose first server_name extension overruns. |
| DnsQuery.ParseQname | rstrace/src/dns_capture.rs:185-206 | The label loop reads the specified labels and leaves the offset where they end. |
| DnsQuery.ParseDnsQuery | rstrace/src/dns_capture.rs:163-183 | The parser computes the specified answer. |
| DnsQuery.RoundTrip | rstrace/src/dns_capture.rs:163-206 | A question of 1 to 31 labels, followed by anything, is read back: labels, type, and the offset just past the terminator (RFC 1035 sections 3.1 and 4.1.2). |
| DnsQuery.ManyLabels | rstrace/src/dns_capture.rs:187-201 | With 32 or more labels the first 32 are read and the type is taken from the next bytes of the name. |
| DnsQuery.ReadBackIff | rstrace/src/dns_capture.rs:163-206 | A question is read back exactly when it has at most 31 labels, or 32 and type zero. |
| DnsQuery.AnswersIff | rstrace/src/dns_capture.rs:163-206 | A key is answered exactly on queries that ask for it, the terminator missing only after 32 labels. |
| DnsQuery.OnlyQueriesAnswered | rstrace/src/dns_capture.rs:163-174 | Whatever is answered has its QR bit clear and at least one question. |
| DnsQuery.ExComExample | rstrace/src/dns_capture.rs:163-206 | The question ex.com, byte by byte: counted under ex.com in a query, under nothing in a response. |
| DnsQuery.SameDomainIff | rstrace/src/dns_capture.rs:205-205 | Two names are joined to one domain exactly when cutting all labels at their dots makes them equal. |
| DnsQuery.SameKeyIff | rstrace/src/dns_capture.rs:163-206 | Any two answered queries get one record key exactly when their names have the same pieces and their types agree. |
| DnsQuery.JoinInjective | rstrace/src/dns_capture.rs:205-205 | For labels without dots the joined domain determines the labels. |
| DnsQuery.DistinctKeys | rstrace/src/dns_capture.rs:124-125 | Two encoded questions, each with its own header, class and trailer, share a record key exactly when their pieces and types are equal; without dots in labels, exactly when they are the same question. |
| DnsQuery.DottedLabelCollides | rstrace/src/dns_capture.rs:205-205 | The question for the label a.b and the one for a and b, in any two packets, share a key. |
| ExecEvents.CopyChunk | rstrace-ebpf/src/exec_trace.rs:218-229 | The inner copy loop appends a chunk, cut at the end of the field, and touches nothing behind it. |
| ExecEvents.ReadArgv | rstrace-ebpf/src/exec_trace.rs:183-240 | For every previous content, the C string left in the field is the space-joined leading non-empty chunks of the first three slots; at most 98 bytes, so no chunk is cut; bytes from 99 on are untouched. |
| ExecEvents.PackedOfThree | rstrace-ebpf/src/exec_trace.rs:183-240 | Slot by slot: nothing, or the chunks up to the first slot that is null, unreadable or empty, one space between neighbours. |
| ExecEvents.Scratch.FillEvent | rstrace-ebpf/src/exec_trace.rs:80-104 | What a reader sees of the event's fields does not depend on the scratch buffer's previous content. |
| ExecEvents.ProbeRead | rstrace-ebpf/src/exec_trace.rs:95-100 | The string helper writes the string and its NUL. |
| ExecEvents.EventRoundTrip | rstrace-common/src/lib.rs:65-73 | An event's memory image is 312 bytes and reads back as the event. |
| ExecEvents.ParseExecEvent | rstrace/src/exec_trace.rs:173-185 | Answers exactly when the two pieces together hold an event, and from their first 312 bytes. |
| ExecEvents.EverySplitDecodes | rstrace/src/exec_trace.rs:173-185 | However a sample is cut in two, with any padding, the event comes back. |
| CStrings.CStr | rstrace/src/exec_trace.rs:269-272 | The bytes before the first NUL: a NUL-free prefix that ends at a NUL or at the end. |
| CStrings.CStrIs | rstrace/src/exec_trace.rs:269-272 | A NUL-free prefix that ends so is the string. |
| CommFilters.BuildCommFilter | rstrace/src/util.rs:40-54 | Accepts exactly names of 1 to 15 bytes and pads them with NULs. |
| CommFilters.CommMatches | rstrace-ebpf/src/helpers.rs:2-12 | The kprobe comparison is a prefix test with the filter's string. |
| CommFilters.CommEq | rstrace-ebpf/src/exec_trace.rs:164-177 | So is the exec comparison. |
| CommFilters.PassesCommFilter | rstrace-ebpf/src/exec_trace.rs:127-161 | Allow mode passes exactly listed processes, deny mode exactly the others, an empty list everything. |
| CommFilters.BuiltComparesPrefix | rstrace/src/util.rs:40-54 | A built filter's string is its name, cut at the name's first NUL. |
| CommFilters.ListedIffSomePrefix | rstrace/src/exec_trace.rs:110-115 | With the loader's table a process is listed exactly when some name is a prefix of its comm; stale slots do not matter. |
| CommFilters.ExactIff | rstrace/src/exec_trace.rs:33-35 | The comparison is the documented exact one except on processes whose name properly extends the filter's. |
| CommFilters.PrefixIsNotExact | rstrace/src/exec_trace.rs:33-35 | A filter that is taken for a longer process name. |
| Utf8.BoundaryIff | rstrace/src/exec_trace.rs:263-263 | In valid UTF-8 the one-byte boundary test finds exactly the ends of characters. |
| Utf8.ValidIff | rstrace/src/exec_trace.rs:258-267 | The text that the truncation speaks of is the encoding of a sequence of code points without surrogates (RFC 3629 section 3). |
| Utf8.TruncateBytes | rstrace/src/exec_trace.rs:258-267 | Returns the longest valid prefix within the bound and drops at most three bytes below it (RFC 3629 sections 3 and 4). |
| ProcTree.ResolveRootProcess | rstrace/src/exec_trace.rs:212-235 | Returns the end of a chain of at most 64 parents, all above 1, with its name; a shorter chain ends where the parent is unknown, at most 1, or itself. |
| ProcTree.ReachesTopIff | rstrace/src/exec_trace.rs:212-235 | The result's parent is unknown, at most 1 or itself exactly when a chain of at most 65 processes leads from the process to such a one. |
| ProcTree.SameRoot | rstrace/src/exec_trace.rs:212-235 | Every process on such a chain, the root included, resolves to the same root. |
| ProcTree.IdempotentIff | rstrace/src/exec_trace.rs:212-235 | Resolving twice changes nothing exactly when such a chain exists or the chain of 129 processes cycles in step with the limit. |
| ProcTree.IdempotentWithoutCyclesIff | rstrace/src/exec_trace.rs:212-235 | Without cycles only the limit matters. |
| ProcTree.LongLine | rstrace/src/exec_trace.rs:212-235 | The last of a line of 66 processes resolves to the second, which resolves to the first. |

## Left out

- DrainProtocol.StepBalances: takes one increment of a map, lookup included, as one atomic step, so increments that two
  processors tear, or that hit an element just removed, are not modelled; counts are unbounded.
- Dstlog.CountingLog.Record: the count of a key is unbounded here, 64 bits in the source, and the writer is not interrupted;
  interrupted writers are those of DrainProtocol.
- DryRunLog.RunIsQuiet: a frame and a tick are one event each; frames that come in the middle of a drain are those of
  DrainProtocol.
- LpmTrie.InsertAllLoads: the trie is a map from prefix length and leading bits; the kernel's node layout and locking are
  not modelled.
- IpBlacklist.Blacklist.DumpHits: gives the reported lines in list order; the sort of the text and the file are left out.
- IpBlacklist.Blacklist.LoadLines: starts at lines whose address and prefix are already numbers; decryption, comments and
  the text of addresses are left out.
- XdpMaps.Maps.TryIpBlacklist: looks each address up once; the source looks a blocked one up again for its counter, in a
  trie that does not change while the program runs.
- ExecEvents.Scratch.FillEvent: string reads from user memory are given as their outcome, a NUL-free string within the
  limit or a failure that leaves the buffer alone; the clamp of a chunk's length to 32 then does nothing.
- TlsSni.NameIff: names are byte strings; the replacement of invalid UTF-8 is left out.
- DnsQuery.SameKeyIff: labels are byte strings, for the same reason.
- Utf8.TruncateBytes: a string is given as its valid UTF-8 bytes, as the type promises.
- CommFilters.PassesCommFilter: the three maps are parameters.
- Program loading and attaching, `ip link`, perf buffers, timers, signals, files and printing.
- Ethernet, IP, TCP and UDP decoding in the capture modes, done by a library.
- The address classes of is_external, the reading of socket addresses, and dump_stun_passes: finite case lists and a
  printout that would add only easy members.
- Bandwidth, syscall and stack collection, formatting, and floating-point summaries.
