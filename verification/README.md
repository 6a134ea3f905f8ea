# NetAudit verification model

A Dafny model of the parts of NetAudit whose correctness is not visible in any single function: the capture-file
chain, the capture-filter language, the lesson graph check, SIEM escaping, the live-socket failover, the capture
queue, the DNS cache, the rate limiter, the traffic statistics, alert throttling, the threat engine, scheduled
baselines and the LAN scan. Each module models one component and proves what that component is for, over every
input, run or interleaving.

`dafny verify dfyconfig.toml` checks the whole project.

## How it is organised

| files | component |
|---|---|
| `Wrappers`, `Arithmetic`, `Bytes`, `Text` | options and results, nonlinear arithmetic, byte order, Python string operations |
| `Checksum`, `TcpFlags`, `Packets` | the Internet checksum, flag names, stored rows |
| `Synth`, `Dissect`, `DissectFrames` | frame synthesis, dissection, and frames written field by field |
| `PcapFormat`, `PcapNg`, `PcapNgFiles`, `PcapRoundTrip` | libpcap and pcapng files, read and written, export and import |
| `BpfTokens`, `BpfParser`, `BpfGrammar`, `BpfPrint`, `BpfEval`, `BpfPhrases`, `BpfFilter` | the filter language from characters to meaning, and the filter in force |
| `LessonGraph` | prerequisite cycles |
| `SiemEscape`, `SiemRecords`, `SiemSyslog`, `SiemMeaning` | CEF and syslog records, and what they say of an event |
| `LiveSocket`, `CaptureQueue`, `DnsCache`, `RateLimiting` | concurrent protocols, as state machines over their atomic steps |
| `TrafficStats`, `SeriesMeaning` | packet log, minute table and time series, and what a series says of the packets |
| `AlertDispatch`, `ThreatAlerts` | alert throttling and the threat-to-alert dispatcher |
| `ThreatEngine`, `ThreatTimeline`, `TierSuppression` | threat lifecycle, timeline, tier-dependent detectors |
| `BaselineDiff`, `Baselines`, `BaselineLedger` | baseline comparison, the scheduled monitor, and its runs |
| `LanScanRules`, `LanScan`, `LanScanService` | which scans are allowed, the worker, and the service |

Code that changes state in the original is a class or a method with a loop here, proved against a function of its
inputs or old state; the laws are then lemmas about that function. Protocols with several actors are also given as
steps on a value, so that a theorem ranges over every interleaving.

## What the proofs found

The code is modelled as it is. Where a natural reading of it, or of its documentation, is false, or true only
because of what the callers pass, the model proves exactly when it holds:

* `Synth.TotalLengthExact`: a TCP, UDP or ICMP frame whose observed length is below the header stack is a truncated
  prefix that still announces the whole stack; the IPv4 header of any other protocol announces no payload, so its
  total length is right at 34 bytes alone. `PcapRoundTrip.RowRoundTrip` gives the exact rows that survive an export
  and an import.
* `PcapRoundTrip.DeclaredSnaplenExceeded`: an exported frame is longer than the declared snap length of 65535
  exactly when the observed length is, up to 65549 bytes (`MAX_FRAME`).
* `PcapNg.BigSectionExactly`: the section header's length is read in little-endian order, before the byte-order
  magic. So a big-endian section that opens a file is accepted exactly when its length with the bytes reversed frames
  it too: 65792, 0x00010100, does (`BigSectionOf65792`), and no length that is not a multiple of 256 does
  (`SwappedSectionRefused`), which leaves out every header shorter than 256 bytes.
* `SiemEscape.RfcReadsExactly`: a reader that follows section 6.3.3 of RFC 5424 recovers a value exactly when it
  has no line break; the backslash-n escape is the repository's own convention.
* `SiemSyslog.SyslogReadsBack` and `SyslogIsOneRecord`: kind and time are the syslog fields written unescaped. The
  four kinds and the time format of the program respect that (`ProgramRecordsReadBack`); a further kind would have to
  hold neither a space nor a line break.
* `DnsCache.StuckExactly`: an address is in flight for good, and never looked up again, exactly when its resolution
  or its hand-over to the pool ended by an exception the code does not catch.
* `AlertDispatch.NeverLimitedExactly`: the hourly limit counts suppressed and rate-limited alerts too. A steady stream
  is never limited exactly when limit times gap is more than 3600 seconds; otherwise it is silenced after its first
  hour (`SteadyAlertsStarve`).
* `AlertDispatch.HourlySends`: the sends of an hour, counted at the transports, are at most the limit and one for each
  history insert that raised; `UnrecordedSendsEscape` shows that such sends have no bound of their own.
* `ThreatAlerts.RestartRepeats`: the first pass after a restart alerts again exactly those of its threats that have no
  row among the 500 newest, and all of them when the history cannot be read.
* `TrafficStats.AgreementNeedsWholeMinutes`: the minute table agrees with the packet log exactly for buckets of
  whole minutes.
* `ThreatEngine.RankDecides`: a cooldown sweep reaches 1000 rows a status, the most recently seen first. A stale
  threat is resolved when fewer than 1000 other rows of its status are as recent, and stays open in every pass in
  which 1000 are newer, although staleness is what the sweep is for.
* `ThreatTimeline.TimelineLosesTheEnd`: an event exactly at the end of a window of whole buckets is counted
  nowhere.
* A run of the baseline monitor whose alert or pruning fails reports that nothing was captured, although the
  baseline is stored and the schedule marked (`BaselineLedger.ReportTellsCapture`).
* `LanScan.Job.Run`: after a connector error the open ports already found on the host being scanned are dropped.

## Model

| member | source | states |
|---|---|---|
| Checksum.Checksum16 | backend/netaudit/pcap/synth.py:48-57 | the loop returns the one's complement of the folded 16-bit sum, an odd last byte padded with zero |
| Checksum.StoredChecksumVerifies | backend/netaudit/pcap/synth.py:48-57 | a checksum stored in its zeroed even-offset field makes the block sum to 0xFFFF, also when a computed 0 is sent as 0xFFFF |
| TcpFlags.ParseTcpFlags | backend/netaudit/pcap/synth.py:60-68 | the loop sets exactly the bits the comma- or bar-separated tokens name, each once |
| TcpFlags.FlagRoundTrip | backend/netaudit/pcap/dissect.py:26-27 | every flag byte survives being named and parsed back |
| TcpFlags.FlagNames | backend/netaudit/pcap/dissect.py:21-27 | a flag's name stands in the text if and only if its bit of the TCP header is set |
| Synth.Synthesize | backend/netaudit/pcap/synth.py:142-239 | a frame has the observed length, cut at 65549 and at zero |
| Synth.SynthesizedFrameVerifies | backend/netaudit/pcap/synth.py:86-239 | from 34 bytes on the IPv4 header checksum of every IPv4 frame verifies at a receiver; with room for the header stack of TCP, UDP or ICMP the total length is the frame length less 14, the transport checksum verifies and UDP never sends a zero checksum; any other protocol announces a total length of 20 |
| Synth.TotalLengthExact | backend/netaudit/pcap/synth.py:226-239 | from 34 bytes on the total length of an IPv4 frame is right if and only if, for TCP, UDP and ICMP, the observed length has room for the stack, and, for any other protocol, it is 34 |
| Dissect.Dissection.DissectL4 | backend/netaudit/pcap/dissect.py:119-135 | fills ports, flags and protocol from whatever the segment holds |
| Dissect.Dissection.DissectIpv4 | backend/netaudit/pcap/dissect.py:88-100 | fills addresses and hands on the bytes after the header's own length |
| Dissect.Dissection.DissectIpv6 | backend/netaudit/pcap/dissect.py:103-111 | the same for the fixed IPv6 header |
| Dissect.DissectEthernet | backend/netaudit/pcap/dissect.py:64-85 | dispatch on the EtherType, with short frames left blank |
| Dissect.DissectFrame | backend/netaudit/pcap/dissect.py:34-61 | dispatch on the link type |
| Dissect.DissectSynthesized | backend/netaudit/pcap/dissect.py:64-135 | what the dissector recovers from the synthesised frame of any stored row, at any length |
| DissectFrames.FrameReadsBack | backend/netaudit/pcap/dissect.py:34-135 | any frame written from its fields, with or without a VLAN tag or a link header, IPv4 with any options or IPv6, and any segment, dissects into its addresses, ports, flags and protocol |
| DissectFrames.OnlyFramesAreRead | backend/netaudit/pcap/dissect.py:34-135 | fields are read if and only if the bytes are such a frame; whatever is cut, malformed or of another type stays blank |
| DissectFrames.Ipv6TextReads | backend/netaudit/pcap/dissect.py:114-116 | an IPv6 text is the eight groups in order, in hexadecimal without leading zeros |
| DissectFrames.Ipv6TextDetermines | backend/netaudit/pcap/dissect.py:114-116 | so it determines the sixteen bytes |
| DissectFrames.Ipv4TextReads | backend/netaudit/pcap/dissect.py:96-97 | an IPv4 text is the four bytes in order, in decimal |
| DissectFrames.SynthesizedIsFrame | backend/netaudit/pcap/synth.py:86-239 | a synthesised frame with room for its stack is such a frame, field by field: addresses, ports, flags, lengths, and the placeholders for what is not observed |
| PcapFormat.HeaderRoundTrip | backend/netaudit/pcap/format.py:111-197 | a header in either byte order and resolution reads back, and an implausible snap length is refused |
| PcapFormat.RecordRoundTrip | backend/netaudit/pcap/format.py:126-260 | a record written anywhere in a file reads back from there in either byte order |
| PcapFormat.ReadPcapRecords | backend/netaudit/pcap/format.py:208-262 | the loop computes the record stream, with the cap, the size checks and each refusal |
| PcapFormat.CutFileReads | backend/netaudit/pcap/format.py:208-262 | a file cut at any byte after its header gives exactly the records wholly inside, and an error exactly off a boundary |
| PcapFormat.ReadIsExact | backend/netaudit/pcap/format.py:208-262 | for any bytes, the records read are the exact encoding of a prefix, the whole rest exactly when there is no error |
| PcapNg.ParseIfTsResol | backend/netaudit/pcap/format.py:275-299 | the option loop computes the unit that `PcapNg.LastResolutionDecides` describes |
| PcapNg.LastResolutionDecides | backend/netaudit/pcap/format.py:275-299 | the last non-empty resolution option before the end of the options gives the unit; without one it is a microsecond |
| PcapNg.OptionsReadBack | backend/netaudit/pcap/format.py:275-299 | any options written in either byte order, padded to four bytes, with or without an end marker, are the ones found |
| PcapNg.SplitTime | backend/netaudit/pcap/format.py:417-427 | seconds and nanoseconds of a raw timestamp add up to its floor, the fraction below a second |
| PcapNg.MicrosecondsSplit | backend/netaudit/pcap/format.py:417-427 | on a microsecond interface the split is exact |
| PcapNg.ReadPcapng | backend/netaudit/pcap/format.py:302-464 | the block loop, with its look-ahead for the link type, yields the scan of the file; every block takes at least 12 bytes |
| PcapNgFiles.FileReadsBack | backend/netaudit/pcap/format.py:302-464 | a file written block by block, with sections in either order, interfaces and packets, reads back as exactly its packets with the time their own interface declares, up to the cap, without an error, under the first interface's link type |
| PcapNgFiles.ImportReadsBack | backend/netaudit/pcap/import_pipeline.py:67-144 | the import of such a file makes one row for each packet, and flags it exactly at the cap |
| PcapNgFiles.TimeTold | backend/netaudit/pcap/format.py:407-427 | a row's time is the packet's time to the nanosecond, or to the microsecond for coarser interfaces |
| PcapNgFiles.ResolutionByByte | backend/netaudit/pcap/format.py:275-299 | the resolution byte divides a second by ten, or by two with its high bit set, as often as it says |
| PcapNg.ScanAppend | backend/netaudit/pcap/format.py:326-439 | after whole blocks the rest is read as from the state they leave |
| PcapNg.UnknownBlockTransparent | backend/netaudit/pcap/format.py:326-439 | a well-framed block of any unknown type between blocks changes neither packets, outcome nor link type |
| PcapNg.PacketsAreSlices | backend/netaudit/pcap/format.py:326-439 | every packet's data is the captured slice of its own packet block, framed at both ends in the byte order in force there; the blocks are disjoint and in file order |
| PcapNg.FirstSectionExactly | backend/netaudit/pcap/format.py:327-381 | a file's first section is accepted if and only if its length, read in little-endian order, frames it and its magic is known; it then sets the declared order, and a file whose first section is refused is refused |
| PcapNg.BigSectionExactly | backend/netaudit/pcap/format.py:327-381 | an opening big-endian section is accepted if and only if its byte-reversed length is an acceptable length that frames it and its magic is known |
| PcapNg.PalindromeAccepted | backend/netaudit/pcap/format.py:327-381 | a big-endian section whose length reads the same both ways is accepted and switches the reader over |
| PcapNg.BigSectionOf65792 | backend/netaudit/pcap/format.py:327-381 | 65792 is such a length |
| PcapNg.SwappedSectionRefused | backend/netaudit/pcap/format.py:327-381 | a file that opens with a big-endian section whose length is not a multiple of 256 is refused with the block length error |
| PcapRoundTrip.IterPcapBytes | backend/netaudit/pcap/router.py:90-110 | the generator writes the header and one record a row, and fails at the first row whose length does not fit |
| PcapRoundTrip.WriteRowsEncodes | backend/netaudit/pcap/router.py:90-110 | the export fails exactly on a length outside 32 bits, else writes the rows' records |
| PcapRoundTrip.DrainRecords | backend/netaudit/pcap/import_pipeline.py:115-144 | the loop returns the dissected packets, the truncation flag and the error count |
| PcapRoundTrip.ParsePcapFile | backend/netaudit/pcap/import_pipeline.py:67-112 | sniffs the format and imports, refusing a file that yields nothing |
| PcapRoundTrip.LinktypeNamesDiffer | backend/netaudit/pcap/import_pipeline.py:95-112 | different link types are reported under different names |
| PcapRoundTrip.ImportCut | backend/netaudit/pcap/import_pipeline.py:95-144 | importing a cut file returns the whole records and flags truncation exactly off a record boundary, below the cap |
| PcapRoundTrip.ByteOrderIrrelevant | backend/netaudit/pcap/format.py:145-158 | the same logical file imports alike in either byte order, wherever it is cut |
| PcapRoundTrip.ExportImport | backend/netaudit/pcap/router.py:90-110 | exporting any rows and importing them returns their canonical forms in order, up to the cap |
| PcapRoundTrip.TimeExact | backend/netaudit/pcap/router.py:90-110 | a time survives if and only if it is whole microseconds within 32 bits of seconds |
| PcapRoundTrip.ExportedTimeIsNear | backend/netaudit/pcap/router.py:90-110 | any time within 32 bits of seconds is exported to the nearest microsecond |
| PcapRoundTrip.AddressRoundTrip | backend/netaudit/pcap/synth.py:71-83 | both addresses survive if and only if both are canonical dotted text |
| PcapRoundTrip.RowRoundTrip | backend/netaudit/pcap/synth.py:142-223 | a row of any protocol survives if and only if it is faithful, a condition on the row alone |
| PcapRoundTrip.FaithfulRoundTrip | backend/netaudit/pcap/import_pipeline.py:67-144 | fewer faithful rows than the cap come back as they were, in order, untruncated and without errors |
| PcapRoundTrip.DeclaredSnaplenExceeded | backend/netaudit/pcap/synth.py:223-239 | a row's frame keeps the declared snap length of 65535 if and only if its observed length does, and reaches 65549 if and only if that does |
| BpfTokens.Tokenize | backend/netaudit/pcap/bpf.py:55-67 | the loop yields the tokens from the start of the text |
| BpfTokens.TokensTile | backend/netaudit/pcap/bpf.py:55-67 | the tokens are the one sequence that tiles the non-space text with maximal words, at their offsets |
| BpfParser.Parser.ParseOr | backend/netaudit/pcap/bpf.py:149-161 | the cursor method computes the parse from its position and stops after what it consumed |
| BpfParser.Parser.ParseAnd | backend/netaudit/pcap/bpf.py:163-190 | the same with conjunctions written or implied |
| BpfParser.Parser.ParseUnary | backend/netaudit/pcap/bpf.py:192-197 | the same for negation |
| BpfParser.Parser.ParsePrimary | backend/netaudit/pcap/bpf.py:199-228 | the same for groups, protocols and qualifiers |
| BpfParser.Parser.ParseOperand | backend/netaudit/pcap/bpf.py:228-284 | the same for ports, hosts and networks, with each error position |
| BpfParser.Parse | backend/netaudit/pcap/bpf.py:287-297 | every syntax error's position lies in 0..len |
| BpfParser.ParseBpf | backend/netaudit/pcap/bpf.py:287-297 | the parser object computes the outcome for the text |
| BpfGrammar.ParserIsGrammar | backend/netaudit/pcap/bpf.py:142-284 | the parser accepts exactly the token lists the grammar derives, and returns the tree of every derivation |
| BpfGrammar.DerivedIsParsed | backend/netaudit/pcap/bpf.py:142-284 | every derivation of the tokens has the same tree, the parser's |
| BpfGrammar.SoundOr | backend/netaudit/pcap/bpf.py:149-284 | from any position, what was consumed is derived by the grammar |
| BpfGrammar.AndAccepted | backend/netaudit/pcap/bpf.py:172-190 | conjunctions parse greedily, left-associatively and whole |
| BpfGrammar.AndIsOptional | backend/netaudit/pcap/bpf.py:172-190 | writing or omitting "and" between terms never changes the tree |
| BpfPrint.PrintParse | backend/netaudit/pcap/bpf.py:55-297 | a printed well-formed tree parses to itself, from characters on |
| BpfPrint.ParsedIsWellFormed | backend/netaudit/pcap/bpf.py:55-297 | the tree of every accepted text is well-formed, so that printing it gives a text of the same tree |
| BpfEval.AcceptedMeans | backend/netaudit/pcap/bpf.py:303-355 | an accepted filter matches a packet exactly when all terms of one of its alternatives do, where a term's meaning is told by the grammar's words and the packet's two ends |
| BpfEval.OneEndDecides | backend/netaudit/pcap/bpf.py:303-355 | a filter that only says "src" is decided by protocol and source end, one that only says "dst" by protocol and destination |
| BpfPhrases.PortPhrase | backend/netaudit/pcap/bpf.py:55-355 | the text "port n", alone or with "src" or "dst", is accepted if and only if n is a number in range, refused at n otherwise, and matches exactly the packets with that port at an end asked for |
| BpfPhrases.HostPhrase | backend/netaudit/pcap/bpf.py:55-355 | the same for "host a" |
| BpfPhrases.NetPhrase | backend/netaudit/pcap/bpf.py:55-355 | the same for "net a/n" |
| BpfPhrases.CutPhrase | backend/netaudit/pcap/bpf.py:228-284 | a term that breaks off before its operand is whole is refused at the end of its last word |
| BpfPhrases.ProtocolPhrase | backend/netaudit/pcap/bpf.py:55-355 | a protocol name alone matches exactly the packets of that protocol |
| BpfPhrases.NotPhrase | backend/netaudit/pcap/bpf.py:55-355 | "not" before a text of one term matches exactly where the text does not |
| BpfEval.MirrorSeesReplies | backend/netaudit/pcap/bpf.py:303-355 | exchanging "src" and "dst" is exchanging the packet's ends |
| BpfEval.UnqualifiedIsMirror | backend/netaudit/pcap/bpf.py:303-355 | filters without qualifiers are exactly those that are their own mirror |
| BpfFilter.FilterState.TrySet | backend/netaudit/pcap/router.py:260-290 | a refused update answers with the error position and leaves the filter in force |
| BpfFilter.BlankExactly | backend/netaudit/pcap/router.py:260-270 | what clears the filter is exactly a text of nothing but white space |
| BpfFilter.LastAcceptedRules | backend/netaudit/pcap/router.py:260-290 | after any updates the filter in force is the last accepted one |
| LessonGraph.CycleFinder.Visit | backend/netaudit/learn/content.py:170-183 | returns a simple cycle over real edges, or finishes everything reachable and restores the path |
| LessonGraph.PrereqCycle | backend/netaudit/learn/content.py:163-190 | terminates; None if and only if the graph is acyclic, else a closed walk over real edges |
| LessonGraph.OrderedIsAcyclic | backend/netaudit/learn/content.py:163-190 | an order with prerequisites first rules out every cycle |
| LessonGraph.CheckLessons | backend/netaudit/learn/content.py:193-233 | a catalogue passes if and only if it has six lessons, no dangling prerequisite and an order of all lessons with each behind its prerequisites |
| SiemEscape.EscapeIsEncode | backend/netaudit/export/siem.py:85-158 | the chain of replacements is a character-by-character code of the text with normalised line breaks |
| SiemEscape.CodeTable | backend/netaudit/export/siem.py:85-158 | what each character is written as in a header field, an extension value and a quoted parameter |
| SiemEscape.UnescapeEscape | backend/netaudit/export/siem.py:85-158 | reading back gives the text with normalised line breaks |
| SiemEscape.EscapeIsOneLine | backend/netaudit/export/siem.py:85-158 | escaped text has no line break |
| SiemEscape.RfcReadsExactly | backend/netaudit/export/siem.py:149-158 | section 6.3.3 of RFC 5424 reads a value back if and only if it has no line break |
| SiemRecords.ToCef | backend/netaudit/export/siem.py:112-143 | one record an event, in order |
| SiemRecords.WriteCef | backend/netaudit/export/siem.py:112-143 | the pair list is built from the fields that are present |
| SiemRecords.ExtensionReadsBack | backend/netaudit/export/siem.py:112-143 | splitting at unescaped "=" recovers every key and every value |
| SiemRecords.CefReadsBack | backend/netaudit/export/siem.py:85-143 | a record is one line and splits into seven header fields and the extension |
| SiemMeaning.CefSaysEvent | backend/netaudit/export/siem.py:85-143 | what a reader gets is the event: category, title and severity number in the header, and under each key its own field, present if and only if the field is, with no further key |
| SiemSyslog.ToSyslog | backend/netaudit/export/siem.py:161-188 | one record an event, in order |
| SiemSyslog.WriteSyslog | backend/netaudit/export/siem.py:161-188 | the parameter list is built from the fields that are present |
| SiemSyslog.ParamsReadBack | backend/netaudit/export/siem.py:149-188 | structured data reads back, whatever follows it |
| SiemSyslog.SyslogReadsBack | backend/netaudit/export/siem.py:161-188 | a line reads back to its fields if and only if the event kind has no space |
| SiemSyslog.SyslogIsOneRecord | backend/netaudit/export/siem.py:161-188 | a record is one line if and only if its time and kind are |
| SiemSyslog.ProgramRecordsReadBack | backend/netaudit/export/siem.py:161-188 | every record of an event with one of the program's four kinds and a time it formats is one line and reads back |
| SiemMeaning.SyslogSaysEvent | backend/netaudit/export/siem.py:161-188 | what a reader gets of a program's record is the event: priority, time and kind, each parameter its own field, and the flattened message |
| LiveSocket.LiveSocketManager.Begin | frontend/src/api/liveSocket.ts:40-56 | `start`, once only, in forced mock mode or towards the real backend |
| LiveSocket.LiveSocketManager.SetBackendMode | frontend/src/api/backendMode.ts:14-18 | the mode store calls its listener at once, which may detach the mocks |
| LiveSocket.LiveSocketManager.FallToMock | frontend/src/api/liveSocket.ts:82-103 | `connectMock` with the re-entrant listener |
| LiveSocket.LiveSocketManager.Detach | frontend/src/api/liveSocket.ts:108-117 | `detachMock` |
| LiveSocket.LiveSocketManager.Resume | frontend/src/api/liveSocket.ts:121-127 | `resumeReal` |
| LiveSocket.LiveSocketManager.Connect | frontend/src/api/liveSocket.ts:145-162 | `connectReal` up to its await |
| LiveSocket.LiveSocketManager.OnSocketMade | frontend/src/api/liveSocket.ts:164-175 | `connectReal` after its await |
| LiveSocket.LiveSocketManager.OnOpen | frontend/src/api/liveSocket.ts:177-188 | an open socket ends mock mode, unless it is stale |
| LiveSocket.LiveSocketManager.OnClose | frontend/src/api/liveSocket.ts:199-202 | only the current socket's close is a failure |
| LiveSocket.LiveSocketManager.HandleFailure | frontend/src/api/liveSocket.ts:209-230 | back-off, or mock mode when attempts are spent |
| LiveSocket.InvNext | frontend/src/api/liveSocket.ts:40-230 | every event of every actor keeps the invariant |
| LiveSocket.FailoverIsSafe | frontend/src/api/liveSocket.ts:40-230 | in every run an open real socket and a mock feed never coexist, at most one socket is not closed, unforced mock mode has its retry timer, and a started manager off the mocks has exactly one of socket, attempt and timer |
| LiveSocket.DisplayIsTrue | frontend/src/api/liveSocket.ts:40-230 | in every run "open" is shown if and only if frames come in, mock mode shows "connecting" until a pending handshake, and a failure shows "reconnecting" until something opens |
| LiveSocket.StartTells | frontend/src/api/liveSocket.ts:40-56 | a start goes to the mocks if and only if they are forced or REST has fallen back |
| LiveSocket.FailureTells | frontend/src/api/liveSocket.ts:209-230 | the third failure in a row goes over to the mocks unless REST reaches the real backend, any other waits to try again |
| LiveSocket.RealModeTells | frontend/src/api/liveSocket.ts:108-127 | REST reaching the real backend ends mock mode, starts the attempts over and makes one |
| LiveSocket.OpenTells | frontend/src/api/liveSocket.ts:177-188 | an opening socket ends mock mode, sets the mode and shows open |
| LiveSocket.HandshakeTells | frontend/src/api/liveSocket.ts:82-103 | a mock handshake counts once and opens the feed in mock mode alone |
| LiveSocket.RealNeverFallsBack | frontend/src/api/liveSocket.ts:209-230 | while REST reaches the real backend no number of refusals brings the mocks |
| LiveSocket.ThirdRefusalFallsBack | frontend/src/api/liveSocket.ts:209-230 | otherwise the third refusal in a row does, and no earlier one |
| LiveSocket.CanAlwaysRecover | frontend/src/api/liveSocket.ts:82-230 | from every reachable state three browser events at most bring an open real socket back |
| CaptureQueue.CaptureBackend.Emit | backend/netaudit/capture/base.py:68-78 | undisturbed, drops the oldest event of a full queue and counts it, by the machine's steps |
| CaptureQueue.CaptureBackend.Drain | backend/netaudit/capture/base.py:80-87 | takes the oldest events up to the given number, in order, as a run of the machine's take steps |
| CaptureQueue.InvNext | backend/netaudit/capture/base.py:68-87 | each queue operation keeps the invariant |
| CaptureQueue.QueueIsSafe | backend/netaudit/capture/base.py:68-87 | under every interleaving: within capacity, no escaped exception, an in-order subsequence, and emitted = drained + queued + dropped when idle |
| CaptureQueue.QueueIsNewest | backend/netaudit/capture/base.py:68-87 | under every interleaving the queue is the end of what was emitted, so a full one gives up its oldest event |
| DnsCache.ReverseDnsCache.LookupAddr | backend/netaudit/capture/enrich.py:133-144 | the locked section answers from the cache, moves the hit to the end, or asks once |
| DnsCache.ReverseDnsCache.StoreResolved | backend/netaudit/capture/enrich.py:146-157 | the locked section stores the name, evicts the least recent, and ends the flight |
| DnsCache.RecencyCovers | backend/netaudit/capture/enrich.py:133-157 | the recency list holds exactly the addresses touched |
| DnsCache.RecencyNames | backend/netaudit/capture/enrich.py:133-157 | an address has the name of its last resolution |
| DnsCache.LastTouched | backend/netaudit/capture/enrich.py:146-157 | evicting as one goes keeps what evicting at the end would |
| DnsCache.CacheIsRecency | backend/netaudit/capture/enrich.py:133-157 | under every interleaving the cache is the last distinct addresses touched, in order; cached and in-flight addresses are disjoint; no address is resolved twice at once |
| DnsCache.LostStaysLost | backend/netaudit/capture/enrich.py:133-157 | an address whose resolution or hand-over ended in an uncaught exception is never asked for again |
| DnsCache.CanBeFreed | backend/netaudit/capture/enrich.py:133-157 | any other address in flight can leave it by at most two further steps of its own resolution |
| DnsCache.StuckExactly | backend/netaudit/capture/enrich.py:133-157 | an address in flight stays there in every continuation if and only if its resolution or hand-over ended in an uncaught exception |
| RateLimiting.RateLimiter.Check | backend/netaudit/ratelimit.py:33-57 | the bucket table, the verdict and the wait after a request |
| RateLimiting.RequestTells | backend/netaudit/ratelimit.py:33-57 | an admitted request waits for nothing; others' buckets are dropped if and only if a new peer meets a full table |
| RateLimiting.FreshBurst | backend/netaudit/ratelimit.py:33-57 | of a fresh peer's burst exactly the whole capacity is admitted |
| RateLimiting.WindowBound | backend/netaudit/ratelimit.py:33-57 | a peer is admitted at most capacity + rate * (t - s) times between s and t |
| RateLimiting.RetryAfterIsHonest | backend/netaudit/ratelimit.py:51-57 | whatever other peers do meanwhile, a refused peer is admitted if and only if the least wait is over or its bucket was dropped; waiting the returned seconds is enough, and at most a second more than the least |
| RateLimiting.TableStaysBounded | backend/netaudit/ratelimit.py:33-45 | over any requests the table never exceeds its cap |
| TrafficStats.TrafficStore.RecordBatch | backend/netaudit/store/stats.py:43-83 | the two loops add the batch's per-minute counts to the table |
| TrafficStats.RepliesTurn | backend/netaudit/pipeline.py:249-266 | a captured packet's bytes count once, on the side of its direction, and a reply has the opposite direction |
| TrafficStats.TrafficStore.ProcessEvents | backend/netaudit/pipeline.py:187-239 | packet log and minute table are fed the same rows |
| TrafficStats.TrafficStore.GetTimeseries | backend/netaudit/store/stats.py:86-146 | contiguous zero-filled buckets, from the raw rows under a minute and from the table otherwise; the range filter of the query changes nothing |
| TrafficStats.UpsertAllAdds | backend/netaudit/store/stats.py:66-83 | an upserted batch adds its counts to every bucket |
| TrafficStats.TableCountsLog | backend/netaudit/store/stats.py:43-83 | the table counts the log by minute, however the events were batched |
| TrafficStats.BatchingIsInvisible | backend/netaudit/store/stats.py:43-83 | two ways of batching the same events give the same counts, one row a minute |
| TrafficStats.SeriesAgree | backend/netaudit/store/stats.py:86-146 | for buckets of whole minutes the series is the raw scan of the log, bucket for bucket |
| SeriesMeaning.SeriesSays | backend/netaudit/store/stats.py:43-146 | for buckets under a minute or of whole minutes, each bucket from the window's start to its end counts exactly the packets observed in it, bytes and packets by direction and packets by protocol |
| TrafficStats.AgreementNeedsWholeMinutes | backend/netaudit/store/stats.py:86-146 | from a minute up, the two agree on every log if and only if the bucket is whole minutes |
| AlertDispatch.AlertService.Dispatch | backend/netaudit/alerts/service.py:216-273 | the history, the attempt statuses and the outcome of a dispatch |
| AlertDispatch.EligibleExactly | backend/netaudit/alerts/service.py:235-240 | an alert is eligible if and only if alerting is on and its severity is not below the minimum in the order from info to critical |
| AlertDispatch.ResultsTell | backend/netaudit/alerts/service.py:250-271 | a row lists each enabled channel as suppressed, limited, or with its transport's report, and no other |
| AlertDispatch.LastStatusTells | backend/netaudit/alerts/service.py:250-271 | a channel's last-attempt column tells the report of its last attempt, and is untouched without one |
| AlertDispatch.SentExactly | backend/netaudit/alerts/service.py:238-271 | an alert is sent if and only if it is outside quiet hours, under the limit and some enabled channel is a desktop one or has an address |
| AlertDispatch.HourlyLimit | backend/netaudit/alerts/service.py:244-248 | every window of 3600 seconds holds at most the limit of sent rows, with any clock and any changes of the other settings |
| AlertDispatch.HourlySends | backend/netaudit/alerts/service.py:216-273 | counted at the transports, every such window holds at most the limit and one send for each history insert of it that raised |
| AlertDispatch.UnrecordedSendsEscape | backend/netaudit/alerts/service.py:216-273 | while history inserts raise, every dispatch of an eligible and reachable alert outside quiet hours is sent, without a limit |
| AlertDispatch.QuietIsKept | backend/netaudit/alerts/service.py:216-273 | history has one row for each recorded call, and none made in quiet hours was sent |
| AlertDispatch.SteadyAlertsStarve | backend/netaudit/alerts/service.py:244-248 | equal alerts at or above the limit: the first ones are sent, then none |
| AlertDispatch.SlowAlertsAreSent | backend/netaudit/alerts/service.py:244-248 | equal alerts spaced so that limit times gap is more than 3600 seconds: every one is sent |
| AlertDispatch.NeverLimitedExactly | backend/netaudit/alerts/service.py:244-248 | a steady stream of an alert is sent for ever if and only if limit times gap is more than 3600 seconds |
| AlertDispatch.ClockOrder | backend/netaudit/alerts/service.py:121-128 | "HH:MM" texts compare as times of day |
| AlertDispatch.QuietIsCircular | backend/netaudit/alerts/service.py:121-128 | quiet hours are the part of the day from start forward to end, past midnight if need be |
| ThreatAlerts.ThreatAlertDispatcher.Seed | backend/netaudit/integration.py:630-641 | the set is filled once, from the history rows shown |
| ThreatAlerts.ThreatAlertDispatcher.DispatchNew | backend/netaudit/integration.py:643-704 | a pass visits each threat once and marks only those recorded; nothing happens while alerting is off |
| ThreatAlerts.NewRowsTell | backend/netaudit/integration.py:643-704 | every row a pass writes tells severity, id and title of one of its threats that is not resolved |
| ThreatAlerts.InvNext | backend/netaudit/integration.py:608-704 | passes, restarts and other alerts keep every threat at one record at most |
| ThreatAlerts.OnceEach | backend/netaudit/integration.py:608-704 | over every run each threat is recorded at most once, restarts included, when each seeding shows every recorded threat |
| ThreatAlerts.OnceWhileSmall | backend/netaudit/integration.py:608-704 | over every run from a fresh store each threat is recorded at most once, restarts included, when history is readable and holds at most 500 rows at each seeding |
| ThreatAlerts.SmallHistoryIsShown | backend/netaudit/integration.py:623-637 | a seeding is complete when history holds at most 500 rows |
| ThreatAlerts.RestartRepeats | backend/netaudit/integration.py:630-704 | the first pass after a restart, with any threats, records an id again if and only if the pass can record it and no row of it is among those shown, or the history cannot be read |
| ThreatAlerts.SentIsGrowth | backend/netaudit/integration.py:643-704 | the number returned is the number of rows written |
| ThreatEngine.ThreatStore.UpsertThreat | backend/netaudit/threat/store.py:157-183 | a conflict updates every column but detector, first sighting and note |
| ThreatEngine.ThreatStore.SetAcknowledged | backend/netaudit/threat/store.py:196-203 | status and note change together |
| ThreatEngine.Engine.UpsertFinding | backend/netaudit/threat/engine.py:117-181 | a finding creates or updates its threat and adds one event |
| ThreatEngine.Engine.ApplyCooldowns | backend/netaudit/threat/engine.py:183-195 | the sweep resolves exactly the listed, untouched and stale threats |
| ThreatEngine.Engine.RunOnce | backend/netaudit/threat/engine.py:93-115 | a pass fires every enabled detector's findings in order, then sweeps, and books each detector's counters |
| ThreatEngine.FiringsExactly | backend/netaudit/threat/engine.py:93-113 | exactly the findings of enabled detectors fire, each under its detector |
| ThreatEngine.Engine.Acknowledge | backend/netaudit/threat/engine.py:206-210 | acknowledges a threat that exists |
| ThreatEngine.Engine.Unacknowledge | backend/netaudit/threat/engine.py:212-217 | reactivates a threat that exists and drops its note |
| ThreatEngine.AckedIs | backend/netaudit/threat/store.py:196-203 | acknowledging and its inverse set status and note of the one threat and change nothing else |
| ThreatEngine.LedgerIsKept | backend/netaudit/threat/engine.py:93-217 | over every run: occurrences are the sum of counts, first and last sightings those of the findings, and the event log holds each finding once, in order |
| ThreatEngine.EveryLedgerIsKept | backend/netaudit/threat/engine.py:93-217 | the same in every state reached from an empty store |
| ThreatEngine.EventsAreFindings | backend/netaudit/threat/store.py:264-268 | a threat has as many event rows as findings |
| ThreatEngine.SightingsOnlyGrow | backend/netaudit/threat/engine.py:117-181 | no threat is lost, its first sighting is fixed and its last never goes back |
| ThreatEngine.PassStatus | backend/netaudit/threat/engine.py:93-195 | the exact status of every threat after a pass |
| ThreatEngine.AcknowledgementHolds | backend/netaudit/threat/engine.py:152-154 | detection alone never undoes an acknowledgement |
| ThreatEngine.NoneStaysStale | backend/netaudit/threat/engine.py:183-195 | with at most 1000 rows a status no untouched threat stays open past its cooldown |
| ThreatEngine.CooldownFromFindings | backend/netaudit/threat/engine.py:93-195 | over any run from an empty store: a pass resolves an open threat without a finding in it if and only if every finding it ever had is older than the cooldown of its first detector, half an hour by default |
| ThreatEngine.ListedByRank | backend/netaudit/threat/engine.py:183-195 | in every order the query may give equal times, a row is listed when fewer than 1000 others of its status are as recent, and not listed when 1000 are newer |
| ThreatEngine.RankDecides | backend/netaudit/threat/engine.py:93-195 | a pass resolves an open, untouched, stale threat when fewer than 1000 others of its status are as recent and leaves it as it is when 1000 are newer; without ties that is an if-and-only-if |
| ThreatEngine.SweepLeavesOldest | backend/netaudit/threat/engine.py:183-195 | when every active row is stale and untouched, exactly the excess over 1000 stays open, and it is the oldest |
| ThreatTimeline.Timeline | backend/netaudit/threat/engine.py:219-232 | each bucket counts the known-severity events of its own interval |
| ThreatTimeline.TimelineLosesTheEnd | backend/netaudit/threat/engine.py:219-232 | together the buckets hold every event once, but for those at the end of a window of whole buckets |
| TierSuppression.ThreatScheduler.ApplyTierSuppression | backend/netaudit/integration.py:248-329 | acts on a settled change of tier only |
| TierSuppression.SwitchTells | backend/netaudit/integration.py:248-329 | a user's switch sets the detector it names and nothing else |
| TierSuppression.PassTells | backend/netaudit/integration.py:248-329 | a pass touches timing detectors only, and lists as suppressed those it knows, on the polling tier alone |
| TierSuppression.TierDecides | backend/netaudit/integration.py:248-329 | while the tier stays and nobody touches it, a timing detector is off on the polling tier and on on any other, unless listing failed |
| TierSuppression.PassesRespectTheUser | backend/netaudit/integration.py:248-296 | passes without a change of tier change nothing |
| BaselineDiff.SortChecks | backend/netaudit/baselines/service.py:130-158 | the loop sorts the common checks into fixed, regressed, inconclusive and unchanged |
| BaselineDiff.DiffBaselines | backend/netaudit/baselines/service.py:124-196 | the whole comparison of two records |
| BaselineDiff.DiffReverses | backend/netaudit/baselines/service.py:124-196 | swapping the records swaps fixed and regressed, added and removed, and negates the scores |
| BaselineDiff.DiffIsComplete | backend/netaudit/baselines/service.py:124-196 | the later checks, listeners and scores can be rebuilt from the earlier ones and the diff, and exactly the peers not known before are new |
| BaselineDiff.ChecksArePartitioned | backend/netaudit/baselines/service.py:130-158 | every common check is reported in exactly one way |
| BaselineDiff.ReportedByStatus | backend/netaudit/baselines/service.py:130-158 | better of pass, warn and fail is fixed, worse is regressed, a change from or to anything else is inconclusive |
| BaselineDiff.MaterialExactly | backend/netaudit/baselines/monitor.py:176-184 | an alert is called for if and only if a check got worse, the overall score fell or a listener is new |
| Baselines.BaselineStore.InsertBaseline | backend/netaudit/baselines/store.py:100-161 | row and success mark are written together or not at all |
| Baselines.BaselineStore.SaveSchedule | backend/netaudit/baselines/store.py:223-236 | only the five allowed intervals are stored |
| Baselines.BaselineStore.DeleteScheduledBefore | backend/netaudit/baselines/store.py:283-294 | removes exactly the scheduled rows before the cutoff |
| Baselines.BaselineStore.CaptureScheduledIfDue | backend/netaudit/baselines/service.py:242-261 | captures exactly when due, naming the most recent scheduled row as predecessor |
| Baselines.BaselineMonitor.RunOnce | backend/netaudit/baselines/monitor.py:54-97 | the state and the report of a run, with every failure branch and the retry time |
| Baselines.RunTells | backend/netaudit/baselines/monitor.py:54-97 | every run by what it meets: idle runs change nothing, a capture adds one row and marks the schedule, and whatever fails is recorded with a retry one interval later |
| Baselines.SleepsUntilDue | backend/netaudit/baselines/monitor.py:153-168 | the sleep ends when there is something to do and no later than one interval |
| BaselineLedger.InvNext | backend/netaudit/baselines/monitor.py:54-97 | runs, manual captures, schedule changes and wakes keep the invariant |
| BaselineLedger.EveryRunKeeps | backend/netaudit/baselines/service.py:242-264 | over every run captures are an interval apart, each is compared with the one before, the newest is stored and its time is the schedule's success time |
| BaselineLedger.EveryRunIsFine | backend/netaudit/baselines/service.py:242-264 | the same in every state a run from an empty store reaches |
| BaselineLedger.StoredRises | backend/netaudit/baselines/store.py:269-280 | the most recent scheduled row is the last capture made |
| BaselineLedger.BothAreFound | backend/netaudit/baselines/monitor.py:75-76 | at a comparison the predecessor is still stored |
| BaselineLedger.PruneTrims | backend/netaudit/baselines/store.py:283-294 | pruning keeps manual rows and trims only the oldest scheduled ones |
| BaselineLedger.ManualsOnlyGrow | backend/netaudit/baselines/store.py:283-294 | no step removes a manual baseline |
| BaselineLedger.ReportTellsCapture | backend/netaudit/baselines/monitor.py:54-97 | a capture is reported if and only if one was made and nothing after it failed |
| BaselineLedger.RetryHolds | backend/netaudit/baselines/monitor.py:58-97 | after a failure nothing is captured before the retry time unless woken |
| LanScanRules.AcceptedExactly | backend/netaudit/lanscan/validation.py:52-91 | a request is accepted if and only if its network lies in one of the three private ranges and wholly on one interface's link, is at most a /24, and ports and rate are in their bounds |
| LanScanRules.AcceptedHostsAreLocal | backend/netaudit/lanscan/validation.py:33-91 | every host of an accepted scan is private (section 3 of RFC 1918) and on a local interface's link; at most 254 hosts |
| LanScanRules.HostsInside | backend/netaudit/lanscan/service.py:73-76 | hosts lie in the network, in rising order |
| LanScanRules.HostsExactly | backend/netaudit/lanscan/service.py:73-76 | the hosts are exactly the addresses of the network, but for its own and its broadcast in one of more than two |
| LanScan.Job.ScanHost | backend/netaudit/lanscan/service.py:123-135 | one host's attempts go on exactly until a flag read before or after a connect is set, or an error; the open ports are those that answered |
| LanScan.Job.Run | backend/netaudit/lanscan/service.py:117-148 | for a cancel at any moment: attempts are exactly those scheduled before the flag is set, a prefix of hosts times ports, counted; cancelled if and only if the flag is set at the last check; completed means all of them with exactly the open ones reported |
| LanScan.CancelStopsAtOnce | backend/netaudit/lanscan/service.py:117-148 | every attempt began before the flag was set and all but the last were over; without an error no scheduled attempt before it was left out |
| LanScan.FoundExactly | backend/netaudit/lanscan/service.py:117-148 | a completed scan names a host if and only if one of its ports is open, with exactly those |
| LanScanService.InvNext | backend/netaudit/lanscan/service.py:85-164 | starts, cancels, attempts and ends keep the invariant |
| LanScanService.EveryRunKeeps | backend/netaudit/lanscan/service.py:85-164 | under every interleaving at most one job runs, and every connect is the next of its job's plan and local |
| LanScanService.EveryRunIsFine | backend/netaudit/lanscan/service.py:85-164 | the same in every state reached from a service without jobs |
| LanScanService.Work | backend/netaudit/lanscan/service.py:85-148 | the worker started on an accepted job, with what its connects and its status tell |
| LanScanService.WorkerIsARun | backend/netaudit/lanscan/service.py:85-148 | whatever that worker does is a run of the machine with the same attempts and status, so that the machine's laws hold of it |
| LanScanService.EndedForGood | backend/netaudit/lanscan/service.py:117-164 | a job leaves the running state once and never changes after |

## Left out

- IPv6 text: `socket.inet_aton`, `ipaddress` and the general IPv6 text form are foreign; addresses and networks are parsed by parameters that the theorems range over.
- `describe` of the filter language: a summary for people that is not meant to be parsed; `BpfPrint` has a printer of its own.
- Error message texts, labels and summaries: the model keeps which error is raised and where.
- The normalisers of `export/events.py` that fill an event from a threat, a recommendation, a check or a packet row: field lists.
- JSON Lines and ECS export: they serialise with a library and escape nothing themselves.
- Text is a sequence of characters with ASCII case folding and the line breaks the escapes name; Unicode digits, case and further line separators are not modelled.
- Floating point: times and rates are integers or exact reals; rounding of float timestamps is not modelled.
- SQLite: tables are sequences and maps with the upsert columns, orders and limits the code relies on; a failing COMMIT is not modelled, and where an ORDER BY leaves a tie any order is allowed.
- Timezones in `get_timeseries` windows: the start of the window is a parameter, and pruning of raw rows does not happen during the histories considered.
- PcapNg.ReadPcapng: a file is a complete byte sequence; a reader that returns short reads in the middle of a file is not modelled.
- AlertDispatch.HourlyLimit: bounds alerts that left a history row; the code does not count a send whose history insert then raises, and `AlertDispatch.HourlySends` bounds those.
- AlertDispatch.AlertService.Dispatch: one dispatch at a time; two concurrent ones could both pass the count. A write of a channel's last status that raises after its transport was used, which ends the dispatch without a row, is not an event here.
- ThreatAlerts.ThreatAlertDispatcher.DispatchNew: the configuration stays the same during one pass; reputation enrichment, which only adds data to the alert, is not part of this model.
- ThreatEngine.Engine.RunOnce: a finding carries the id of its threat; the slug and its four hash digits are not modelled, so two subjects whose ids collide are one threat here. A detector or store call that raises ends the pass and is not modelled, nor are tunables and the persisted detector settings.
- BaselineDiff.DiffBaselines: the sorted order of the reported ids is not modelled; a check list is the dictionary built from it.
- Baselines.BaselineMonitor.RunOnce: the asyncio task, its thread and its shutdown are not modelled; a wake may come between any two runs.
- LanScan.Job.Run: the pacing between attempts (one over the rate) is a wait without a clock here.
- LanScanService.EveryRunKeeps: in the machine a job may still attempt after a cancel; when the worker stops is exact in `LanScan.Job.Run`, and `LanScanService.WorkerIsARun` makes each worker a run of the machine.
- BpfParser.Parse: a port or mask of more than 4300 digits is read as a number; Python 3.11 and later raise a plain `ValueError` there.
- LiveSocket.FailoverIsSafe: runs end before `dispose`; the jitter of the back-off and the contents of frames are not modelled.
- DnsCache.CacheIsRecency: runs end before the executor is shut down; a hand-over that raises for another reason is the step `SubmitFails`.
- CaptureQueue.QueueIsSafe: one producer thread, as in every capture tier.
- RateLimiting.WindowBound: assumes the peer's bucket is not dropped with a full table; a reset gives a full bucket again.
- HTTP routers, authentication, the user interface, detectors, posture checks, reports and lesson texts: case lists and plumbing.
