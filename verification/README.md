# Proofs about HavenOS and its GRUB 0.97

HavenOS is a small x86 kernel that boots through a vendored GRUB 0.97. This project models the parts
of that code whose correctness is not visible from any one function, and proves what they promise.
`dafny verify dfyconfig.toml` checks everything.

* **TFTP file reading** (`TftpProtocol`, `TftpSafety`, `TftpProgress`, `TftpClient`, `Oack`). An honest server that
  sends block n + 1 only after the acknowledgement of block n, a network that may lose, duplicate,
  delay and reorder packets, and GRUB's client: the lock-step receiver, the packet that is sent again
  from the next port after a timeout, the option acknowledgement, and the sliding window over the
  remote file with its seeks and reopenings. Main results: every read that succeeds delivers exactly the file's bytes
  at the offset asked for, whatever reads came before and whatever the network does
  (`Tftp.ReadAll`); in every run the two parties stay in lock step (`NeverAhead`,
  `TwoPartyLockStep`), which is a promise about runs of n requests exactly if n is at most 65536
  (`LockStepIffFewRequests`); a timeout before the first block can be survived exactly if what is
  sent again is the request (`RepeatingSucceedsIffRequest`); the size of the file is found even if the server does
  not say it (`Tftp.TftpDir`); and for every file within the reach of 16-bit block numbers, and for
  longer ones up to a buffer before block 65535, there is a conversation in which opening and
  reading succeed, with any seeks backwards (`OpenAndRead`, `OpenAndReadAll`).
* **getopt** (`GetoptSpec`, `GetoptRuns`, `GetoptSpelling`, `Exchange`, `Getopt`). The resumable scanner
  that permutes the argument vector in place. Main results, over whole runs of calls: a command line
  spelled out of what its author means is reported as meant (`SpelledIsMeant`); the vector becomes its
  options followed by what is left over, both in original order (`Parse`, `StablePartition`); parsing
  the permuted vector again in the POSIX way gives the same result exactly if no call ran out of
  arguments or nothing was left over (`ReparseAgrees`, `ParseTwice`); `optind` never passes the end
  of the vector, except after an ambiguous `-W` name in the last element (`OverrunIffAmbiguousW`).
* **Receive rings** (`RingMemory`, `Rtl8139`, `Ns8390`). The chip appends packets to a ring, the
  driver's poll takes them out. Both rings are proved to be queues of packets, whose frames are
  delivered byte for byte and in order across any number of turns of the ring and of the 32-bit and
  16-bit counters. In the NS8390's, what was stored is always what was taken followed by what is
  pending; the RTL8139's also loses packets, exactly when the oldest one pending is erroneous, and
  then all of them.
* **Printing and parsing** (`Format`, `FormatReads`, `Printf`, `Inet`, `DeviceMap`, `DeviceProbe`). The
  formatter prints the same text to a buffer as to the console and never overruns its item buffer;
  what it prints denotes its arguments (`FormatReads`); `getdec` and `inet_aton` undo it. The device map file that GRUB writes after probing reads back as the same
  map exactly if its names are words that fit the line buffer.
* **Smaller loops** (`Depca`, `Vga`, `Kmemory`). The signature search in a cyclic PROM finds the
  signature exactly if it is there; scrolling made of overlapping 81-cell copies moves every cell up
  one row; the bump allocator hands out disjoint ranges exactly as long as the requests stay below
  2^32.

Objects the C code updates in place are classes and arrays here, loops are loops; each such method is
proved against a function or predicate on values, and what the code promises is proved about that.
A pointer that walks along a C string is the text from that pointer on.

Findings where the code does less than it seems to promise:

* `getopt.c:869` increments `optind` a second time when the argument of `-W` is ambiguous, so that
  `prog -Wfo` with long options `foo` and `fox` leaves `optind` at `argc + 1`
  (`GetoptRuns.AmbiguousWOverruns`). Without `-W foo` support this cannot happen.
* The text of `fsys_tftp.c` numbers blocks in 16 bits but compares them as ints, so a transfer stops
  at block 65535 instead of going on with block 0 (`TftpSafety.DataIsReceive`); nothing behind that
  block is ever delivered (`TftpClient.Tftp.TftpRead`).
* A timeout while `block` is 0 sends `tp` again to port 69 from the next port (`fsys_tftp.c:73-80`).
  Once options have been acknowledged `block` is 0 again and `tp` is ACK 0, which the server ignores
  there, while its data goes to the old port: one timeout between the option acknowledgement and the
  first block ends the transfer for good (`TftpProgress.TimeoutAfterOptions`,
  `TftpProgress.RepeatingSucceedsIffRequest`).
* `buf_fill` fails unless it fills the buffer or meets the end of the file. In a file of 65535 blocks or
  more the last bytes that 16-bit block numbers reach arrive in a buffer that is never full, and the
  read that asked for them fails (`TftpProgress.LastBufferFails`, `TftpProgress.SucceedsIffFillable`).
* A packet with an error bit or a bad length makes `rtl_poll` reset the ring, and every good packet
  behind it is lost (`Rtl8139.ErrorLosesGood`).
* `getdec` does not notice that a number is too long for an int, so `inet_aton` takes 4294967297 for 1
  (`Inet.WrappedAccepted`).
* Text printed by `vga.c` at cell 2000, right behind the screen, is wiped by the scroll that should
  bring it into view (`Vga.Printed`), and the attribute of cell 0 never scrolls
  (`Vga.AttributesAfter`).
* A cursor that leaves the top calls `fb_shift_down (FB_NUM_ROWS)`, which does nothing, so the screen
  stays as it is (`Vga.Screen.FbOffsetCursor`); called from a row on the screen it would mix up the
  first column (`Vga.Screen.FbShiftDown`).
* A bogus header makes `ns8390_poll` return without moving the boundary register, so that it is found
  again on every later call, and a good packet behind it is never delivered (`Ns8390.PollForever`,
  `Ns8390.BogusBlocks`).
* `init_device_map` probes 152 names of hard disks, or any number of links below `/dev/discs`, and has
  room for 128 of them (`DeviceProbe.TooManyDisks`, `DeviceProbe.InsideIffPlaced`).
* A device map written for disks with empty or spaced names, or with lines of more than 1024
  characters, does not read back (`DeviceMap.ReadsBack`).

## Model

| member | source | states |
|---|---|---|
| `TftpProtocol.PortsDistinct` | grub-0.97/netboot/fsys_tftp.c:297-298 | two requests less than 65536 apart, repeated ones included, never have the same source port |
| `TftpSafety.ShortBlockIsLast` | grub-0.97/netboot/fsys_tftp.c:249-251 | a block shorter than the block size is the last one of the file (section 6 of RFC 1350) |
| `TftpSafety.BackgroundKeepsCore` | grub-0.97/netboot/fsys_tftp.c:68-100 | whatever the server and the network do while the client waits keeps the conversation sound: packets in flight are true to the file, no transfer of the current request is more than a block ahead, no acknowledgement exceeds what is stored |
| `TftpSafety.AwaitKeepsCore` | grub-0.97/netboot/fsys_tftp.c:68-102 | the same for a whole wait, which ends with a packet addressed to the current port, a timeout or an abort |
| `TftpSafety.OptionsRead` | grub-0.97/netboot/fsys_tftp.c:138-181 | reading an honest option acknowledgement yields the block size and the file size it announces, and it is refused exactly if it announces a block size below 512 |
| `TftpSafety.AcceptedOptions` | grub-0.97/netboot/fsys_tftp.c:138-181 | from whatever server: options are accepted if and only if each is a blksize of at least 512 or a tsize that is not negative, and the last value counts |
| `TftpSafety.SmallBlocksRefused` | grub-0.97/netboot/fsys_tftp.c:142-172 | smaller blocks are refused with an error that closes the server's transfer |
| `TftpSafety.UnexpectedPackets` | grub-0.97/netboot/fsys_tftp.c:118-209 | data longer than the block size and late options change nothing and are not answered; any other kind of packet ends buf_fill as if it had succeeded |
| `TftpSafety.DataIsReceive` | grub-0.97/netboot/fsys_tftp.c:189-251 | for data packets the mixed 16-bit and int comparisons are the receiver of section 2 of RFC 1350: the next block and only that is stored, and the last block stored is acknowledged; nothing is accepted behind block 65535 |
| `TftpSafety.ReactKeepsClient` | grub-0.97/netboot/fsys_tftp.c:101-251 | one packet through the loop: prevblock and bcounter stay equal and grow by at most one, only by the server's own block of that number; every acknowledgement sent carries the number of the last block stored, none is sent in an abort |
| `TftpSafety.ReactKeepsCore` | grub-0.97/netboot/fsys_tftp.c:101-251 | and the conversation stays sound whether or not the answer gets out |
| `TftpSafety.ReactExtends` | grub-0.97/netboot/fsys_tftp.c:205-251 | and the window grows by exactly the file's bytes between the old and the new block number, staying within the buffer |
| `TftpSafety.RequestKeepsCore` | grub-0.97/netboot/fsys_tftp.c:73-84 | a request, first or repeated, from the next port keeps the conversation sound |
| `TftpSafety.ExtendsKeepsWindow` | grub-0.97/netboot/fsys_tftp.c:245-247 | growing the window block by block keeps it equal to the file's bytes from saved_filepos on |
| `TftpSafety.FillKeeps` | grub-0.97/netboot/fsys_tftp.c:50-255 | a whole run of buf_fill against any network: sound at the end, the window grown by consecutive blocks of the file, full or at the end of the file if it reports success, filemax changed only to the true size |
| `TftpSafety.AbandoningStoresNothing` | grub-0.97/netboot/fsys_tftp.c:215-230 | abandoning a transfer stores nothing, and sends nothing but errors and repetitions of the packet sent last |
| `TftpSafety.RunIsCore` | grub-0.97/netboot/fsys_tftp.c:50-299 | every reachable state of client, server and network is sound |
| `TftpSafety.NeverAhead` | grub-0.97/netboot/fsys_tftp.c:205-251 | in every run bcounter equals prevblock, transfers of the current request are at most one block ahead, no acknowledgement in flight for the current request exceeds what is stored, no data in flight exceeds its transfer's block, and all data is the file's |
| `TftpSafety.TwoPartyLockStep` | grub-0.97/netboot/fsys_tftp.c:205-251 | in every run of at most 65536 requests, a transfer that is the only one of the current request is at prevblock or prevblock + 1 |
| `TftpSafety.PortReuseBreaksLockStep` | grub-0.97/netboot/fsys_tftp.c:38 | the bound is sharp: for every n beyond 65536 there is a run of n requests where old data reaches a reused port and the client gets ahead of its only transfer |
| `TftpSafety.LockStepIffFewRequests` | grub-0.97/netboot/fsys_tftp.c:38 | so lock step holds in all runs of n requests if and only if n is at most 65536 |
| `TftpProgress.WithinReach` | grub-0.97/netboot/fsys_tftp.c:211-213 | block 65535 is the last 16 bits can number: a file is shorter than 65535 blocks if and only if that block is not full |
| `TftpProgress.ShortBlockWithinReach` | grub-0.97/netboot/fsys_tftp.c:249-251 | a file whose short last block was received is shorter than 65535 blocks |
| `TftpProgress.NextExchange` | grub-0.97/netboot/fsys_tftp.c:68-251 | if the acknowledgement and the answer arrive, one turn of the loop brings the next block or the end of the file |
| `TftpProgress.FirstFillSucceeds` | grub-0.97/netboot/fsys_tftp.c:50-255 | in a conversation without losses buf_fill succeeds from the request on, with or without options |
| `TftpProgress.FillSucceeds` | grub-0.97/netboot/fsys_tftp.c:50-255 | and so it does later as long as the buffer can be filled, leaving the conversation one in which it will succeed again |
| `TftpProgress.FillNeedsFillable` | grub-0.97/netboot/fsys_tftp.c:57 | in any conversation buf_fill succeeds only if the blocks up to number 65535 fill the buffer, or the file ends before |
| `TftpProgress.SucceedsIffFillable` | grub-0.97/netboot/fsys_tftp.c:57 | without losses it succeeds if and only if that is so |
| `TftpProgress.LastBufferFails` | grub-0.97/netboot/fsys_tftp.c:57-255 | with 512-byte blocks the last buffer below block 65535 of a longer file is never filled, whatever the network does |
| `TftpProgress.NothingComes` | grub-0.97/netboot/fsys_tftp.c:68 | while the server can hear of no request beyond number n, no packet arrives for one |
| `TftpProgress.RepeatingSucceedsIffRequest` | grub-0.97/netboot/fsys_tftp.c:73-84 | after a timeout with block 0, as long as no port comes round, some continuation makes buf_fill succeed if and only if the packet sent again is the request |
| `TftpProgress.TimeoutAfterOptions` | grub-0.97/netboot/fsys_tftp.c:187-216 | option acknowledgement, then one timeout: the transfer fails whatever happens afterwards |
| `TftpProgress.Refused` | grub-0.97/netboot/fsys_tftp.c:101-107 | a request answered with an error fails |
| `TftpProgress.SmallBlocksFail` | grub-0.97/netboot/fsys_tftp.c:142-144 | no conversation with a server that insists on blocks below 512 bytes succeeds |
| `TftpProgress.OpensIffLargeBlocks` | grub-0.97/netboot/fsys_tftp.c:138-183 | so a first request to an honest server can succeed if and only if its blocks have at least 512 bytes |
| `TftpProgress.TimeoutsSurvived` | grub-0.97/netboot/fsys_tftp.c:73-84 | a slow server is waited for through 20 timeouts and not one more |
| `TftpProgress.AbandonFinished` | grub-0.97/netboot/fsys_tftp.c:331-332 | abandoning a finished transfer sends nothing |
| `TftpProgress.AbandonLate` | grub-0.97/netboot/fsys_tftp.c:73-101 | abandoning a transfer ends with the first timeout once a block has come |
| `TftpProgress.AbandonByBlock` | grub-0.97/netboot/fsys_tftp.c:215-230 | or with the next block, which is answered with an error |
| `TftpProgress.ReopeningIsPlanned` | grub-0.97/netboot/fsys_tftp.c:328-355 | whatever has happened, there is a continuation with which the reopening goes through and the file comes without losses |
| `TftpProgress.OpeningIsPlanned` | grub-0.97/netboot/fsys_tftp.c:427-482 | there is a script without losses for one transfer, or for two if the size is not announced |
| `TftpClient.PositionFits` | grub-0.97/netboot/fsys_tftp.c:46-47 | no offset computed in a transfer exceeds an int |
| `TftpClient.Tftp.ReadOack` | grub-0.97/netboot/fsys_tftp.c:138-181 | the option loop computes packetsize, filemax and the jump to noak as ReadOptions says |
| `TftpClient.Tftp.SendAck` | grub-0.97/netboot/fsys_tftp.c:211-224 | the number acknowledged is the one the receiver of RFC 1350 acknowledges: the next block's, or else that of the last one stored; an abort is answered with an error |
| `TftpClient.Tftp.Take` | grub-0.97/netboot/fsys_tftp.c:237-251 | a block in order is appended to the buffer and counted, and a short one sets buf_eof |
| `TftpClient.Tftp.AskAgain` | grub-0.97/netboot/fsys_tftp.c:73-84 | a timeout while block is 0 sends tp, be it the request or not, to the server's listening port from the next port, at most 20 times; later it fails |
| `TftpClient.Tftp.Process` | grub-0.97/netboot/fsys_tftp.c:101-251 | the branches of the loop body on errors, option acknowledgements, data and anything else are one reaction of the protocol model |
| `TftpClient.Tftp.BufFill` | grub-0.97/netboot/fsys_tftp.c:50-255 | the loop of buf_fill computes the function Fill of the client's and the world's state |
| `TftpClient.Tftp.FillOpen` | grub-0.97/netboot/fsys_tftp.c:50-255 | on an open file buf_fill keeps the window equal to the file, never shrinks it and leaves it full or at the end of the file |
| `TftpClient.Tftp.SendRrq` | grub-0.97/netboot/fsys_tftp.c:258-299 | from any sound state, all counters start afresh and the empty window of an open file at offset 0 is established |
| `TftpClient.Tftp.Reopen` | grub-0.97/netboot/fsys_tftp.c:328-355 | a backward seek runs buf_fill to abandon the transfer and then asks for the file again from a new port, with an empty window at offset 0, leaving filepos, and reports failure exactly if the request cannot be sent |
| `TftpClient.Tftp.CopyOut` | grub-0.97/netboot/fsys_tftp.c:366-383 | the bytes copied are the file's at filepos, filepos steps past them and sliding keeps the window true |
| `TftpClient.Tftp.Slide` | grub-0.97/netboot/fsys_tftp.c:375-382 | more than half a buffer behind filepos, the first half is dropped; the window stays equal to the file, with filepos in it and with the same end |
| `TftpClient.Tftp.Skip` | grub-0.97/netboot/fsys_tftp.c:384-389 | skipping the buffer moves saved_filepos to the place of the next block |
| `TftpClient.Tftp.ReadOn` | grub-0.97/netboot/fsys_tftp.c:357-406 | the loop terminates, delivers exactly the file's bytes, and touches the network only if the window lacks them |
| `TftpClient.Tftp.TftpRead` | grub-0.97/netboot/fsys_tftp.c:318-407 | a successful read copies exactly size bytes of the file at filepos, a failed one returns 0 with errnum set and has written none but the file's bytes; a read inside the window uses no network; nothing behind block 65535 is delivered; in a conversation without losses a forward read within the file succeeds; a read behind a backward seek succeeds if the transfer asked for again loses nothing; the error is ERR_WRITE exactly if the new request cannot be sent |
| `TftpClient.Tftp.Discard` | grub-0.97/netboot/fsys_tftp.c:462-475 | filemax and buf_read together always count the bytes received |
| `TftpClient.Tftp.Measure` | grub-0.97/netboot/fsys_tftp.c:455-478 | without a tsize option, reading to the end computes the file's length |
| `TftpClient.Tftp.TftpDir` | grub-0.97/netboot/fsys_tftp.c:411-485 | if the file is found it is open at offset 0 with a full window, and filemax is its length, announced or, of a file shorter than 65535 blocks, measured; in a conversation without losses it is found; a request that cannot be sent is ERR_WRITE, one that gets no buffer of data ERR_FILE_NOT_FOUND |
| `TftpClient.Tftp.ReadAt` | grub-0.97/netboot/fsys_tftp.c:318-407 | a caller that sets filepos and reads gets the file's bytes there or an error, and gets them without the network if the window has them, or, in front of it or behind it, if no packet is lost |
| `TftpClient.Tftp.ReadAll` | grub-0.97/netboot/fsys_tftp.c:318-407 | any sequence of reads at any offsets: each that succeeds gets the file's bytes at its offset |
| `TftpClient.OpenAndRead` | grub-0.97/netboot/fsys_tftp.c:318-485 | for every honest server with blocks of at least 512 bytes, a client just started opens the file and reads a part of it in some conversation: any part of a file shorter than 65535 blocks, and of a longer file whose size is announced any part that ends a buffer before the end of block 65535 |
| `TftpClient.ReadBack` | grub-0.97/netboot/fsys_tftp.c:328-406 | from any state of an open file, in the middle of a transfer as well, the network can go on so that a read behind a backward seek succeeds |
| `TftpClient.OpenAndReadAll` | grub-0.97/netboot/fsys_tftp.c:318-485 | so any sequence of reads of such parts, forwards and backwards, can succeed one and all |
| `TftpClient.FileRefused` | grub-0.97/netboot/fsys_tftp.c:445-452 | a server that answers the request with an error has no such file, whatever it sends later |
| `TftpClient.Tftp.TftpClose` | grub-0.97/netboot/fsys_tftp.c:488-497 | closing empties the window and runs buf_fill to abandon the transfer, leaving a sound conversation from which a file can be opened again |
| `Oack.ReadOptionBytes` | grub-0.97/netboot/fsys_tftp.c:132-183 | the pointer loop over the bytes of an option acknowledgement computes the function Options |
| `Oack.OptionsReadBack` | grub-0.97/netboot/fsys_tftp.c:137-183 | options encoded as in RFC 2347 are read from their bytes as the options they are, whatever follows the packet in memory |
| `Oack.HonestOackRead` | grub-0.97/netboot/fsys_tftp.c:132-183 | so the bytes of an honest server's acknowledgement give what the protocol model says, unless it has more than 1432 bytes and is refused; 75 options always fit |
| `GetoptSpec.Index` | grub-0.97/lib/getopt.c:217-229 | the first position of a character, None exactly if it does not occur |
| `GetoptSpec.SearchResolves` | grub-0.97/lib/getopt.c:652-675 | a name resolves to the first exact match, or else to the one option it abbreviates; to no other |
| `GetoptSpec.AbbreviatedCounts` | grub-0.97/lib/getopt.c:672-677 | a name is ambiguous exactly if two options have it as a prefix |
| `GetoptSpec.DecodeProgress` | grub-0.97/lib/getopt.c:772-966 | a call that does not move optind consumes one character and leaves some; otherwise the element is finished |
| `GetoptRuns.DecodeLocal` | grub-0.97/lib/getopt.c:622-966 | unless arguments ran out, the outcome of a call depends only on the elements it passes |
| `GetoptRuns.DecodeLacking` | grub-0.97/lib/getopt.c:814-828 | a call that finds an argument missing has passed everything, and would take an element appended |
| `GetoptRuns.OverrunIffAmbiguousW` | grub-0.97/lib/getopt.c:863-871 | one call moves optind past argc if and only if it reports an ambiguous -W name that stands in the last element |
| `GetoptRuns.NoOverrunWithoutW` | grub-0.97/lib/getopt.c:595-602 | a program without W; in optstring never has optind past argc |
| `GetoptRuns.AmbiguousWOverruns` | grub-0.97/lib/getopt.c:869 | prog -Wfo with foo and fox leaves optind past argc |
| `GetoptRuns.StablePartition` | grub-0.97/lib/getopt.c:556-602 | a run splits the elements in two subsequences, consumed and left over, both in original order, together a permutation |
| `GetoptRuns.LeftoversAreNonOptions` | grub-0.97/lib/getopt.c:566-571 | what is left over are non-options, unless a -- ended the options |
| `GetoptRuns.InOrderSame` | grub-0.97/lib/getopt.c:607-613 | the order-keeping scan of the consumed elements, with anything behind them at which it stops, reports the same and stops behind them |
| `GetoptRuns.InOrderSwallows` | grub-0.97/lib/getopt.c:943-961 | a run that was short of arguments takes a leftover element as argument when repeated |
| `GetoptRuns.LackingReparsed` | grub-0.97/lib/getopt.c:943-961 | prog x -a, where a needs an argument: parsing the permuted vector does not give the same run |
| `GetoptRuns.ReparseAgrees` | grub-0.97/lib/getopt.c:402-456 | parsing the permuted vector in REQUIRE_ORDER gives the same results and final optind if and only if no call was short of arguments or nothing was left over |
| `GetoptRuns.HandOverInPlace` | grub-0.97/lib/getopt.c:607-613 | RETURN_IN_ORDER takes every element where it stands and leaves over only what follows a -- |
| `GetoptSpelling.SpelledIsMeant` | grub-0.97/lib/getopt.c:514-967 | a line spelled out of clusters, arguments attached, separate or left out, long names and abbreviations with = or a separate argument, -W names, mistakes and plain words is reported as meant: codes, optarg, optopt and longind, the elements taken and those left over |
| `GetoptSpelling.FoundDecoded` | grub-0.97/lib/getopt.c:688-743 | --name, --name=ARG and --name ARG give the option's val, or 0 with a flag, and the text behind the = or the next element; an unwanted or missing argument is the error due |
| `GetoptSpelling.NamedDecodedW` | grub-0.97/lib/getopt.c:862-918 | and so they do behind -W |
| `GetoptSpelling.ArgumentDecoded` | grub-0.97/lib/getopt.c:919-965 | -oARG, -o ARG, and o:: with and without text |
| `GetoptSpelling.FlagDecoded` | grub-0.97/lib/getopt.c:770-794 | a flag in a cluster, known or not, is reported by itself and the scan goes on behind it |
| `Exchange.SwapTop` | grub-0.97/lib/getopt.c:327-345 | swapping a short bottom block with the far end of the top segment leaves a smaller rotation to do |
| `Exchange.SwapBottom` | grub-0.97/lib/getopt.c:346-363 | and symmetrically for a short top block |
| `Exchange.ExchangeBlocks` | grub-0.97/lib/getopt.c:311-364 | the loop terminates and rotates the two blocks in place, keeping the order inside each and everything outside |
| `Getopt.MyIndex` | grub-0.97/lib/getopt.c:217-229 | the loop finds the first position of the character |
| `Getopt.SearchTable` | grub-0.97/lib/getopt.c:649-675 | the loop over the long options finds what Search says |
| `Getopt.Getopt.Initialize` | grub-0.97/lib/getopt.c:392-456 | the ordering is chosen by the first character of optstring, then by POSIXLY_CORRECT |
| `Getopt.Getopt.Exchange` | grub-0.97/lib/getopt.c:307-385 | skipped non-options and later options change places, and the two indices follow the non-options |
| `Getopt.Getopt.PullBack` | grub-0.97/lib/getopt.c:549-554 | afterwards first_nonopt <= last_nonopt <= optind |
| `Getopt.Getopt.Settle` | grub-0.97/lib/getopt.c:556-564 | consumed elements come before the skipped ones and nothing at or behind optind changes |
| `Getopt.Getopt.SkipNonOptions` | grub-0.97/lib/getopt.c:566-571 | skipping non-options reads no element at or past argc and does not change what the run will report |
| `Getopt.Getopt.PassDashes` | grub-0.97/lib/getopt.c:574-590 | a -- is put behind the options and everything after it is left over |
| `Getopt.Getopt.FinishScan` | grub-0.97/lib/getopt.c:592-602 | at the end optind backs over the non-options that were skipped |
| `Getopt.Getopt.Advance` | grub-0.97/lib/getopt.c:545-620 | advancing ends the run as foreseen, hands over an element in order, or points nextchar behind the dashes of an option |
| `Getopt.Getopt.LongOption` | grub-0.97/lib/getopt.c:688-743 | a long option takes its argument after the = or from the next element, and reports a missing or unwanted one |
| `Getopt.Getopt.WArgument` | grub-0.97/lib/getopt.c:834-918 | -W foo is decoded as --foo, with the extra step on an ambiguous name |
| `Getopt.Getopt.ShortArgument` | grub-0.97/lib/getopt.c:919-965 | required and optional arguments of short options |
| `Getopt.Getopt.ShortOption` | grub-0.97/lib/getopt.c:770-966 | one short option character decoded |
| `Getopt.Getopt.DecodeOption` | grub-0.97/lib/getopt.c:622-966 | one option decoded, long, abbreviated or short, as Decode says |
| `Getopt.Getopt.GetoptInternal` | grub-0.97/lib/getopt.c:514-967 | one call reports the first result of the run foreseen before it and leaves the rest of that run foreseen; a call not returning -1 leaves less to scan; only PERMUTE changes argv; -1 leaves argv and optind as the run ends |
| `Getopt.Getopt.ParseAll` | grub-0.97/lib/getopt.c:514-967 | a loop of calls terminates and has reported exactly the run |
| `Getopt.Parse` | grub-0.97/lib/getopt.c:402-456 | a program's option loop: results, final argv and final optind are those of the specified run, permuting or POSIX |
| `Getopt.ParseSpelled` | grub-0.97/lib/getopt.c:514-967 | a program given such a line sees what was meant and finds the words behind the options |
| `Getopt.ParseTwice` | grub-0.97/lib/getopt.c:514-967 | parsing, then parsing the permuted vector the POSIX way: argv is permuted, and results and optind agree exactly as ReparseAgrees says |
| `RingMemory.CellStep` | grub-0.97/netboot/rtl8139.c:407 | neighbouring bytes of the stream are neighbours in the ring up to its end |
| `RingMemory.AppendKeeps` | grub-0.97/netboot/rtl8139.c:169-171 | storing a byte while the ring is not full destroys nothing that is still wanted |
| `RingMemory.RunInRing` | grub-0.97/netboot/rtl8139.c:421-433 | a run of the stream lies in one piece, or in two pieces at the end and the start of the ring |
| `RingMemory.CopyInTwo` | grub-0.97/netboot/rtl8139.c:424-425 | the two copies put the pieces together |
| `Rtl8139.OffsetIgnoresWrap` | grub-0.97/netboot/rtl8139.c:440-441 | the ring offset is the same although cur_rx wraps at 32 bits and RxBufPtr at 16 |
| `Rtl8139.NextStart` | grub-0.97/netboot/rtl8139.c:440 | the new cur_rx is the start of the next packet, again a multiple of four, across the 32-bit wrap |
| `Rtl8139.HeaderInRing` | grub-0.97/netboot/rtl8139.c:407-410 | the header word never splits and gives the packet's status and size |
| `Rtl8139.FrameInRing` | grub-0.97/netboot/rtl8139.c:421-433 | the first copy never has a negative length and the pieces are the frame |
| `Rtl8139.Nic.EmptyIffNothingPending` | grub-0.97/netboot/rtl8139.c:395-397 | the chip's buffer-empty bit means that no packet is pending |
| `Rtl8139.Nic.constructor` | grub-0.97/netboot/rtl8139.c:169-174 | the buffers at power-on are an empty ring |
| `Rtl8139.Nic.RtlReset` | grub-0.97/netboot/rtl8139.c:285-332 | after a reset driver and chip agree on an empty ring, and what was pending is lost |
| `Rtl8139.Nic.CopyFrame` | grub-0.97/netboot/rtl8139.c:419-434 | nic->packet gets the oldest frame without its check sequence |
| `Rtl8139.Nic.Release` | grub-0.97/netboot/rtl8139.c:440-441 | the oldest packet is taken out and the chip is told |
| `Rtl8139.Nic.RtlPoll` | grub-0.97/netboot/rtl8139.c:389-447 | a poll delivers the oldest pending packet if it is good; packets are lost exactly if it is not, and then all that are pending; the packets ever stored are those delivered or lost, each in the order stored, followed by those pending |
| `Rtl8139.Nic.Conserved` | grub-0.97/netboot/rtl8139.c:389-447 | every packet ever stored is delivered, lost or pending, and only one of these |
| `Rtl8139.GoodFrames` | grub-0.97/netboot/rtl8139.c:412-413 | good means 60 to 1518 bytes and none of the five error bits |
| `Rtl8139.ErrorLosesGood` | grub-0.97/netboot/rtl8139.c:411-417 | an erroneous packet with a good one behind it: neither is ever delivered |
| `Ns8390.Ring.PageStart` | grub-0.97/netboot/ns8390.c:467 | page boundaries of the stream are page boundaries of the ring |
| `Ns8390.Ring.SamePage` | grub-0.97/netboot/ns8390.c:455 | pages less than a ring apart are different |
| `Ns8390.HeaderInRing` | grub-0.97/netboot/ns8390.c:467-472 | the packet header stands at its page |
| `Ns8390.FrameInRing` | grub-0.97/netboot/ns8390.c:483-499 | the frame is in one piece or goes on at eth_rx_start |
| `Ns8390.GoodFrames` | grub-0.97/netboot/ns8390.c:474-476 | good means 64 to 1518 bytes, received intact |
| `Ns8390.BogusBlocks` | grub-0.97/netboot/ns8390.c:475-479 | a packet that is too short, with a good one behind it: no number of polls delivers it |
| `Ns8390.PollForever` | grub-0.97/netboot/ns8390.c:475-479 | once the oldest packet is not good, every later poll fails and everything stored stays pending, whatever arrives in between |
| `Ns8390.Nic.constructor` | grub-0.97/netboot/ns8390.c:239-259 | BOUND and CURR as reset sets them make an empty ring |
| `Ns8390.Nic.Receive` | grub-0.97/netboot/ns8390.c:449-455 | the chip stores a packet at CURR, behind those pending, never reaching the boundary page |
| `Ns8390.Nic.EthPioRead` | grub-0.97/netboot/ns8390.c:108-146 | the transfer loop reads the bytes asked for, rounded up to words on a 16-bit card |
| `Ns8390.Nic.RoomFor` | grub-0.97/netboot/ns8390.c:110 | the rounding overruns neither packet buffer nor ring, and not the first part of a wrapped frame |
| `Ns8390.Nic.EmptyIffNothingPending` | grub-0.97/netboot/ns8390.c:449-455 | CURR equals the page behind BOUND exactly if no packet is pending |
| `Ns8390.Nic.CopyFrame` | grub-0.97/netboot/ns8390.c:481-499 | nic->packet gets the oldest frame, byte for byte, wrapped or not, over memory or programmed I/O |
| `Ns8390.Nic.Release` | grub-0.97/netboot/ns8390.c:512-515 | BOUND is left just before the next packet |
| `Ns8390.Nic.Poll` | grub-0.97/netboot/ns8390.c:431-517 | a poll succeeds exactly if a packet is reported, pending and good, and then delivers the oldest one; taken packets are always a prefix of those stored; otherwise nothing changes |
| `Format.ReverseLowFirst` | grub-0.97/netboot/misc.c:148-163 | the digits of the division loop, reversed, are the decimal number |
| `Format.ItemFits` | grub-0.97/netboot/misc.c:94-95 | every item, with nested terminators, fits the 20 bytes of tmp |
| `FormatReads.HexReadsBack` | grub-0.97/netboot/misc.c:134-135 | the digits printed, in letters of the case asked for, denote the number modulo 16^n |
| `FormatReads.HexPrinted` | grub-0.97/netboot/misc.c:100-136 | %x and %X with # and h: 8, 4 or 2 digits that denote the argument modulo 2^32, 2^16 or 2^8, behind 0x or 0X |
| `FormatReads.SignedReadsBack` | grub-0.97/netboot/misc.c:137-163 | the decimal text of an int denotes it, minus sign included, without leading zeros |
| `FormatReads.DecimalPrinted` | grub-0.97/netboot/misc.c:137-163 | %d prints that |
| `FormatReads.AddressPrinted` | grub-0.97/netboot/misc.c:165-183 | %@ prints the four bytes, lowest first, with dots between them |
| `FormatReads.EtherPrinted` | grub-0.97/netboot/misc.c:184-193 | %! prints six pairs of upper-case digits that denote the bytes, with colons between them |
| `FormatReads.StringPrinted` | grub-0.97/netboot/misc.c:83-87 | %s prints the string and goes on behind it |
| `FormatReads.CharPrinted` | grub-0.97/netboot/misc.c:194-195 | %c prints the argument's low byte |
| `FormatReads.PlainPrinted` | grub-0.97/netboot/misc.c:77-81 | a character that is no % prints itself |
| `FormatReads.EscapedPrinted` | grub-0.97/netboot/misc.c:196-197 | and so does one behind a % that no directive has |
| `Printf.ReverseInPlace` | grub-0.97/netboot/misc.c:156-163 | the swap loop that stops in the middle reverses exactly the digits |
| `Printf.PutDecimal` | grub-0.97/netboot/misc.c:148-163 | the digits written to tmp are the decimal number |
| `Printf.PutHex` | grub-0.97/netboot/misc.c:134-135 | the shift loop writes the hexadecimal digits, highest first |
| `Printf.PutDots` | grub-0.97/netboot/misc.c:165-183 | %@ leaves the four octets in dotted form in tmp |
| `Printf.PutColons` | grub-0.97/netboot/misc.c:184-193 | %! leaves the six octets in hexadecimal in tmp, although they pass through a signed char |
| `Printf.PutItem` | grub-0.97/netboot/misc.c:99-197 | any item is formatted within tmp as Item says |
| `Printf.Vsprintf` | grub-0.97/netboot/misc.c:73-209 | for every format with matching arguments, the same text goes to the buffer, with its NUL and its length returned, as to the console |
| `Printf.EtherbootSprintf` | grub-0.97/netboot/misc.c:211-215 | the buffer holds the text, nothing behind its NUL changes, the console is left alone |
| `Inet.GetDec` | grub-0.97/netboot/misc.c:248-266 | the loop computes the value of the leading digits, as a 32-bit int, and moves the pointer behind them |
| `Inet.GetdecUndoesDecimal` | grub-0.97/netboot/misc.c:248-266 | getdec reads back every non-negative int that %d printed and stops at the first non-digit |
| `Inet.HtonlSwaps` | grub-0.97/netboot/misc.c:243 | swapping the accumulated number gives the octets in memory order |
| `Inet.InetAton` | grub-0.97/netboot/misc.c:223-246 | a text is accepted if and only if it starts with four numbers separated by dots, each at most 255 as a 32-bit int and the last one not followed by a digit; the address consists of their values in order |
| `Inet.AcceptsQuads` | grub-0.97/netboot/misc.c:230-241 | the same of the recursive form of the loop |
| `Inet.ShortNumber` | grub-0.97/netboot/misc.c:234-235 | for numbers of up to nine digits that condition is being at most 255 |
| `Inet.WrappedAccepted` | grub-0.97/netboot/misc.c:257-261 | for longer ones it is not: 4294967297.0.0.0 is accepted as 1.0.0.0 |
| `Inet.AtonUndoesPrint` | grub-0.97/netboot/misc.c:165-183 | for every 32-bit address, inet_aton reads back what %@ printed |
| `DeviceMap.StrtoulReadsDecimal` | grub-0.97/lib/device.c:558 | strtoul reads back every printed number, saturating at 32 bits |
| `DeviceMap.LineBehindHead` | grub-0.97/lib/device.c:532-605 | a line that begins as the writer begins it gives its drive and the first word behind it, or an error if there is none |
| `DeviceMap.NameReadBack` | grub-0.97/lib/device.c:519-605 | the name of a written entry is read back exactly if it is a non-empty word and the line has at most 1024 characters |
| `DeviceMap.ReadingKeeps` | grub-0.97/lib/device.c:598-605 | an entry once read is never changed: a duplicate is an error |
| `DeviceMap.EntryLine` | grub-0.97/lib/device.c:528-596 | an entry with any white space around its parts is read; numbers from 128 on are ignored, those that do not fit an int are errors |
| `DeviceMap.IgnoredLines` | grub-0.97/lib/device.c:525-535 | comments and blank lines are ignored |
| `DeviceMap.ReadsBack` | grub-0.97/lib/device.c:519-609 | a written file with distinct drives reads back as the map it was written for if and only if every entry is good in that sense |
| `DeviceProbe.ReadLine` | grub-0.97/lib/device.c:528-596 | the pointer loops of the reader compute the function Line |
| `DeviceProbe.ReadDeviceMap` | grub-0.97/lib/device.c:493-610 | the line loop computes the function Reading and fills the array |
| `DeviceProbe.CandidatesFine` | grub-0.97/lib/device.c:316-410 | all names that are probed are short words without white space |
| `DeviceProbe.CandidatesAre` | grub-0.97/lib/device.c:316-409 | the names probed, one by one: /dev/hda to /dev/hdh, /dev/ataraid/d0 to d7, /dev/sda to /dev/sdp, then /dev/rd/c0d0 to c7d14 |
| `DeviceProbe.FloppyNamesAre` | grub-0.97/lib/device.c:282-289 | /dev/fd0 to /dev/fd9, under a devfs /dev/floppy/0 to 9 |
| `DeviceProbe.PresentArePicked` | grub-0.97/lib/device.c:715-804 | the disks found are exactly those of the names that can be read, in that order |
| `DeviceProbe.OnlyHda` | grub-0.97/lib/device.c:618-811 | a host whose only disk is /dev/hda, probed for one floppy: drive 0x80 and the lines of fd0 and hd0 |
| `DeviceProbe.ProbeFloppy` | grub-0.97/lib/device.c:660-676 | a floppy is written to the file in any case and mapped if it can be read |
| `DeviceProbe.ProbeDisks` | grub-0.97/lib/device.c:715-732 | the disks of one kind that can be read are mapped and written under consecutive numbers |
| `DeviceProbe.WalkDiscs` | grub-0.97/lib/device.c:679-710 | with devfs, a link that does not resolve uses up its number |
| `DeviceProbe.InitDeviceMap` | grub-0.97/lib/device.c:618-811 | an existing file is read; otherwise map and file are those of the probe, hard disks numbered from 0x80 in probe order |
| `DeviceProbe.RoundTrip` | grub-0.97/lib/device.c:660-710 | for any probe results, with or without devfs, reading back the file succeeds with its entries if and only if all names are good |
| `DeviceProbe.FilledIsPreserved` | grub-0.97/lib/device.c:664-675 | the entries of the file give the same hard disks and a floppy map that extends the probed one |
| `DeviceProbe.NamesGood` | grub-0.97/lib/device.c:715-804 | without devfs every name is good |
| `DeviceProbe.ProbeThenRead` | grub-0.97/lib/device.c:618-811 | probing with a file to write and starting from that file next time succeeds and gives the same hard disks; with a devfs this takes names that are good |
| `DeviceProbe.TooManyDisks` | grub-0.97/lib/device.c:715-803 | a host on which every probed name can be read has 152 hard disks, more than the map has room for |
| `DeviceProbe.InsideIffPlaced` | grub-0.97/lib/device.c:679-803 | hard disks are written inside the map if and only if there are at most 128 of them or, with devfs, no link from number 128 on resolves |
| `Depca.BorderGoesOn` | grub-0.97/netboot/depca.c:669 | why looking at sig[0] only is enough: the signature has period four |
| `Depca.TrackKeepsLongest` | grub-0.97/netboot/depca.c:682-685 | j is always the longest signature prefix ending at the last byte read |
| `Depca.WithinReach` | grub-0.97/netboot/depca.c:680 | from any counter position, 39 reads show every occurrence in the cyclic 32-byte PROM |
| `Depca.Prom.Search` | grub-0.97/netboot/depca.c:680-688 | the loop finds the signature if and only if the PROM holds it, and stops with the counter right behind its first occurrence |
| `Vga.CopiedStep` | vga.c:330-334 | one turn of the copying loop moves a character and the next cell's attribute, with the one overlap that a copy to the row below has |
| `Vga.Screen.FbCopyRow` | vga.c:322-336 | 81 cells are copied, rows out of range are refused |
| `Vga.RisenStep` | vga.c:352-356 | the cell that a row copy spoils is put right by the next one |
| `Vga.Screen.FbScroll` | vga.c:350-360 | every cell gets the one below, the last row is blank in the faded colour, the attribute of cell 0 and everything behind the screen stay |
| `Vga.Screen.FbClearRow` | vga.c:218-225 | exactly the 80 cells of the row become blanks |
| `Vga.SunkStep` | vga.c:340-343 | what one row copied down adds, and what it spoils in the first column of the row copied before |
| `Vga.Screen.FbShiftDown` | vga.c:338-344 | the rows from the given one on move down by one, but for the first column, whose cells come from two rows above; from row 25 on nothing changes |
| `Vga.Screen.FbOffsetCursor` | vga.c:54-80 | the cursor ends in 0 to 2000 in the same column; moving off the bottom scrolls just enough, moving off the top leaves the screen |
| `Vga.ScreenAfter` | vga.c:67-70 | after k scrolls every character on the screen is the one 80k cells later or a blank |
| `Vga.AttributesAfter` | vga.c:350-360 | attributes move likewise, but for cell 0, and fade once at the bottom |
| `Vga.Screen.FbPrintLstr` | vga.c:158-186 | printing writes the text from the cursor on and then scrolls; a negative length only moves the cursor |
| `Vga.Printed` | vga.c:181-186 | what a print leaves visible: text that reached cell 2000 is lost even if the screen scrolls |
| `Vga.AttributeNibbles` | vga.c:95 | the high nibble of a cell's attribute is the first colour, the low nibble the second |
| `Vga.PrintedColours` | vga.c:181-186 | in which two colours every cell of the screen is after a print and its scrolls |
| `Kmemory.OrderedIffBelowLimit` | kmemory.c:6-25 | over any history the ranges, and whatever is returned next, lie one behind the other if and only if the rounded-up requests stay below 2^32 |
| `Kmemory.Disjoint` | kmemory.c:22-24 | below the limit any two ranges are disjoint and increasing |
| `Kmemory.AsAsked` | kmemory.c:12-17 | ranges have the sizes asked for, aligned ones start at multiples of 4096 |
| `Kmemory.SpaceUsed` | kmemory.c:12-24 | the space used is at most the sizes and 4095 bytes per aligned call |
| `Kmemory.Heap.KmallocInt` | kmemory.c:6-25 | a call returns the next range of the history, and *phys equals the result |
| `Kmemory.Heap.KmallocA` | kmemory.c:27-30 | kmalloc_a asks for an aligned range |
| `Kmemory.Heap.KmallocP` | kmemory.c:32-35 | kmalloc_p asks for an unaligned one and its address |
| `Kmemory.Heap.KmallocAp` | kmemory.c:37-40 | kmalloc_ap asks for both |
| `Kmemory.Heap.Kmalloc` | kmemory.c:42-45 | kmalloc asks for neither |

## Left out

TFTP:

- FillKeeps: the server is honest and serves one file per world; a server that rolls block numbers over, or the same client reading several files, is not modelled.
- TwoPartyLockStep: the server never reuses a transfer identifier of its own; the client's port numbers do come round.
- OptionsRead: a tsize of 2^31 or more, which getdec would wrap, is not announced by the modelled server.
- OpenAndRead: that every conversation without losses succeeds is proved for these scripts, in which each packet arrives once and in turn; how often real networks behave so is not modelled.
- AskAgain: the time waited (rfc2131_sleep_interval) is not modelled, a timeout may come at any wait; the resending of acknowledgements under CONGESTED, which is not the default build, is not modelled.
- The queue drain before a request, ARP, and the effect of an incoming ARP request on nic.packet during udp_transmit.
- The file name, the bytes of the request and the length variables len and saved_len; error message texts.

getopt:

- Usable: an optstring with W; and no table of long options, through which the code would walk a null pointer (getopt.c:842), is excluded.
- GetoptInternal: arguments changed by the caller between calls, optind set to anything but 0, and calls after -1 are not modelled; `PullBack` covers the clamps themselves.
- ParseAll: an optstring with a leading - or + is covered by `GetoptInternal` call by call, not over whole runs, because the later calls see the character that the first one strips.
- Parse: the same.
- ParseTwice: the same.
- ReparseAgrees: optopt is not compared.
- Error messages, the flag pointer's store, the _LIBC code, and characters above 127 (signed char).

Receive rings:

- RtlPoll: the interrupt status register, and an overflow of the chip's buffer, are not modelled: a packet is stored only if it fits.
- Poll: the overrun recovery (eth_rx_overrun), and the WD and 3C503 register switching around the copy, are not modelled.

Printing:

- Vsprintf: a format that ends inside a directive, arguments that do not match it, and the minimum int under %d, whose negation overflows, are excluded.
- GetDec: a number of more than 31 bits wraps as on the machine; in C it is undefined.

Device map:

- InitDeviceMap: GNU/Linux names only; at most 128 floppies, and hard disks within the map, because beyond that the code writes past the map's 256 entries or over those of the hard disks (`InsideIffPlaced`); reading and writing files, check_device and the devfs links are parameters.
- ReadDeviceMap: strtoul has a long of 32 bits; warnings and error texts are not modelled.

Screen, PROM, allocator:

- FbOffsetCursor: the sum of cursor and offset must fit a short; the writes to the cursor registers are not modelled.
- FbPrintLstr: text must stay within the 32 KiB of text memory, behind which the code writes on.
- Search: enabling the address counter (depca.c:673-679) and the checksum behind the signature are not modelled.
- KmallocInt: the masks on placement_address are written as remainders of 4096.

Everything else in the repository: port I/O and card set-up in the drivers, GRUB's stages and file
systems, string conversions (string.c, whose digit loop is that of misc.c), descriptor tables,
paging, serial, timer and keyboard code.
