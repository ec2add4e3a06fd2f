# Pixiecore in Dafny

Pixiecore boots machines over the network. It offers itself to PXE clients (ProxyDHCP), answers the
one that picked its menu entry (PXE), serves that client a boot loader over TFTP, and then a
configuration page and the files it names over HTTP. This project models those five protocols at the
level of the bytes on the wire and proves what they promise.

What a packet or a page means is stated twice where both sides of the code could be wrong together:
once as a function that the code is proved to compute, and once in literal bytes, positions and numbers
(the lemmas whose names end in `Exactly`, `Bytes`, `Read` or `Lines`).

Bytes are integers from 0 to 255, packets and Go strings are sequences of them, and a Go `int` has 64
bits. A rejected packet is `None`; the wording of errors is not modelled.

## The TFTP server

- `TftpRequest` parses read requests and states the grammar that the parser decides.
- `TftpSender` is the sending side as a machine driven by what its socket reports: a timeout, a
  fault, or a packet. Time is abstract: a `Timeout` event is the read deadline of the current try, and
  packets read before it do not put it off.
- `TftpTransfer` is the code: nested retry loops, a reader with an offset over an array that other
  readers share, one reused packet buffer, and a 16-bit counter. It is proved to write exactly what the
  machine writes.
- `TftpOutput` is about every run of the machine: the shape of the output, what it adds up to, how
  much of it there can be, when a transfer ends and how.
- `TftpSystem` adds a client (`TftpClient`, after sections 2, 4, 5 and 6 of RFC 1350) and a network
  that may lose, duplicate, delay and reorder. Its main result is an equivalence: every run is safe
  exactly when the file is short enough for 16-bit block numbers, that is, at most 65535 blocks when
  the block size is acknowledged first, and less than 65536 full blocks when it is not. The lemma
  `UnsafeRun` builds a run that goes wrong for every longer file. `SafeIfRecent` covers files of any
  length in networks that do not keep a packet for 65536 blocks.
- `TftpServe` says what any number of interleaved transfers should come to, and `TftpSessions` has them
  as objects on one heap: each with its own reader, counter, packet buffer and socket, all reading one
  shared array, each making one step per event.

Three things in the code differ from what the standards or a caller might ask for, and are stated as
theorems:

- A file whose length is a multiple of the block size ends in an ERROR packet, not in the empty
  block of section 6 of RFC 1350 (`ExactMultipleEndsInError`, `SuccessReachableExactly`).
- A stream that ends in `io.ErrUnexpectedEOF` by itself, because it was cut short, is taken for one
  that has ended, and success is reported (`CutShortTakenForWhole`, `SuccessTrustworthyExactly`).
- Block numbers wrap around without any test, so success can be reported for a file the client does
  not have (`UnsafeRun`, `TransferSafeExactly`, `FalseSuccessExactly`).

## DHCP and PXE

`DhcpOptions` has the option walk and the format it inverts. `Dhcp` and `Pxe` have the two parsers,
which work on slices of a receive buffer, the two packet builders, whose length bytes are written by
hand, and the two receive loops, which reuse one buffer for all requests. `Bootp` is the fixed part of
the replies. As in the code, option type 0 is not a pad, the Ethernet test refuses only when type and
length are both wrong, and a PXE client's boot item may have any length, although only four bytes are
mirrored correctly (`ReplyMeantExactly`, `ChoicesExactly`).

## Boot references

`Booter` issues references to files, `Pxelinux` writes them into a configuration as base64url
(`Base64Url`) and reads that configuration the way a boot loader does, and `Http` resolves what comes
back. In static mode the handler overwrites the specification it is given; that the next request is
not affected rests on the copy made in `StaticBooter.BootSpecFor`. In API mode the references are
sealed URLs; the cipher is a pair of functions, and the results state which of its properties they use.

## Model

| member | source | states |
|---|---|---|
| `TftpRequest.NullStrExact` | tftp/tftp.go:248-254 | a string is found exactly if there is a NUL; it has none itself, and string, NUL and remainder make up the input |
| `TftpRequest.NullStrPrint` | tftp/tftp.go:248-254 | a NUL-free string printed with its NUL in front of anything is read back, with the rest untouched |
| `TftpRequest.LastBlockSizeExact` | tftp/tftp.go:229-241 | the block size of a request is the value of the last option that asks for one, or 1450 if that is less |
| `TftpRequest.ParseOptions` | tftp/tftp.go:215-242 | the option loop accepts exactly the areas that split into terminated pairs which are all acceptable, and yields the last block size asked for, clamped |
| `TftpRequest.ParseRRQ` | tftp/tftp.go:187-245 | the one-pass parser computes the meaning of every packet |
| `TftpRequest.ParsePrint` | tftp/tftp.go:187-245 | printing any NUL-free filename with any acceptable options and parsing it returns that filename and block size |
| `TftpRequest.ParseSound` | tftp/tftp.go:187-245 | whatever is accepted is the printed form of an acceptable request with that meaning |
| `TftpRequest.ParseExact` | tftp/tftp.go:187-245 | acceptance holds if and only if the packet is the printed form of an acceptable request |
| `TftpRequest.AcceptsExactly` | tftp/tftp.go:187-245 | the same byte by byte: the opcode 1, a filename, "octet" and pairs of a name and a numeral are accepted and nothing else, a "blksize" only from 8 to 65464 |
| `TftpPackets.ChunksCount` | tftp/tftp.go:112-131 | how many blocks a file is sent in |
| `TftpPackets.ChunksSizes` | tftp/tftp.go:112-131 | no block is too long, only the last can be short, exactly when the stream ends inside a block or is cut short, and it is empty exactly when the stream is cut short between two blocks |
| `TftpPackets.ChunksJoined` | tftp/tftp.go:112-131 | the blocks add up to what the stream delivers, or to a prefix of it if the stream fails |
| `TftpPackets.ClassifyExactly` | tftp/tftp.go:159-170 | a client's packet ends the transfer if and only if it has four bytes and opcode 5, and acknowledges a number if and only if it has four bytes, opcode 4 and that number |
| `TftpPackets.PacketBytes` | tftp/tftp.go:98-184 | the DATA, ERROR and OACK packets, byte by byte |
| `TftpPackets.OackTellsBlockSize` | tftp/tftp.go:97-100 | a client that parses the option acknowledgement reads the block size that was put in |
| `TftpSender.AckedExactly` | tftp/tftp.go:143-175 | a packet is acknowledged if and only if a matching ACK is preceded by fewer than five timeouts and nothing fatal |
| `TftpSender.AwaitUses` | tftp/tftp.go:150-171 | waiting for an acknowledgement uses up a front part of the events and leaves the rest |
| `TftpSender.OnlyTimeoutsResend` | tftp/tftp.go:145-174 | a packet is written again once per timeout and for no other reason, and is given up only after five writes |
| `TftpSender.RunAwait` | tftp/tftp.go:114-132 | a run is one packet's wait after another |
| `TftpSender.NextStep` | tftp/tftp.go:143-175 | what the next event does to every run, in terms of the bytes received: an ERROR or a fault ends it at once and writes nothing, the fifth timeout ends it, earlier ones repeat the packet, only the matching ACK leads on, and nothing happens after the end |
| `TftpTransfer.Conn.Read` | tftp/tftp.go:149-156 | a read takes the next event and cuts a datagram to the buffer |
| `TftpTransfer.AwaitOnce` | tftp/tftp.go:146-171 | the inner read loop settles the packet or reaches the deadline exactly as the machine does |
| `TftpTransfer.SendPacket` | tftp/tftp.go:143-175 | verdict, events left and packets written are those of the machine's exchange |
| `TftpTransfer.MkError` | tftp/tftp.go:178-184 | the filled slice is the ERROR packet with that message: opcode 5, code 0, message, NUL |
| `TftpTransfer.Reader.ReadFull` | tftp/tftp.go:116-117 | how much is read into the buffer, what stays, and which of the four endings is reported, for streams that end, fail, or end in io.ErrUnexpectedEOF themselves |
| `TftpTransfer.Blob` | tftp/tftp.go:136-140 | every transfer gets a stream of its own over the shared bytes |
| `TftpTransfer.FillBlock` | tftp/tftp.go:115-122 | the part of the reused buffer that is sent is the DATA packet of the bytes just read, nothing stale |
| `TftpTransfer.SendOack` | tftp/tftp.go:98-108 | the option acknowledgement phase is the machine's |
| `TftpTransfer.SendBlock` | tftp/tftp.go:122-126 | sending one block leads on exactly if it is acknowledged |
| `TftpTransfer.DataLoop` | tftp/tftp.go:111-132 | the data loop ends, writing and reporting what the machine does |
| `TftpTransfer.Transfer` | tftp/tftp.go:77-133 | a whole transaction writes and reports what the machine does, and leaves the shared bytes alone |
| `TftpOutput.JobMeaning` | tftp/tftp.go:93-131 | the blocks of a request are those of the stream; the last is short exactly when the stream ends inside a block or is cut short |
| `TftpOutput.RunShape` | tftp/tftp.go:93-132 | every run writes consecutive blocks in order, each one to five times, then an error exactly if the reader gave out |
| `TftpOutput.WritesBounded` | tftp/tftp.go:22-175 | no run writes more than five packets per block, plus five option acknowledgements and one error |
| `TftpOutput.DataFits` | tftp/tftp.go:112-122 | every DATA packet of every run carries at most a block, is empty only if a block is, and is not full only if it is the last block's |
| `TftpOutput.BlockSizeAgreement` | tftp/tftp.go:93-132 | for every accepted request the data loop's size is the last one asked for or 1450 if that is less (512 if none is asked for), is what the client reads in the acknowledgement, and bounds every DATA packet by 1454 bytes; in a successful run exactly the last packet is not full |
| `TftpOutput.WithoutBlksize` | tftp/tftp.go:93-132 | for every request without a blksize option: no OACK, every DATA packet but the last block's has 516 bytes, and after a successful run a client that takes blocks of 512 bytes holds everything the stream delivered |
| `TftpOutput.OnTheWire` | tftp/tftp.go:98-122 | every packet of every run is, byte by byte, the OACK of the block size, a block under its 16-bit number, or the reader's error |
| `TftpOutput.SuccessEndsShort` | tftp/tftp.go:127-131 | the last packet a successful run writes is the short last block |
| `TftpOutput.OutputIsPrefix` | tftp/tftp.go:111-132 | received in order, the output of every run is the file up to the block the run is at, however often packets repeat or numbers wrap |
| `TftpOutput.SuccessMeansWholeFile` | tftp/tftp.go:116-131 | when success is reported the output is everything the stream delivered, and the stream ended inside a block or was cut short |
| `TftpOutput.RoundMeans` | tftp/tftp.go:145-171 | a round of events ends with the first matching ACK, in time |
| `TftpOutput.AllAcknowledged` | tftp/tftp.go:93-132 | if every packet is acknowledged in time the transfer ends, with exactly these writes: successfully if the last block is short, with an error after the last byte if not |
| `TftpOutput.SuccessReachableExactly` | tftp/tftp.go:116-131 | success is possible if and only if the stream ends inside a block or is cut short |
| `TftpOutput.CutShortTakenForWhole` | tftp/tftp.go:117 | every stream that is cut short has a run that reports success and leaves the client with the shortened file taken for complete |
| `TftpOutput.SuccessTrustworthyExactly` | tftp/tftp.go:117 | success always means that the stream reached its end if and only if the stream is not cut short |
| `TftpOutput.ExactMultipleEndsInError` | tftp/tftp.go:116-121 | for a multiple of the block size no run lets a client see the end of the file; after the last byte it gets an ERROR packet |
| `TftpOutput.TransferEnds` | tftp/tftp.go:145-174 | whatever the client does, no transfer outlives five timeouts per packet |
| `TftpOutput.BrokenOffExactly` | tftp/tftp.go:145-174 | a transfer ends as aborted, faulted or timed out if and only if the client's ERROR, a fault or the fifth timeout of its packet came while it was going on, and it writes nothing after that |
| `TftpOutput.ReadErrorTold` | tftp/tftp.go:116-121 | when the reader gives out, the last packet is an ERROR with the stream's own message, or "EOF" where it ended between two blocks |
| `TftpSystem.StepKeepsInv` | tftp/tftp.go:100-171 | every step keeps the invariant unless it delivers an old packet that cannot be told from the awaited one |
| `TftpSystem.SafeIfRecent` | tftp/tftp.go:100-171 | for files of any length, a run that delivers no packet 65536 or more blocks late is safe |
| `TftpSystem.UnsafeRun` | tftp/tftp.go:111-126 | for every file that is too long there is a run in which sender and client come apart |
| `TftpSystem.SafeExactly` | tftp/tftp.go:100-171 | all runs are safe if and only if block numbers are unambiguous |
| `TftpSystem.PlayIsRun` | tftp/tftp.go:77-133 | the sender's part of every play is a run of the machine on what its socket reported, and what is in flight is what that run wrote |
| `TftpSystem.FalseSuccessRun` | tftp/tftp.go:164-166 | if block numbers are ambiguous and the last block is short, there is a run that reports success while the client still waits for the last block |
| `TftpSystem.FalseSuccessExactly` | tftp/tftp.go:111-166 | success can be reported without the client having the last block if and only if the last block is short and block numbers are ambiguous |
| `TftpSystem.SuccessTrustedExactly` | tftp/tftp.go:77-133 | for every file and request, no run reports success without the client having the last block if and only if the file has at most 65535 blocks' worth of bytes (with option acknowledgement) or fewer than 65536 (without), or its length is a multiple of the block size |
| `TftpSystem.SuccessLosesBytes` | tftp/tftp.go:111-166 | for every longer file that ends inside a block there is a run that reports success while the client has only a proper prefix |
| `TftpSystem.SafeMeansPrefix` | tftp/tftp.go:100-171 | safety means the client's bytes are a prefix of the file, and all of it once success is reported |
| `TftpSystem.TransferSafeExactly` | tftp/tftp.go:77-133 | for every file and request, all runs are safe if and only if the file has at most 65535 blocks' worth of bytes (with option acknowledgement) or fewer than 65536 (without) |
| `TftpServe.TransfersIndependent` | tftp/tftp.go:44-62 | the specification of the interleaved server: one transfer per accepted request, each what it would be alone, all other datagrams refused |
| `TftpServe.OneEach` | tftp/tftp.go:46-61 | there is one transfer for each datagram whose first 512 bytes are an acceptable request, in their order, and one refusal for each other datagram, in theirs |
| `TftpServe.OwnEvents` | tftp/tftp.go:61 | the events of a transfer are all that its own socket reported after its request came in, in order |
| `TftpServe.EverySuccessIsTheBlob` | tftp/tftp.go:136-140 | every transfer that reports success has written the whole blob, whatever the others did |
| `TftpSessions.Session.constructor` | tftp/tftp.go:93-122 | a new transfer, with a buffer and socket of its own, has sent what the machine begins with |
| `TftpSessions.Session.SendNext` | tftp/tftp.go:114-131 | the next block is read into the session's own buffer and sent, or the read error is |
| `TftpSessions.Session.OnEvent` | tftp/tftp.go:145-171 | one step of a transfer changes only its own objects, and sends and becomes what the machine does, repeating the packet from its buffer on a timeout |
| `TftpSessions.Server.OnDatagram` | tftp/tftp.go:47-61 | a request parsed in the shared receive buffer is refused or gets a transfer made of new objects |
| `TftpSessions.Server.OnSocket` | tftp/tftp.go:61 | an event changes the objects of the transfer it belongs to and nothing else, and all transfers stay what the specification says |
| `TftpSessions.ServeBlob` | tftp/tftp.go:44-62 | after any interleaved inputs every transfer, on one heap over one shared array, has sent and is in the state its own request and events alone lead to, and the array is unchanged |
| `DhcpOptions.DecodeEncode` | dhcp/dhcp.go:181-190 | walking inverts encoding for every list of options, whatever follows the end |
| `DhcpOptions.DecodeSound` | dhcp/dhcp.go:181-190 | every byte string is the encoding of the options the walk meets, up to where it stops |
| `DhcpOptions.DecodeExactly` | dhcp/dhcp.go:181-190 | the walk meets a list of options if and only if the bytes start with its encoding and then stop |
| `DhcpOptions.HoldsExactly` | dhcp/dhcp.go:181-190 | the same with the end mark 255 and the two other reasons to stop written out |
| `DhcpOptions.WalkSlice` | dhcp/dhcp.go:181-190 | the step on slices of the buffer is the step on the bytes they denote, and makes progress |
| `Dhcp.CheckHeader` | dhcp/dhcp.go:136-145 | the header tests as coded |
| `Dhcp.CheckOption` | dhcp/dhcp.go:149-168 | which values of options 53, 93 and 97 pass |
| `Dhcp.ParseOptions` | dhcp/dhcp.go:147-175 | the early-return loop accepts exactly if all options pass and there is a UUID, and yields the last one |
| `Dhcp.ParseDHCP` | dhcp/dhcp.go:126-179 | acceptance equals the declarative check, and the slices returned denote transaction, hardware address and UUID |
| `Dhcp.AcceptsExactly` | dhcp/dhcp.go:126-179 | which packets are taken for requests, by byte positions, option numbers and values |
| `Dhcp.GuidIsLast` | dhcp/dhcp.go:164-168 | the UUID counted is that of the option 97 with no other after it |
| `Dhcp.OrderIrrelevant` | dhcp/dhcp.go:147-175 | reordering the encoded options does not change acceptance |
| `Dhcp.MenuEncoded` | dhcp/dhcp.go:103-116 | the hand-counted vendor options are the encoding of the four that are meant |
| `Dhcp.OfferEncoded` | dhcp/dhcp.go:90-118 | the hand-counted options are the encoding of the five that are meant |
| `Dhcp.OfferDecodes` | dhcp/dhcp.go:75-124 | every offer has the client's header fields and decodes to exactly five options, its vendor option to exactly four |
| `Dhcp.OfferRead` | dhcp/dhcp.go:75-124 | what a PXE client reads in every offer, number by number: a DHCPOFFER from the server, its own UUID, and a menu entry of the same type as the one boot server listed, at the offer's address; the fixed part is blank but for transaction and hardware address |
| `Dhcp.FillHeader` | dhcp/dhcp.go:79-86 | the array after both copies is the header with only the client's fields filled in |
| `Dhcp.OfferDHCP` | dhcp/dhcp.go:75-124 | the builder, reading slices of the receive buffer, produces the offer the format defines |
| `Dhcp.InterfaceIP` | dhcp/dhcp.go:206-227 | the nested search picks the first address of the first kind |
| `Dhcp.PickIPBest` | dhcp/dhcp.go:203-227 | the address picked is least by preference and then by position, and none is picked only if none is usable |
| `Dhcp.AnswerMirrorsRequest` | dhcp/dhcp.go:48-68 | every offer sent has the transaction, hardware address and UUID of its request, goes to a machine the booter said yes to, and names the address picked |
| `Dhcp.OfferedExactly` | dhcp/dhcp.go:39-68 | an offer is made if and only if the read succeeded, the first 1024 bytes are an acceptable request, the booter wants the hardware address in bytes 28 to 34, and some address passes some test |
| `Dhcp.HandleDatagram` | dhcp/dhcp.go:39-71 | whatever the buffer held before, the reply is a function of the datagram |
| `Dhcp.ServeProxyDHCP` | dhcp/dhcp.go:37-72 | over any sequence of datagrams, with a booter that may change its mind between them: one offer for each datagram that should get one and no other, in order, each mirroring its own datagram and for a machine that datagram's booter wanted |
| `Pxe.FindItem` | pxe/pxe.go:142-149 | the inner loop finds the first boot item of a vendor option |
| `Pxe.TakeOption` | pxe/pxe.go:140-155 | what one option changes, and which one makes the packet malformed |
| `Pxe.ParseOptions` | pxe/pxe.go:138-164 | the nested loops end, with the last UUID and the first boot item of the last vendor option that has one |
| `Pxe.ParsePXE` | pxe/pxe.go:118-168 | acceptance equals the declarative check, and the slices returned denote what is meant |
| `Pxe.AcceptsExactly` | pxe/pxe.go:118-168 | which packets are taken for requests, by byte positions, option numbers and values |
| `Pxe.MeaningExactly` | pxe/pxe.go:118-168 | what an accepted request means: the fields at their byte positions, the last UUID, and the first boot item of the last vendor option that has one |
| `Pxe.ReplyMeantExactly` | pxe/pxe.go:89-113 | a reply carries the options that are meant if and only if the boot item has four bytes and the prefix at most 255 |
| `Pxe.ReplyIdentifies` | pxe/pxe.go:89-99 | whatever the boot item and the prefix, the reply decodes to its type, server, class and UUID first |
| `Pxe.ChoicesExactly` | pxe/pxe.go:141-149 | the boot items that accepted requests can name are exactly those of at most 253 bytes |
| `Pxe.ParseReply` | pxe/pxe.go:68-168 | parsing a reply recovers transaction, hardware address, UUID and boot item |
| `Pxe.FillHeader` | pxe/pxe.go:72-85 | the array after five copies has the client's address as "your address" and the server's after it |
| `Pxe.ReplyPXE` | pxe/pxe.go:68-116 | the builder, reading slices of the receive buffer, produces these bytes, for boot items and prefixes of any length |
| `Pxe.PrefixFits` | pxe/pxe.go:55 | the prefix the server builds has at most 44 bytes, so its length byte is never cut |
| `Pxe.PrefixLeads` | pxe/pxe.go:55 | the prefix is "http://", four numbers that read back to the address, a colon, a number that reads back to the port, and a slash |
| `Pxe.AnsweredExactly` | pxe/pxe.go:38-58 | a reply is sent if and only if the read succeeded, the first 1024 bytes are an acceptable request, and some address passes some test |
| `Pxe.AnswerMirrorsRequest` | pxe/pxe.go:44-64 | every reply has transaction, hardware address and UUID of its request, its client address moved, the server's address and file name, and nothing else in its fixed part; with a four-byte boot item it parses back, carries exactly the seven options meant, and option 210 leads to the HTTP port of the address picked |
| `Pxe.Respond` | pxe/pxe.go:44-61 | parse, look up, reply: as a function of the bytes received |
| `Pxe.HandleDatagram` | pxe/pxe.go:38-64 | whatever the buffer held before, the reply is a function of the datagram |
| `Pxe.ServePXE` | pxe/pxe.go:36-65 | over any sequence of datagrams: one reply for each that can be answered and no other, in order, each mirroring its own datagram |
| `Decimal.AtoiItoa` | api/api.go:203-231 | every 64-bit int survives being printed and read back |
| `Decimal.AtoiExactly` | api/api.go:231 | a text is read as a number if and only if it is that number's digits, with any zeros and a fitting sign in front |
| `Decimal.ItoaLength` | pxe/pxe.go:55 | no 64-bit int takes more than twenty characters |
| `Base64Url.EncodePlain` | http/http.go:79-82 | encoded references have no slash, comma, space or line break |
| `Base64Url.DecodeEncode` | http/http.go:79-98 | every byte string survives being encoded and decoded |
| `Base64Url.DecodeStringAccepts` | http/http.go:98-103 | a text is decoded if and only if, without its line breaks, it is whole groups of alphabet characters with at most two characters of padding at the end |
| `Base64Url.StripExactly` | http/http.go:98 | what is decoded is the text without line feeds and carriage returns, in order |
| `Base64Url.EncodeDigits` | http/http.go:79-82 | each group is a 24-bit number in base 64, filled up with zero bits and "=" at the end |
| `Base64Url.QuadNumber` | http/http.go:98 | each group is read as a 24-bit number, padding as zero, and left-over bits do not matter |
| `Text.SplitJoin` | http/http.go:90 | splitting on commas undoes joining with commas |
| `Text.BaseOf` | http/http.go:97 | the last element of a path is what follows its last slash |
| `Text.BaseExactly` | http/http.go:51-97 | the last element of every path, with the empty path, slashes only and slashes at the end |
| `Pxelinux.IdOfUrl` | http/http.go:79-98 | requesting a reference's URL gives the reference back |
| `Pxelinux.ConfigLines` | http/http.go:84-90 | the lines of a configuration are an empty one, those of the banner to be printed, for any banner, and then the four directives |
| `Pxelinux.PageLines` | http/http.go:79-90 | the page line by line, in literal text: the banner with "SAY " in front of each line, the label, the kernel's URL, the initrds' URLs and the command line |
| `Pxelinux.ReadConfigFor` | http/http.go:76-90 | a boot loader finds the kernel's URL, the initrds' URLs in order and the command line up to its first line break, whatever banner and command line say; without initrds it finds one empty name |
| `Booter.StaticBooter.constructor` | api/api.go:192-207 | the specification stored is "kernel" and the numbers from 0 on |
| `Booter.StaticBooter.BootSpecFor` | api/api.go:219-225 | every caller gets an equal specification whose object and list are new |
| `Booter.StaticBooter.File` | api/api.go:227-236 | "kernel" opens the kernel, every numeral of `i` opens initrd `i`, and nothing else opens anything |
| `Booter.OpensExactly` | api/api.go:227-236 | nothing but the kernel and the initrds given at startup is ever opened, and by which references |
| `Booter.StaticResolves` | api/api.go:192-236 | every reference handed out opens the file it was handed out for |
| `Booter.SignURL` | api/api.go:157-174 | a reference is nonce and sealed URL, never shorter than the nonce |
| `Booter.SignInitrds` | api/api.go:132-138 | all URLs are signed in order, or none if randomness fails for one |
| `Booter.RemoteBootSpec` | api/api.go:119-141 | the specification has the kernel's and the initrds' references in order |
| `Booter.GetURLExactly` | api/api.go:176-189 | if the cipher opens what it sealed and nothing else, a reference leads to a URL if and only if some nonce gives that reference for it, so that it could have been issued |
| `Http.EncodeInPlace` | http/http.go:79-82 | every reference of the given object is overwritten with its URL |
| `Http.PxelinuxConfig` | http/http.go:48-94 | the page is that of the stored specification, and nothing that existed before is modified |
| `Http.ConfigRequestExactly` | http/http.go:48-94 | a request is refused exactly if its last path element is not "01-" and a MAC address; otherwise the page names a kernel exactly if the booter gave a specification, with its command line, and boots from disk if not |
| `Http.FileHandler` | http/http.go:96-108 | a request is refused exactly if its last path element is not base64url text, and opens the kernel or initrd `i` exactly if that text stands for it |
| `Http.FileRequestExactly` | http/http.go:96-108 | which file every possible request opens, if any, and that only files given at startup are served |
| `Http.RemoteConfig` | http/http.go:48-94 | the page in API mode, booting from disk if the API or the randomness fails; a page that names a kernel has the command line of the answer for the machine in the path |
| `Http.ServeStatic` | http/http.go:121-136 | over any sequence of requests each gets the response it would have got alone, and the booter stays as it was |
| `Http.RefsComeBack` | http/http.go:79-104 | reading a configuration and requesting what it names, below "/f/", gives back every reference in order and the command line; the number of initrds is right exactly if there is one, the command line whole exactly if it has no line break |
| `Http.StaticBoot` | http/http.go:79-104 | the configuration leads to exactly the kernel, the initrds in order and the command line the server was started with |
| `Http.RemoteBoot` | api/api.go:119-189 | the configuration leads to exactly the URLs, in order, and the command line the API server gave |

## Left out

- Sockets, dialing, clocks and goroutine scheduling: events, interleaved inputs and a given address list stand for them.
- The three kinds of address of `InterfaceIP`: the tests are a parameter, since they are the Go library's.
- The HTTP client and the JSON and URL checks of the API call: an accepted answer is a parameter.
- The cipher and the random number generator: parameters, with the hypotheses `Inverts` and `Authentic` where they are used.
- Opening local files and copying them to the response: the model says which path is opened.
- `net.ParseMAC` (a parameter), the loader module, startup flags, logging, and the wording of error messages; the limerick is a parameter, called the banner.
- How pxelinux treats directives other than LINUX and APPEND.
- Which handler the HTTP library gives a path to, beyond that the URLs in a page lie below "/f/".
- Booter.StaticResolves: asks for at most 2^63 - 1 initrds, the longest a Go slice can be.
- Http.StaticBoot: asks for at most 2^63 - 1 initrds, the longest a Go slice can be.
- Dhcp.OfferDHCP: says nothing for transactions, addresses or UUIDs of other lengths than the parser yields.
- Pxe.ReplyPXE: says nothing for transactions, addresses or UUIDs of other lengths than the parser yields.
- Booter.RemoteBootSpec: works on values, since the object it returns is new and nobody else holds it.
- TftpServe.TransfersIndependent: works on values; `TftpSessions.ServeBlob` proves it of objects on one heap.
