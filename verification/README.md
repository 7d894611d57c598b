# Verification of the fz_server media path

This project models the parts of fz_server, an RTSP server in C++, that turn two media files into
octets on a connection, and proves that a receiver gets them back. Three smaller cores with state
of their own (session tables, logger queue, port allocator) and the INI reader are modelled beside it.

Check everything with `dafny verify dfyconfig.toml`.

## What is modelled

**Video.** The file loop reads a window of 650000 octets, looks for the next start code behind the
one in front, sends the unit between them and moves the file position back to that code
(`AnnexB`, `H264Sender`). A unit of up to 1400 octets is one RTP payload; a longer one is cut into
FU-A fragments (`FuA`). `Reassembly` and `Video` are the receiver after RFC 6184 and the end-to-end
statements; `WholeFile` cuts up a file without any window, as the reference for the windowed loop.

**Audio.** The frame loop reads ADTS headers (`Adts`) and frames, skips CRCs by moving the frame
pointer, and sends each raw block behind an AU header (`AacStream`, `AacSender`).

**Packets.** `Rtp` has the header in host memory, its in-place byte swaps, the interleaved framing of
RFC 2326 section 10.12 and a receiver after RFC 3550 section 5.1; `Transmission` says what a list of
payloads becomes on the wire. The two transports of the server differ in one call, so each sender is
one method that holds for both: a `Wire` is a TCP stream or a list of UDP datagrams.

**Two threads, one connection.** `Interleaving` is a step system in which each step is one send, and
`Playback` joins both media files, both threads and the receiver.

**The rest.** `IniText` and `IniFile` (parser and printer), `SessionTables` and `RtspHandler` (session
and connection tables, request handling), `LogQueue` (producers, consumer, rotation), `PortPairs`
(RTP/RTCP ports).

Facts about the code that shape the statements:

- A fragmented unit goes out with one octet more than it has, because fragments start at octet 1 but
  are cut to the full size. That octet is always the 0x00 of the start code behind the unit.
- The scan runs up to four octets past what was read. Those octets are what earlier windows left in
  the buffer (and, for a full window, the memory behind it), so the last unit of a file is usually
  not sent but sometimes is. In a clean file of two or more units whose last leaves four octets of the
  window free, that is exactly when the last unit has a four-octet start code and, codes included, is
  as long as the unit before it or one octet longer. `LastUnitSent` is such a file.
- The frame pointer of the audio loop is never moved back, so files with many CRC frames run past
  the buffer (`CrcFramesOverrun`). The model stops there and says so; up to that point every block is right.
- The ADTS parser shifts before it masks, so copyrightIdentificationStart comes from the lowest bit of
  the fourth octet, which belongs to the frame length.
- The constructor of Session assigns its parameter instead of the state field, so a new session's
  state is whatever its memory held. It is an input of the model, not NONE.
- The reply goes out before the handler looks its session up without a null check, so a PLAY of an unknown
  session is answered with an error and then dereferences null.
- The logger queues an empty entry, header and all, when a message expands to nothing.
- IniFile::load returns false in every case.

Two words used below. A video file is clean if its NAL units are not empty, do not end in 0x00 and hold
no start code (H.264 section 7.4.1), and each fits the window together with the start code behind it. A unit
is carried if RFC 6184 lets these packets carry it: types 1 to 23 in a single packet, forbidden_zero_bit
0 in fragments, which mask that bit away.

Assumptions: a send transfers everything it is given or fails and transfers nothing; the random
device never repeats a session id; the host is little-endian; a stream is taken from the first media
packet on. A failed send can happen at any call; the socket of the model records, for proofs only, which
sends succeeded, and the sender contracts say exactly which sends are made.
Octets are integers from 0 to 255. The mask-and-shift expressions on octets are written as quotients
and remainders, which `SenderMasks`, `ParserMasks` and `EvenMask` show to be the same; 16-bit and
32-bit fields wrap around explicitly.

## Model

| member | source | states |
|---|---|---|
| Playback.AnyFilesEndToEnd | src/handler/rtsp/rtsp_handler.cpp:953-1092 | for every video file, every file of well-formed audio frames, any buffer contents and any interleaving of the two threads' sends: if what is cut off can be carried, a complete run hands the receiver of the one stream, up to trailing zeros, the units of the whole-file split as far as they fit the window (if all fit: all but perhaps the last, and nothing else) and the raw blocks of all frames the frame buffer has room for |
| Playback.FilesEndToEnd | src/handler/rtsp/rtsp_handler.cpp:953-1092 | the same for every clean video file of carried units, with exactly the units that are sent |
| Playback.EveryMoment | src/handler/rtsp/rtsp_handler.cpp:953-961 | in every state of every run, whichever sends fail, the receiver has a prefix of the video units, whole and in order, and exactly the audio blocks whose sends succeeded |
| Playback.CompleteRun | src/handler/rtsp/rtsp_handler.cpp:953-961 | a run without failures delivers every cut-off unit and every block |
| Interleaving.Separation | src/handler/rtsp/rtsp_handler.cpp:953-961 | on one shared stream, channel 0 and channel 2 each carry exactly their own thread's payloads, in order, in every state of every run |
| Interleaving.StepInv | src/container/h264/h264.h:108-134 | one send, complete or failed, by either thread keeps wire, headers and plans consistent |
| Interleaving.CompletionExists | src/handler/rtsp/rtsp_handler.cpp:953-961 | from every state without a failed send some run completes |
| Interleaving.Solo | src/handler/rtsp/rtsp_handler.cpp:953-961 | a run of one thread alone puts on the wire what the sender loops are proved to put there |
| WholeFile.WindowedIsWhole | src/container/h264/h264.h:32-78 | on every file: nothing without a leading start code; the units of the whole-file split as far as they fit the window with the code behind them; if all fit, all but the last, and of the last nothing or all but at most three zeros at its end |
| WholeFile.WindowedPrefix | src/handler/rtsp/rtsp_handler.cpp:1044-1067 | the first k units are cut off whenever each fits with the next code, whatever comes later |
| WholeFile.UnitsAssemble | src/container/h264/h264.h:12-30 | the units of the whole-file split with their start codes are the file |
| Video.VideoOfAnyFile | src/handler/rtsp/rtsp_handler.cpp:1044-1074 | alone on a connection, from all that is sent for any file, the receiver recovers, up to trailing zeros, the units of the whole-file split as far as they fit; if all fit, at least every unit that a start code follows |
| Video.CutIsCarried | src/container/h264/h264.h:151-228 | what is cut off can be carried if all units of the file can and the type of the last one fits a single packet |
| Video.VideoEndToEnd | src/handler/rtsp/rtsp_handler.cpp:1020-1092 | alone on a connection, a clean file of carried units arrives unit by unit, with the last one exactly when it is sent |
| Video.CutShortReassembles | src/container/h264/h264.h:237-336 | cut a file's packets anywhere: the receiver has a prefix of its units |
| Video.VideoPacket | src/container/h264/h264.h:237-336 | a receiver parses packet i of unit j with payload type 96, the number of packets before it as sequence number, and 3000 ticks for each timed unit before it, both with wrap-around |
| Video.FileTicks | src/container/h264/h264.h:160-165 | the ticks of a file are 3000 for each unit that is over 1400 octets or whose first octet mod 32 is not 6, 7 or 8, and for no other |
| Video.HeaderAfterFile | src/container/h264/h264.h:206-230 | the header after a file: 3000 times the timed units mod 2^32, one packet a unit or one for every 1400 octets begun mod 65536, all other fields as they were set up |
| AnnexB.ExtractMeaning | src/container/h264/h264.h:32-78 | for any contents of the buffer, the scan ends at the least position behind the front code where 0 0 1 or 0 0 0 1 begins, in its range, or fails |
| AnnexB.ExtractFirst | src/container/h264/h264.h:32-78 | the first unit of a window ends where the next code begins, for three- and four-octet codes alike |
| AnnexB.Conservation | src/handler/rtsp/rtsp_handler.cpp:1044-1067 | for every file and buffer, start codes, cut-off units and what is left concatenate to the file |
| AnnexB.SplitAssembled | src/handler/rtsp/rtsp_handler.cpp:1044-1067 | every unit but the last is cut off as it was assembled |
| AnnexB.SplitClean | src/container/h264/h264.h:54-76 | exactly which units of a clean file are cut off: the last one if and only if its code has four octets and the buffer in reach of the scan passes for a start code behind it |
| AnnexB.LastIsSentBySize | src/container/h264/h264.h:54-71 | in a file of two or more units whose last leaves four octets of the window free, that is so if and only if the last unit has a four-octet code and is as long as the unit before it or one octet longer |
| AnnexB.SplitLast | src/container/h264/h264.h:54-71 | a clean unit alone in the window is cut off if and only if its code has four octets and the buffer holds a start code behind it |
| AnnexB.LastUnitSent | src/container/h264/h264.h:54-71 | a concrete file whose last unit is sent |
| H264Sender.ExtractContent | src/container/h264/h264.h:32-78 | returns the end of the first unit and moves the file position there, or fails and leaves it |
| H264Sender.SendH264 | src/handler/rtsp/rtsp_handler.cpp:1020-1092 | over either transport the packets of the file's plan are sent one by one, each once and nothing besides, until all are sent or a send fails; the wire is that of those that succeeded; the result is 0 exactly when no send failed and nothing was left over |
| Rtp.AnsweredMeaning | src/handler/rtsp/rtsp_handler.cpp:1068-1072 | so on a socket without failures the whole plan is sent, and a failure is the last send made |
| FuA.SendManager | src/container/h264/h264.h:136-336 | over either transport, the unit's packets are sent one by one up to the first failed send, the header is the one after them, and the result is -1 exactly on a failure, else the unit's size plus 12, 14, 16 or 18 octets a packet |
| FuA.FullFragmentOctet | src/container/h264/h264.h:183-195 | the three branches mark exactly the first fragment as start and exactly the last as end |
| FuA.SenderMasks | src/container/h264/h264.h:181-194 | for every octet the masks are the sums used here |
| FuA.UnitSize | src/container/h264/h264.h:237-336 | what the senders return is what a unit adds to the wire |
| FuA.FragmentPacket | src/container/h264/h264.h:276-331 | all fragments of a unit parse to the unit's timestamp and consecutive sequence numbers |
| Reassembly.FragmentDiscipline | src/container/h264/h264.h:170-226 | RFC 6184 section 5.8: at least two fragments, the first and only it starts, the last and only it ends, all carry the unit's NRI and type |
| Reassembly.UnitRoundTrip | src/container/h264/h264.h:151-228 | a unit, with its one extra octet when fragmented, comes back if and only if it is not empty and has a single-packet type or, over 1400 octets, forbidden_zero_bit 0 |
| Reassembly.ForbiddenBitLost | src/container/h264/h264.h:181 | a concrete unit of 1401 octets that arrives with its forbidden bit cleared |
| Rtp.DeframeExactly | src/handler/rtp/rtp.cpp:33-39 | interleaved framing is decodable if and only if every packet fits the 16-bit length |
| Rtp.FrameMeaning | src/container/h264/h264.h:114-120 | a frame is 0x24, the channel, the length high octet first, and the packet (section 10.12 of RFC 2326) |
| Rtp.ParsePacketInverse | src/handler/rtp/rtp.cpp:12-41 | parsing the wire octets gives the header fields held in host order and the payload |
| Rtp.SwapOrderTwice | src/handler/rtp/rtp.cpp:43-45 | swapping back after a send restores the header |
| Rtp.RtpPacket.SendOverTcp | src/handler/rtp/rtp.cpp:26-51 | one framed packet more on success, nothing on failure, header unchanged either way |
| Rtp.RtpPacket.SendOverUdp | src/handler/rtp/rtp.cpp:52-75 | one datagram more on success, nothing on failure, header unchanged either way |
| Transmission.PacketParses | src/container/h264/h264.h:206 | packet k parses to sequence number k further mod 65536, the timestamp of the ticks before it further mod 2^32, all other fields as they were set up, and payload k |
| Transmission.TcpIsFramedUdp | src/container/h264/h264.h:136-336 | deframing the TCP stream of a plan gives exactly its UDP datagrams, on the plan's channel |
| Transmission.PlanReceived | src/container/h264/h264.h:108-134 | a plan sent alone arrives payload for payload |
| Adts.ParseEncoded | src/container/aac/adts.h:36-58 | every field of a header laid out after ISO/IEC 13818-7 section 6.2 parses back, but copyrightIdentificationStart comes back as bit 11 of the frame length |
| Adts.ParseExactly | src/container/aac/adts.h:48 | the header comes back unchanged exactly when those two bits agree |
| Adts.StartBitLost | src/container/aac/adts.h:48 | every header with the bit set and a frame under 2048 octets loses the bit |
| Adts.RefusedExactly | src/container/aac/adts.h:36 | a header is refused if and only if its first twelve bits are not all ones |
| Adts.ParserMasks | src/container/aac/adts.h:38-56 | for every octet the masks and shifts are the quotients and remainders used here |
| AacStream.TurnOfFrame | src/handler/rtsp/rtsp_handler.cpp:980-1005 | a well-formed frame gives its raw block without header and CRC, or the overrun |
| AacStream.RunOfFrames | src/handler/rtsp/rtsp_handler.cpp:978-1011 | a file of well-formed frames gives exactly the raw blocks of the frames reached |
| AacStream.TurnMeaning | src/handler/rtsp/rtsp_handler.cpp:978-1011 | for any octets behind a syncword, frames cut short and lengths below seven included: the block is what lies between header or CRC and the end of the frame or the file, or the loop stops for want of data or room |
| AacStream.BadHeaderExactly | src/handler/rtsp/rtsp_handler.cpp:986-990 | the loop ends in a bad header with nothing sent if and only if the first twelve bits found are not all ones |
| AacStream.ReachMeaning | src/handler/rtsp/rtsp_handler.cpp:1001-1005 | a frame is reached if and only if it and all before it stay inside the buffer behind two octets per earlier CRC frame |
| AacStream.CrcFramesOverrun | src/handler/rtsp/rtsp_handler.cpp:1001-1005 | 25000 equal frames with CRC always end in an overrun |
| AacStream.AuRoundTrip | src/container/aac/adts.h:106-111 | the RFC 3640 decoder recovers a block if and only if its size fits 13 bits |
| AacSender.SendAacFrame | src/container/aac/adts.h:67-132 | one send: on success one packet, sequence number plus 1 mod 65536 and timestamp plus 1025 mod 2^32; on failure no change at all |
| AacSender.SendAac | src/handler/rtsp/rtsp_handler.cpp:962-1019 | over either transport every block of the run is sent once, in order, whatever became of those before; the wire holds those whose send the socket answered with success, under consecutive headers |
| AacSender.AudioPacket | src/container/aac/adts.h:97-132 | a receiver parses packet k with payload type 97, marker 1, sequence number k mod 65536 and timestamp 1025 k mod 2^32 |
| IniText.PrintThenParse | src/utility/ini_file/IniFile.cpp:194-208 | parsing what is printed gives the sections back if and only if they are normal |
| IniText.ParsePrintParse | src/utility/ini_file/IniFile.cpp:95-133 | for every text, parse after print after parse is parse |
| IniText.LoadNormal | src/utility/ini_file/IniFile.cpp:106-129 | loading any text keeps sections normal |
| IniText.LineMeaning | src/utility/ini_file/IniFile.cpp:106-129 | a text is parsed line by line, with or without a line end behind the last |
| IniText.EntryMeaning | src/utility/ini_file/IniFile.cpp:119-127 | a line with '=' sets the trimmed text in front of the first one to the trimmed text behind it |
| IniText.BareMeaning | src/utility/ini_file/IniFile.cpp:119-127 | a line without '=' sets its trimmed text to itself |
| IniText.HeaderMeaning | src/utility/ini_file/IniFile.cpp:112-118 | a line starting with '[' starts a section anew, named by the trimmed text up to the first ']' |
| IniText.OpenHeaderMeaning | src/utility/ini_file/IniFile.cpp:112-118 | without a ']' the name is all the trimmed text behind the '[' |
| IniText.TrimBlanks | src/utility/ini_file/IniFile.cpp:162-175 | trimming takes spaces and line ends off both ends of every text and nothing else |
| IniText.LoadOneEntry | src/utility/ini_file/IniFile.cpp:95-133 | a header and an entry below it load as that section with that entry, whatever the texts |
| IniText.ListingOrder | src/utility/ini_file/IniFile.cpp:194-208 | keys are listed by their characters: the first difference decides, and a proper prefix comes first |
| IniText.PrintOneEntry | src/utility/ini_file/IniFile.cpp:194-208 | the printed text of one section with one entry, character by character |
| IniFile.IniFile.LoadFile | src/utility/ini_file/IniFile.cpp:95-133 | the line loop adds the text to the sections already there; the result is false |
| IniFile.IniFile.Str | src/utility/ini_file/IniFile.cpp:194-208 | sections and keys in the order of std::map, one line each |
| IniFile.IniFile.Set | src/utility/ini_file/IniFile.cpp:140-143 | one entry changes; normal sections stay normal exactly for a normal name, key and value |
| IniFile.IntReadsBack | src/utility/ini_file/IniFile.cpp:42-78 | an int stored as a value reads back as itself |
| IniFile.IntMeaning | src/utility/ini_file/IniFile.cpp:42-78 | a value converts to the number behind white space and a sign, up to the first character that is no digit |
| SessionTables.RunOwnership | src/handler/rtsp/rtsp_handler.cpp:717-759 | after every run a connection's stored id is empty or names its own session with the video track, and no two connections share one |
| SessionTables.OutcomeOverRun | src/handler/rtsp/rtsp_handler.cpp:34-105 | reply, crash and streaming of every request after every run, read off the requests alone: which connection named which track last, which SETUP created which session, who played it |
| SessionTables.SessionOverRun | src/handler/rtsp/rtsp_handler.cpp:717-778 | a session belongs to the connection whose SETUP created it, is PLAYING if a later PLAY named it and else in the state its memory held, and has the audio track exactly if its connection set one up |
| SessionTables.ConnectionOverRun | src/handler/rtsp/rtsp_handler.cpp:266-274 | a connection is on the track its requests named last, the first if none did, and stores the id of the session it created last |
| SessionTables.FirstTrack | src/handler/rtsp/rtsp_handler.cpp:717-752 | on any tables, SETUP of the first track replies and creates a session with the video track under the new id |
| SessionTables.BothTracks | src/handler/rtsp/rtsp_handler.cpp:717-759 | SETUP of the first, later of the second track: whatever happens between, the second succeeds and the session has both tracks |
| SessionTables.HandleInv | src/session/sessionManager.h:24-37 | every request keeps the tables consistent |
| SessionTables.CrashExactly | src/handler/rtsp/rtsp_handler.cpp:65-68 | exactly which requests dereference a null session |
| SessionTables.SecondTrackFirst | src/handler/rtsp/rtsp_handler.cpp:743-756 | SETUP of the second track on empty tables is one |
| SessionTables.UnknownSession | src/handler/rtsp/rtsp_handler.cpp:65-68 | OPTIONS naming a session on empty tables is one |
| SessionTables.HexInjective | src/utility/generate_session.h:24-30 | different random strings give different ids |
| SessionTables.HexAt | src/utility/generate_session.h:24-30 | octet i is written as its two base-16 digits, the high one first, at characters 2i and 2i + 1 |
| RtspHandler.RtspHandler.HandleRequest | src/handler/rtsp/rtsp_handler.cpp:34-105 | the objects and tables after a request are those of the step function, and so is the outcome |
| RtspHandler.RtspHandler.BuildReply | src/handler/rtsp/rtsp_handler.cpp:760-800 | reply and effect are those of the step function; PLAY of an unknown session is an internal error and an unsupported method not implemented, and neither changes anything |
| RtspHandler.BytesToHex | src/utility/generate_session.h:24-30 | the loop computes the hexadecimal text |
| LogQueue.FifoAcrossFiles | src/utility/logger/Logger.cpp:141-170 | over every interleaving, the messages logged, each as header, content and line end, are what was written across all files, then what the consumer holds, then the queue |
| LogQueue.Drains | src/utility/logger/Logger.cpp:141-170 | from any state, the consumer let run with a working stream writes everything and then waits, or leaves if the logger was stopped |
| LogQueue.ExitWritesAll | src/utility/logger/Logger.cpp:143-169 | when the consumer has exited, every message logged is written if and only if none was queued since it exited |
| LogQueue.NoLateEntries | src/utility/logger/Logger.cpp:172-179 | if no message is queued behind a stop, the consumer exits with every message written |
| LogQueue.RotatesExactly | src/utility/logger/Logger.cpp:164-168 | a step closes the file exactly when an entry was just written, a limit is set and the length has reached it; the length starts over with the new file |
| LogQueue.ClosedFilesHoldEntries | src/utility/logger/Logger.cpp:164-168 | no stretch of writing is closed without an entry in it |
| LogQueue.RotatedMeaning | src/utility/logger/Logger.cpp:127-135 | the time stamp of a rotated file goes in front of the first ".log" |
| PortPairs.RunPairs | src/utility/portManager.h:17-40 | after every run live pairs are disjoint, even below odd, in range, exactly what is recorded, two ports a pair, and at most 5268 |
| PortPairs.GenerateFinds | src/utility/portManager.h:20-32 | a pair found is new and in range without wrap-around; the loop goes on exactly while a port is busy |
| PortPairs.FirstUnblocked | src/utility/portManager.h:20-32 | the first draw with neither port recorded or in use decides: its pair is handed out if both ports are free, and the call throws if there is no socket to probe with |
| PortPairs.LiveOverRun | src/utility/portManager.h:17-40 | live are exactly the pairs handed out and not released since |
| PortPairs.EvenMask | src/utility/portManager.h:22 | for every 16-bit number the mask is the subtraction used here |
| PortPairs.PortManager.GeneratePorts | src/utility/portManager.h:17-33 | the retry loop records the pair found and nothing else |

## Left out

- Rtp.Socket.Send: does not model a send that transfers only part of its octets; the server ignores the count.
- H264Sender.SendH264: the memory behind the 650000-octet buffer is modelled as four arbitrary octets that do not change; reading it is undefined in C++.
- WholeFile.WindowedIsWhole: from the first unit on that does not fit the window, what is cut off depends on the buffer and is not described.
- AacStream.RunOfFrames: what the program does after a read or write outside its buffers is undefined and not modelled.
- AacSender.SendAac: freeing the moved frame pointer after the loop is not modelled.
- FuA.SendManager: reads its unit from a copy of the window from the unit on, not through a pointer into the array; pauses between packets are not modelled.
- Adts.ParseAdtsHeader: yields a value instead of filling a struct in place; the syncword field, which the server clears and never sets, has no counterpart.
- IniFile.IniFile.LoadFile: file access is a parameter; values hold text only, so double and bool conversions are left out.
- IniFile.IntReadsBack: atoi is modelled on unbounded integers; the overflow of text no int can print is left out.
- SessionTables.Handle: track details such as ports and sockets, request text and reply text are left out; a parsed request is the input.
- LogQueue.Next: the logger is a transition system on values, because its threads interleave; time stamps, the level filter and message formatting are inputs; whether the consumer is ever woken is left out.
- PortPairs.Generate: draws and the system's answers are inputs, and the loop's termination is left out.
- SETUP over UDP (ports and sockets per track), PAUSE and TEARDOWN beyond their replies, and deleting sessions during a run, which no request does.
- Sockets, epoll, accept, clocks and threads themselves; the older copies under src/rtsp, src/handler/rtmp and the programs under tests.
