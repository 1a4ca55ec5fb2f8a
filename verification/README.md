# Campiello: a verified model of its protocol cores

This project models the parts of Campiello that parse, number, cut, encrypt and reassemble data, and
proves what those parts promise. The centre is the Google Cast mirroring sender: two media streams with
wrapping 8-, 16- and 32-bit counters, a retransmission window per stream, and a receiver that reports
losses over RTCP. Around it stand the independent parsers and codecs of the clients.

`dafny verify dfyconfig.toml` checks everything.

## How it is organised

Code that changes state step by step is written as methods with loops and classes with fields, each
shown to compute a specification function or to perform one step of a state machine. The properties are
then lemmas about those functions and machines.

| files | part of the program |
|---|---|
| `CastPackets`, `CastReassembly`, `CastCrypto` | packet format, splitter, reassembler, per-frame counter mode |
| `Rtcp`, `RetransmitCache`, `MirrorStream`, `MirrorModel`, `MirrorRuns`, `MirrorFeedback`, `MirrorSession` | the mirroring session: RTCP, caches, one stream over a run, the session as a state machine, its whole-run theorems, service rounds and the two feedback loops, the object itself |
| `JsonText`, `JsonValueScan`, `JsonObjectScan` | JSON text and the three depth scanners of the Shelly and Hue clients |
| `MjpegText`, `MjpegStream` | the incremental multipart reader and the whole-stream parser it agrees with |
| `HandleTable`, `SmbFiles`, `SmbBackend`, `SmbServerBackend` | two layers of file handles, short reads and writes |
| `Dmap`, `CastChannel`, `NfsExports` | DMAP trees, CASTv2 messages, XDR export lists |
| `PercentCode`, `SmbMount`, `DeviceLaunch` | percent-encoded mount and launch arguments |
| `WebDavBase64`, `VpxConvert` | Base64, BGRA to I420 |
| `Bytes`, `Arith`, `Options`, `Decimals`, `Folds` | shared helpers |

The mirroring session is a state machine over `SendFrame`, `SendAudio`, `StartAudio`, `Arrive` and `Stop`
events. `Arrive` hands it any byte string, so loss, duplication, reordering and forgery by the network are
all covered: the theorems hold for every event sequence. Its log records what is handed to the socket;
the class `MirrorSession.MirrorSession` is shown to take exactly the steps of that machine.

AES is an arbitrary function from key and counter block to sixteen bytes. The encoder is an arbitrary list
of frames per call. The SMB server may shorten any request, and refuse or fail any on a share that is not marked steady. The camera may deliver its stream in
reads of any size.

## Where code and documentation differ

The model follows the code.

- The nonce has the frame id in bytes 8..11 (`optional/cast/CastTransport.cpp:29`); the header comment says
  the first four (`optional/cast/CastTransport.h:35-36`).
- The octet count of a sender report includes the packet headers, unlike section 6.4.1 of RFC 3550.
- The mount parser accepts an empty share (`optional/smb/SmbMount.cpp:101-104`); the header comment asks for one
  (`optional/smb/SmbMount.h:32`).
- `DecodeCastMessage` promises false for malformed input (`optional/cast/CastChannel.h:46`) and breaks that in
  two ways. A fixed-width record cut short at the end is skipped without a bounds check
  (`optional/cast/CastChannel.cpp:113-116`) and the buffer accepted; a string length near 2^64 wraps past its
  bounds check and makes the string's allocation throw. `CastChannel.AcceptsExactly`,
  `CastChannel.ThrowsExactly` and `CastChannel.RefusesMalformedExactly` say exactly when.
- `DecodeCastMessage` compares field numbers in 32 bits, so that number 2^32 + 2 is taken for the source.

## Properties that hold only under a condition

Each is stated with its exact condition and, where it is not plain, a failing input.

- A frame survives packetizing and reassembly exactly when it needs at most 65536 packets
  (`CastReassembly.RoundTrip`, `CastReassembly.LongFrameIsLost`).
- The still-referenced guard of the cache fires exactly when the window reaches 256 frames
  (`RetransmitCache.GuardFires`, over every run `MirrorRuns.GuardOverRun`); at 60 and 120 it never does.
- Two bytes of frames of at most 2^36 bytes are encrypted with the same keystream byte under every cipher exactly
  for equal truncated frame ids and equal offsets (`CastCrypto.KeystreamBytesDiffer`). Longer frames, which the
  code's lengths of type int exclude, run into the next id's blocks (`CastCrypto.LongFramesReuse`,
  `CastCrypto.KeystreamCoincides`).
- `JsonArrayObjects` returns the element objects exactly when no object sits in a nested array
  (`JsonObjectScan.ArrayObjectsExactly`, `JsonObjectScan.ShellyListsNestedObject`); `SplitJsonDataObjects`
  returns them, place by place, exactly when the first nested array leads with no object and no object element
  follows it; off these arrays the texts can only coincide
  (`JsonObjectScan.DataObjectsExactly`, `JsonObjectScan.HueStopsAtNestedArray`).
- Mount parameters come back exactly when the environment fills in no empty field
  (`SmbMount.MountRoundTrip`, `SmbMount.EnvironmentFillsIn`); a launched device comes back exactly when no TXT
  key contains `=` (`DeviceLaunch.LaunchRoundTrip`, `DeviceLaunch.KeyWithEqualsIsCut`).
- The DMAP heuristic fails both ways: a leaf whose text reads as an element is searched
  (`Dmap.LeafMistakenForContainer`), and a container whose first child's code is not all lower-case is not
  (`Dmap.ContainerMissed`). `Dmap.SearchIsSeen` and `Dmap.TracksAreSeen` give the result on every forest. The
  search finds the first node with a code, in its place in the buffer, exactly when up to there no leaf that
  looks like a container holds the code and every container that holds it looks like one
  (`Dmap.SearchIsTreeSearch`); the listing has the tree's records in their places exactly when each node lists
  what it should (`Dmap.TracksAreTreeTracks`). Off these forests another element with equal content may still
  give an equal value.
- A malformed CASTv2 buffer is refused exactly when it neither ends in a fixed-width record cut short nor comes
  to a string whose length wraps (`CastChannel.RefusesMalformedExactly`, `CastChannel.CutFixedIsAccepted`,
  `CastChannel.WrappedLengthThrows`).
- An MJPEG part without a length yields its image exactly when no boundary text begins inside the image and the
  image does not end in CR or LF (`MjpegText.UnmeasuredPartIsExact`).
- An SMB read is exact when its length is below the numbers by which the client library reports failures
  (`SmbBackend.SmbBackend.Read`); from there on a failure may pass for data.
- The MJPEG size guard can fire exactly when the stream is longer than the limit and the marker is missing or
  ends within one read of the limit or later (`MjpegStream.GuardIsExact`).
- An export list is returned whole exactly when no directory name is empty (`NfsExports.NothingDropped`,
  `NfsExports.EmptyDirectoryIsDropped`).

## Model

| member | source | states |
|---|---|---|
| CastPackets.BuildRtpPacket | optional/cast/CastTransport.cpp:109-132 | the appended bytes are the RTP and Cast header layout followed by the payload |
| CastPackets.HeaderOctets | optional/cast/CastTransport.cpp:109-132 | the header octet by octet: version 2, payload type, sequence number, timestamp, SSRC, flags, ids and reference |
| CastPackets.AcceptedPackets | optional/cast/CastTransport.cpp:134-160 | a packet is accepted if and only if it has version 2 and all 18 octets of header, or 19 with the reference flag; what follows them is its payload |
| CastPackets.ParseInvertsBuild | optional/cast/CastTransport.cpp:109-160 | every header field and the whole payload are read back from a built packet |
| CastPackets.BuildInvertsParse | optional/cast/CastTransport.cpp:134-160 | rebuilding an accepted packet gives it back if and only if it has no padding, extension, CSRC, marker or extension-count bits |
| CastPackets.Packetize | optional/cast/CastTransport.cpp:162-192 | the loop yields the packets of the frame; the length subtraction never underflows |
| CastPackets.PacketsSplitTheFrame | optional/cast/CastTransport.cpp:162-192 | every packet fits the limit and parses to the frame's fields, and the payloads spell the frame |
| CastPackets.PacketCountIsMinimal | optional/cast/CastTransport.cpp:170-172 | no cut of the frame into payloads of the allowed size uses fewer packets |
| CastReassembly.Reassemble | optional/cast/CastTransport.cpp:194-221 | for any list of packets, delivers the newest payload of each id in order when framing agrees and ids 0..max are exactly present, and nothing otherwise |
| CastReassembly.RoundTrip | optional/cast/CastTransport.cpp:162-221 | for packets of one frame in any order with repeats: the frame comes back if and only if it needs at most 65536 packets and all are present (or it is empty); of at most 65536, a missing one means nothing is delivered |
| CastReassembly.ReassembledPart | optional/cast/CastTransport.cpp:209-220 | of a frame of at most 65536 packets, a missing one means nothing is delivered |
| CastReassembly.NewestCounts | optional/cast/CastTransport.cpp:194-221 | when all packets announce the same last id, none has a larger one and each id up to it is there, the frame is the payloads of the last packets received with each id, in the order of the ids |
| CastReassembly.LongFrameIsLost | optional/cast/CastTransport.cpp:173 | one octet more than 65536 full payloads does not come back although every packet arrives |
| CastCrypto.CastNonce | optional/cast/CastTransport.cpp:24-40 | in place: the mask with the big-endian frame id XORed into bytes 8..11, all other bytes the mask's |
| CastCrypto.CounterBlocksDisjoint | optional/cast/CastTransport.cpp:24-40 | within 2^32 blocks, two frames' counter blocks coincide if and only if frame id and index do, however the 128-bit addition wraps |
| CastCrypto.KeystreamNeverReused | optional/cast/CastTransport.cpp:72-77 | two bytes of two frames of a run, each frame of at most 2^36 bytes, share a position (counter block and octet) if and only if the frames are a multiple of 2^32 apart and the offsets agree |
| CastCrypto.KeystreamIs | optional/cast/CastTransport.cpp:24-77 | byte p of a frame is XORed with octet p mod 16 of the cipher's output on the number that the mask spells, with the frame id's octets XORed into its octets 8 to 11, plus p / 16, mod 2^128 |
| CastCrypto.KeystreamCoincides | optional/cast/CastTransport.cpp:24-77 | what Encrypt adds to two bytes of two frames of any length is the same under every cipher if and only if their octets in the block agree, and their block numbers mod 2^128 |
| CastCrypto.LongFramesReuse | optional/cast/CastTransport.cpp:24-77 | byte 2^36 of frame 0 and byte 0 of frame 1 share their keystream under a zero mask |
| CastCrypto.KeystreamBytesDiffer | optional/cast/CastTransport.cpp:72-77 | what Encrypt adds to two bytes of two frames is the same under every cipher if and only if the frames' truncated ids and the offsets agree, for frames of at most 2^36 bytes (the code's length is an int) |
| CastCrypto.DecryptInvertsEncrypt | optional/cast/CastTransport.cpp:72-82 | the same transform undoes itself on every frame; which transform it is, KeystreamIs says |
| Rtcp.WalkVisitsExactly | optional/cast/MirrorSession.cpp:318-381 | any concatenation of well-formed blocks with an incomplete tail is visited block by block, nothing more or less |
| Rtcp.WalkCovers | optional/cast/MirrorSession.cpp:322-327 | on every byte string the visited blocks are well-formed, spell a prefix, and no complete block is left over |
| Rtcp.BlockOctets | optional/cast/MirrorSession.cpp:322-353 | a block is four octets for each announced word and four more, and an XR block is told by type 207 |
| Rtcp.FeedbackReadsBack | optional/cast/MirrorSession.cpp:331-351 | a receiver's feedback packet is recognised and its SSRC, ack, loss count and NACK entries are read back exactly |
| Rtcp.FeedbackOctets | optional/cast/MirrorSession.cpp:328-351 | a feedback block is told by type 206 and the letters CAST; its SSRC and its entries, as many as are announced and there, are read from these octets |
| Rtcp.LastReferenceWins | optional/cast/MirrorSession.cpp:359-378 | the last sub-block of type 4 with twelve octets or more is the one kept, whatever stands around it |
| Rtcp.LastRrIsMiddle32 | optional/cast/MirrorSession.cpp:364-375 | the value kept is the middle 32 bits of the 64-bit NTP timestamp |
| Rtcp.CompoundReportSplits | optional/cast/CastTransport.cpp:297-330 | a sender report followed by an XR packet is walked as those two, and the XR as its one DLRR block |
| Rtcp.ReportsReadBack | optional/cast/CastTransport.cpp:297-330 | a receiver reads every field of the reports back |
| Rtcp.ReportOctets | optional/cast/CastTransport.cpp:297-330 | the fixed octets of both reports, their sizes, and the sender, receiver, reference and delay of the echo |
| RetransmitCache.RememberFrame | optional/cast/MirrorSession.cpp:159-171 | the insertion and the eviction loops compute the specified cache, for any window |
| RetransmitCache.RememberIsExact | optional/cast/MirrorSession.cpp:159-171 | for any window and any ids: the queue lists the last frames, the table's keys are the queue's ids, each with its newest packets |
| RetransmitCache.CacheHoldsTheWindow | optional/cast/MirrorSession.cpp:159-171 | with counting ids and a window of at most 256 the cache holds exactly the last frames of the window |
| RetransmitCache.GuardFires | optional/cast/MirrorSession.cpp:162-171 | inserting a counting frame into a full cache: the id then popped is still queued if and only if the window is 256 or more |
| RetransmitCache.ResendsExactly | optional/cast/MirrorSession.cpp:280-300 | one NACK entry is answered with exactly the cached packets it covers: whole frame, named packet, or mask bits |
| RetransmitCache.ResendsInOrder | optional/cast/MirrorSession.cpp:280-300 | the answer packet by packet: all in order for id 65535, else the named packet, then one for each mask bit set, lowest first |
| RetransmitCache.ResendAllExactly | optional/cast/MirrorSession.cpp:343-350 | a list of entries is answered with exactly the answers to its entries |
| MirrorStream.AdvanceKeeps | optional/cast/MirrorSession.cpp:145-174 | sending one frame keeps every counter equal to its unbounded count mod its width, and the cache exact |
| MirrorStream.SequenceNumbers | optional/cast/MirrorSession.cpp:150-158 | the k-th first transmission carries sequence number k mod 2^16 |
| MirrorStream.PacketFields | optional/cast/MirrorSession.cpp:145-158 | each packet of frame n parses to the stream's SSRC and payload type, id n mod 256, the frame's timestamp and key flag, the previous frame as reference, and the last packet id |
| MirrorStream.FrameCount | optional/cast/MirrorSession.cpp:150-151 | a frame is cut for packets of at most 1400 octets, 18 of them headers, or 19 with a reference |
| MirrorStream.ConstantStep | optional/cast/MirrorSession.cpp:172-173 | with a constant step, frame n starts at n steps |
| MirrorStream.WindowIsCached | optional/cast/MirrorSession.cpp:159-171 | a frame within the window is cached whole under its truncated id |
| MirrorStream.ResendsAreCopies | optional/cast/MirrorSession.cpp:280-300 | whatever is re-sent was transmitted before by the same stream |
| MirrorStream.WholeFrameDecrypts | optional/cast/CastTransport.cpp:194-221 | whoever has every packet of a frame of at most 65536, in any order with repeats, reassembles and decrypts it |
| MirrorStream.NackRecoversFrame | optional/cast/MirrorSession.cpp:280-351 | for a frame in the window, of at most 65536 packets, and any NACK list covering the packets not held: held and re-sent packets in any order reassemble and decrypt to the frame |
| MirrorModel.ServiceKeeps | optional/cast/MirrorSession.cpp:302-382 | reports and feedback of any content keep counters, caches and first transmissions exact |
| MirrorRuns.EveryRun | optional/cast/MirrorSession.cpp:129-248 | over every run: first transmissions are precisely the submitted frames' packets, every repeat copies an earlier first transmission of its stream, and the submitted frames are those of the events' own frame lists and sound, with their data and key flags, while the session ran |
| MirrorRuns.SwitchesOverRun | optional/cast/MirrorSession.cpp:125-207 | the session runs until the first stop, and has sound once that was started before it |
| MirrorRuns.SubmittedAre | optional/cast/MirrorSession.cpp:145-151 | the n-th frame the model sends is the n-th the events hand over: same data, same key flag, ticks of one step; for sound the opus data and its samples |
| MirrorRuns.FirstsAreFlat | optional/cast/MirrorSession.cpp:145-158 | over every run the first transmissions of a stream are the packets of its frames, frame after frame |
| MirrorRuns.VideoOverRun | optional/cast/MirrorSession.cpp:145-174 | over every run, told from the events alone: frame n fills packets of 1400 octets, each with SSRC 100000, payload type 127, id n mod 256, the frame's key flag, a reference to the frame before unless it is a key frame, and time n steps; any that contain them all give the frame's data back, when it needs at most 65536 |
| MirrorRuns.SoundOverRun | optional/cast/MirrorSession.cpp:215-244 | likewise for sound, with SSRC 100001, payload type 96, key flag and no reference, timed by the samples before |
| MirrorRuns.CachesOverRun | optional/cast/MirrorSession.cpp:159-241 | over every run the caches hold as many frames as were sent, up to 60 of video and 120 of sound |
| MirrorRuns.RunNumbering | optional/cast/MirrorSession.cpp:152-158 | over every run the k-th first transmission of a stream has sequence number k mod 2^16 and the stream's SSRC |
| MirrorRuns.RunTotals | optional/cast/MirrorSession.cpp:155-173 | over every run the packet and octet counters are the totals first transmitted mod 2^32, and the video timestamp is frames times step |
| MirrorRuns.RunTimestamps | optional/cast/MirrorSession.cpp:145-173 | over every run, packet i of video frame n stands behind the packets of the frames before it and carries timestamp n times step mod 2^32 and id n mod 256 |
| MirrorRuns.RunSoundTimestamps | optional/cast/MirrorSession.cpp:215-244 | over every run, packet i of audio frame n stands behind the packets of the frames before it and carries the sum of their samples mod 2^32 and id n mod 256, as a key frame |
| MirrorRuns.GuardOverRun | optional/cast/MirrorSession.cpp:162-171 | over every run the cache pops one id per frame once the window is full, and the guard fires if and only if the window is 256 or more |
| MirrorRuns.FeedbackAnswered | optional/cast/MirrorSession.cpp:331-351 | one feedback packet re-sends exactly what its entries name, from the audio cache if and only if the SSRC is audio's, and changes only ack and loss of video |
| MirrorRuns.ServiceOneFeedback | optional/cast/MirrorSession.cpp:302-382 | a service round with one feedback packet sends due reports, then the answer |
| MirrorFeedback.ServiceAnswers | optional/cast/MirrorSession.cpp:302-382 | a service round on any mailbox: due reports, then for every feedback block of every datagram read exactly what its entries name, from the cache its SSRC selects, and the last reference time heard |
| MirrorFeedback.RunRecoversFrame | optional/cast/MirrorSession.cpp:129-382 | end to end over every run and every continuation: if each packet of a frame that the receiver lacks is asked for in some round, video or audio, in any block of any datagram that round reads, while the frame is in its window, then what was sent meanwhile completes the frame (of at most 65536 packets), which reassembles and decrypts to the data the event handed over |
| MirrorFeedback.FeedbackRecoversFrame | optional/cast/MirrorSession.cpp:129-179 | the simplest case, down to the data the event handed over: one feedback packet, alone in the mailbox, serviced after the next video frames |
| MirrorFeedback.WholeFrameCovers | optional/cast/MirrorSession.cpp:291-295 | a single whole-frame entry covers whatever is missing of a frame |
| MirrorRuns.ReferenceIsEchoed | optional/cast/MirrorSession.cpp:259-278 | a due report right after an XR packet with a reference time splits into sender report and one DLRR block echoing receiver and the middle 32 bits of the timestamp |
| MirrorFeedback.ReferenceOverRun | optional/cast/MirrorSession.cpp:353-378 | over every run the reference kept is the last one heard in any round |
| MirrorFeedback.EchoOverRun | optional/cast/MirrorSession.cpp:259-313 | over every run the first datagram behind the media of an event with a report due is the sender report with the video totals, echoing the last reference heard in the run, or none if none was |
| MirrorFeedback.ReportTimes | optional/cast/MirrorSession.cpp:302-313 | over every run the time of the last report is that of the last sending event 200 ms or more behind the report before |
| MirrorFeedback.ReportsOverRun | optional/cast/MirrorSession.cpp:259-313 | over every run, what a sending event logs: its media, then the two reports with the streams' own SSRCs and totals if 200 ms have passed and none otherwise, then the answers to what the round reads |
| MirrorFeedback.ServiceReads | optional/cast/MirrorSession.cpp:315-319 | a round reads the mailbox up to an empty datagram or 64 datagrams, and leaves the rest |
| MirrorFeedback.ReferenceTimeIsHeard | optional/cast/MirrorSession.cpp:353-378 | a receiver's reference time packet is kept with its sender and the middle 32 bits of its time, and changes nothing else |
| MirrorSession.MirrorSession.SendOne | optional/cast/MirrorSession.cpp:145-174 | encrypt, packetize, send, count, cache and advance: exactly the video step of the machine, which MirrorRuns.VideoOverRun tells from the frame itself |
| MirrorSession.MirrorSession.SendFrame | optional/cast/MirrorSession.cpp:129-179 | exactly one SendFrame event with the encoder's frames, or nothing when not started or the encoder failed; the result says whether every media datagram of the event was accepted by the socket |
| MirrorSession.MirrorSession.StartSound | optional/cast/MirrorSession.cpp:195-202 | exactly one StartAudio event |
| MirrorSession.MirrorSession.SendAudio | optional/cast/MirrorSession.cpp:205-248 | exactly one SendAudio event; true without effect before audio is started, false when the encoder failed, else whether every media datagram was accepted |
| MirrorSession.MirrorSession.SendSenderReports | optional/cast/MirrorSession.cpp:259-313 | when due, the video report with its DLRR echo and, with sound, the audio report |
| MirrorSession.MirrorSession.Retransmit | optional/cast/MirrorSession.cpp:280-300 | sends exactly the specified answer to one entry, in order |
| MirrorSession.MirrorSession.AnswerNacks | optional/cast/MirrorSession.cpp:331-351 | one answer per entry that fits, capped by the loss count, with all reads inside the block |
| MirrorSession.MirrorSession.HearReference | optional/cast/MirrorSession.cpp:353-378 | keeps the last complete reference time of the block's sub-blocks |
| MirrorSession.MirrorSession.ProcessDatagram | optional/cast/MirrorSession.cpp:319-380 | handles exactly the blocks the walk visits, in order |
| MirrorSession.MirrorSession.ServiceRtcp | optional/cast/MirrorSession.cpp:302-382 | reports, then at most 64 datagrams drained: exactly the service step of the machine |
| JsonValueScan.JsonValueBlock | optional/shelly/ShellyClient.cpp:81-103 | the scan computes the extent of the block at the start position |
| JsonValueScan.ValueBlockIsExact | optional/shelly/ShellyClient.cpp:81-103 | for every JSON object or array inside any text the block is exactly the value's text |
| JsonValueScan.TruncatedValueIsRefused | optional/shelly/ShellyClient.cpp:88-103 | when the text, whatever precedes the value, ends before the value's last character, the value is not found |
| JsonValueScan.ScalarIsNoBlock | optional/shelly/ShellyClient.cpp:81-87 | where a number, a word or a string stands, or the text has ended, the result is empty |
| JsonText.JsonIsBalanced | optional/shelly/ShellyClient.cpp:86-102 | every JSON value has the bracket structure the scanners rely on |
| JsonText.ValueText | optional/shelly/ShellyClient.cpp:76-104 | the text of a value in the model is its word, its quoted characters, or what its braces or brackets hold |
| JsonText.MemberText | optional/shelly/ShellyClient.cpp:76-104 | the text of an object member in the model is the JSON grammar's, with white space on either side of name, colon and value |
| JsonText.ElementText | optional/shelly/ShellyClient.cpp:106-130 | likewise for an array element and its comma |
| JsonObjectScan.JsonArrayObjects | optional/shelly/ShellyClient.cpp:106-130 | the loop over indices computes the specified list of objects |
| JsonObjectScan.SplitJsonDataObjects | optional/hue/HueBridge.cpp:70-93 | the loop, stopping at a bracket outside every object, computes the specified list |
| JsonObjectScan.ShellyCollects | optional/shelly/ShellyClient.cpp:106-130 | on balanced text the scanner returns exactly the outermost objects, each whole |
| JsonObjectScan.HueCollects | optional/hue/HueBridge.cpp:70-93 | on balanced text it returns exactly the outermost objects before the first bracket that closes |
| JsonObjectScan.ArrayObjectsExactly | optional/shelly/ShellyClient.cpp:106-130 | on any JSON array it returns the element objects in order if and only if no object sits in a nested array |
| JsonObjectScan.ShellyListsNestedObject | optional/shelly/ShellyClient.cpp:119-127 | of `[[{}]]` the Shelly scanner returns the nested object |
| JsonObjectScan.StrayBraceShifts | optional/shelly/ShellyClient.cpp:119-127 | of the malformed text `}{{}}` both scanners return the inner object |
| JsonObjectScan.DataObjectsExactly | optional/hue/HueBridge.cpp:60-94 | on any JSON array it returns the objects before the first nested array closes, each standing at its place in the text; these are the element objects themselves, place by place, if and only if the first nested array leads with no object and no object element follows it |
| JsonObjectScan.CollectedStand | optional/hue/HueBridge.cpp:73-92 | on any text, every collected object stands at the place where the scanner opened it |
| JsonObjectScan.PlacesAgree | optional/hue/HueBridge.cpp:73-92 | the places listed are those of the element objects exactly on those arrays |
| JsonObjectScan.HueStopsAtNestedArray | optional/hue/HueBridge.cpp:90-91 | of `[[],{}]` the Hue scanner returns nothing |
| MjpegText.FirstIsStable | optional/esphome/MjpegStream.cpp:111-114 | a marker found in a prefix is found at the same place in the whole stream, and one that ends in the prefix is found there |
| MjpegText.IFind | optional/esphome/MjpegStream.cpp:45-58 | the nested loops find the first place where the needle is spelled in any letter case, and an empty needle nowhere |
| MjpegText.ParseContentLength | optional/esphome/MjpegStream.cpp:61-77 | the loops compute the length that LengthIsWritten and LengthIsStated tell from the text |
| MjpegText.LengthIsWritten | optional/esphome/MjpegStream.cpp:61-77 | what is measured is the number written behind the first Content-Length name, in any letter case, and its blanks, or -1 without a digit there |
| MjpegText.LengthIsStated | optional/esphome/MjpegStream.cpp:61-77 | the length is positive if and only if digits that are not all zero follow the first such name and its blanks, and -1 if and only if no digit does, as in headers without the name |
| Decimals.NumberIsPositional | optional/esphome/MjpegStream.cpp:71-75 | digits are read by their places to the base ten |
| MjpegText.ContentLengthReadsBack | optional/esphome/MjpegStream.cpp:61-77 | the number written after the first Content-Length name, in any letter case and with blanks, is read back |
| MjpegText.PartIsExact | optional/esphome/MjpegStream.cpp:166-197 | a part with a positive Content-Length yields exactly its image, even if the image contains the boundary |
| MjpegText.StreamIsExact | optional/esphome/MjpegStream.cpp:166-212 | a stream of such parts yields exactly their images in order |
| MjpegText.UnmeasuredPartIsExact | optional/esphome/MjpegStream.cpp:199-211 | a part whose headers' text states no positive length yields what precedes the first boundary text, without trailing line ends, which is its image if and only if no boundary text begins inside it and it does not end in CR or LF |
| MjpegStream.MjpegStream.Fill | optional/esphome/MjpegStream.cpp:100-109 | any positive number of the coming bytes is appended, up to the read size |
| MjpegStream.MjpegStream.Seek | optional/esphome/MjpegStream.cpp:171-176 | the loop of search and read, under the read sizes delivered: found at its first occurrence in the whole stream, else the stream ended or the size guard fired |
| MjpegStream.GuardIsExact | optional/esphome/MjpegStream.cpp:173-176 | some schedule of reads makes the size guard fire if and only if the stream is longer than the limit and the marker is missing or ends within one read of the limit or later |
| MjpegStream.GuardSizes | optional/esphome/MjpegStream.cpp:171-187 | without a boundary the guard fires exactly past 8 MB buffered, without the end of the headers exactly past 65536 bytes |
| MjpegStream.MjpegStream.NextFrame | optional/esphome/MjpegStream.cpp:166-212 | succeeds if and only if the parser that sees the whole stream finds a frame and none of the reads made trips a size guard, each search's reads being those made while it was going on; the frame and the rest left are then that parser's |
| MjpegStream.SplitIsUnique | optional/esphome/MjpegStream.cpp:166-212 | the reads of a call split among its searches in one way only, and so decide whether a guard fires |
| MjpegStream.ReadFrames | optional/esphome/MjpegStream.cpp:166-212 | successive calls return the successive frames of the whole stream and leave what follows, and at least as many as are clear of the size guards |
| MjpegStream.ReadParts | optional/esphome/MjpegStream.cpp:166-212 | a stream of parts with Content-Length, their gaps and headers clear of the guards, is read as exactly its images whatever the read sizes, and what follows is left |
| HandleTable.EveryRun | optional/smb/SmbServerBackend.cpp:50-187 | in every reachable state global handles and live local handles correspond one to one and both counters are ahead |
| HandleTable.OpenIsFresh | optional/smb/SmbServerBackend.cpp:124-140 | opening yields a handle never issued before that leads to the file opened, and moves no other handle |
| HandleTable.HandleIsStable | optional/smb/SmbServerBackend.cpp:50-187 | a handle leads to its file whatever is opened or closed on any share |
| HandleTable.DeadForever | optional/smb/SmbServerBackend.cpp:50-59 | once closed or dropped, a handle is dead for the rest of the run, across Disconnect |
| HandleTable.HandleLife | optional/smb/SmbServerBackend.cpp:50-187 | open, keep and close over a whole run: fresh, stable, then dead for good |
| SmbFiles.PatchAt | optional/smb/SmbBackend.cpp:390-411 | what a landed write leaves at every byte: its data, the old byte, or zero in a gap |
| SmbFiles.ReadRangeAt | optional/smb/SmbBackend.cpp:316-342 | a range of a file is, byte by byte, the content from the offset on, as many bytes as are wanted and there |
| SmbFiles.PatchTwice | optional/smb/SmbBackend.cpp:399-408 | two consecutive short writes are one write |
| SmbFiles.ReadBackPatch | optional/smb/SmbBackend.cpp:316-411 | reading what was just written returns it |
| SmbBackend.CheckEscapes | optional/smb/SmbBackend.cpp:357-370 | true if and only if some path component is `..` |
| SmbBackend.EscapesExactly | optional/smb/SmbBackend.cpp:357-370 | a path escapes if and only if it is `..` with whole components before and after it, if any |
| SmbBackend.SmbBackend.constructor | optional/smb/SmbBackend.cpp:156-161 | connecting drops the slashes around the base directory and nothing else |
| SmbBackend.SmbBackend.SharePathIs | optional/smb/SmbBackend.cpp:102-113 | a path with or without one slash before it is looked up under the base directory |
| SmbBackend.SmbBackend.Open | optional/smb/SmbBackend.cpp:296-314 | for a path p, or p behind one slash, success opens the file the share names p, or base directory, slash and p, or the base directory when p is empty, under the next local handle; without that name it is refused; failure changes nothing |
| SmbBackend.SmbBackend.OpenWrite | optional/smb/SmbBackend.cpp:373-388 | as Open, making a missing file under exactly that name and changing no other name or file, refusing escaping paths |
| SmbBackend.SmbBackend.Read | optional/smb/SmbBackend.cpp:316-342 | success returns exactly contents[offset .. min(offset + length, size)), however short the server's reads, when length is below the numbers that report failures; it fails only on a share that fails a request |
| SmbBackend.SmbBackend.Write | optional/smb/SmbBackend.cpp:390-411 | success reports exactly how much landed at the offset, and nothing else changed; on a share that fails no request everything lands, however short its writes |
| SmbBackend.SmbBackend.Close | optional/smb/SmbBackend.cpp:344-352 | forgets exactly that handle, refusing one that is not open |
| SmbServerBackend.SplitServerPath | optional/smb/SmbServerBackend.cpp:12-28 | the loops compute the first component and the remainder with its slash |
| SmbServerBackend.SplitRecovers | optional/smb/SmbServerBackend.cpp:12-28 | share and remainder are recovered from any spelling with extra leading slashes |
| SmbServerBackend.SplitNothing | optional/smb/SmbServerBackend.cpp:12-28 | slashes alone name no share |
| SmbServerBackend.SmbServerBackend.ShareBackend | optional/smb/SmbServerBackend.cpp:70-87 | one backend per share, connected on first use and then reused; a refusal changes nothing |
| SmbServerBackend.SmbServerBackend.Open | optional/smb/SmbServerBackend.cpp:124-140 | one Open step of the handle table, on the share and file the path names; it succeeds whenever the share has the file and refuses nothing |
| SmbServerBackend.SmbServerBackend.OpenWrite | optional/smb/SmbServerBackend.cpp:161-177 | one Open step on the share and file the path names, making a missing file under exactly that name on that share and changing no other; a path escaping its share is refused |
| SmbServerBackend.SmbServerBackend.Read | optional/smb/SmbServerBackend.cpp:142-149 | reads exactly the range of the file the handle was opened for, whenever its share fails no request or the length is below the failure numbers and the read succeeds; any other handle is refused |
| SmbServerBackend.SmbServerBackend.Write | optional/smb/SmbServerBackend.cpp:179-187 | changes only the file the handle was opened for, where the data landed, which is all of it when its share fails no request |
| SmbServerBackend.SmbServerBackend.Close | optional/smb/SmbServerBackend.cpp:151-159 | one Close step; an unknown handle is refused and nothing changes |
| SmbServerBackend.SmbServerBackend.Disconnect | optional/smb/SmbServerBackend.cpp:50-59 | every share's backend is disconnected with its files closed, every handle dies, the handle counter goes on |
| Dmap.FindLeafIn | optional/daap/DaapClient.cpp:50-70 | the recursive loop terminates on every buffer and computes the specified search |
| Dmap.CollectTracks | optional/daap/DaapClient.cpp:82-105 | likewise for the track listing |
| Dmap.ElementOctets | optional/daap/DaapClient.cpp:50-60 | a complete element is four octets of code, four of big-endian length, and that many more |
| Dmap.ContainerOctets | optional/daap/DaapClient.cpp:29-38 | a value is taken for a container if and only if it starts with a complete element whose code is four letters from a to z |
| Dmap.RecordIsListed | optional/daap/DaapClient.cpp:72-105 | an mlit record's track is its minm, asar and asal leaves, listed if and only if it has a title or an artist |
| Dmap.TailIsIgnored | optional/daap/DaapClient.cpp:50-105 | an incomplete element at the end changes neither search nor listing |
| Dmap.SearchIsSeen | optional/daap/DaapClient.cpp:29-80 | on every encoded forest the search enters a node exactly when its content looks like a container |
| Dmap.FoundIsThere | optional/daap/DaapClient.cpp:50-70 | what the search returns is the value of an element with the code that stands at its place in the buffer, however deep |
| Dmap.SearchIsTreeSearch | optional/daap/DaapClient.cpp:29-80 | the search finds the first node with the code, in its place and so with its content, if and only if up to there no leaf that looks like a container holds the code and every container that holds it looks like one |
| Dmap.SearchIsPreorder | optional/daap/DaapClient.cpp:29-80 | for any code, when no leaf looks like a container and every container with children starts with a lower-case code, the result is the first preorder match |
| Dmap.TracksAreSeen | optional/daap/DaapClient.cpp:82-112 | on every encoded forest the listing is that of the nodes as they look, mlit leaves included |
| Dmap.TracksAreTreeTracks | optional/daap/DaapClient.cpp:82-112 | the listing has the same tracks of the same records, records and fields in their places, if and only if leaves list nothing, each mlit record is judged right for its three codes or listed by neither, missed containers have none to list and entered ones agree in turn |
| Dmap.TracksAreTheListing | optional/daap/DaapClient.cpp:82-112 | when no leaf looks like a container and every container starts with a lower-case code, it is one track per outermost mlit record, in order, if and only if no mlit leaf outside the records lists a track |
| Dmap.LeafMistakenForContainer | optional/daap/DaapClient.cpp:29-38 | a text leaf that reads as an element is searched as a container |
| Dmap.ContainerMissed | optional/daap/DaapClient.cpp:33-35 | a container whose first child has a code with capitals is not entered, and the title behind it is missed |
| CastChannel.PutVarint | optional/cast/CastChannel.cpp:32-39 | the shift loop appends the base-128 form |
| CastChannel.GetVarint | optional/cast/CastChannel.cpp:41-55 | the 64-bit or-and-shift loop computes the value and the next offset, refusing an eleventh byte |
| CastChannel.OrAbove | optional/cast/CastChannel.cpp:47 | the bitwise or with bits above those already set is their sum |
| CastChannel.VarintReadsBack | optional/cast/CastChannel.cpp:32-55 | reading inverts writing on every 64-bit value and consumes exactly its bytes |
| CastChannel.VarintDigits | optional/cast/CastChannel.cpp:32-39 | digit k of the written form is v / 128^k mod 128, with the high bit on all but the last |
| CastChannel.VarintIsShortest | optional/cast/CastChannel.cpp:32-39 | no more digits are written than the value needs |
| CastChannel.VarintIs | optional/cast/CastChannel.cpp:41-55 | any octets, up to nine with the high bit and one without it, are read as a number to the base 128 cut to 64 bits |
| CastChannel.VarintRefused | optional/cast/CastChannel.cpp:41-55 | nothing is read if and only if ten octets, or all there are, have the high bit |
| CastChannel.EncodeCastMessage | optional/cast/CastChannel.cpp:71-82 | writes the six records of a message |
| CastChannel.MessageOctets | optional/cast/CastChannel.cpp:71-82 | what is written octet by octet: version 0 and payload type 0 as records 1 and 5, the four strings as records 2, 3, 4 and 6 |
| CastChannel.RecordOctets | optional/cast/CastChannel.cpp:57-67 | a record of a small number is one octet of number and wire type, then its body |
| CastChannel.DecodeCastMessage | optional/cast/CastChannel.cpp:84-122 | the record loop computes the specified outcome on every byte string |
| CastChannel.StopsDecoding | optional/cast/CastChannel.cpp:90-121 | wire types 3, 4, 6 and 7, an unreadable tag, number or length, and a string longer than what is left are refused, or throw when the length wraps |
| CastChannel.ThrowsExactly | optional/cast/CastChannel.cpp:100-105 | decoding throws if and only if, behind complete records only, it meets a string whose length wraps past the bounds check |
| CastChannel.WrappedLengthThrows | optional/cast/CastChannel.cpp:100-105 | a source string announcing 2^64 - 1 bytes throws |
| CastChannel.DecodesExactly | optional/cast/CastChannel.cpp:84-122 | decoding succeeds if and only if it stops at no record |
| CastChannel.AcceptsExactly | optional/cast/CastChannel.cpp:84-122 | accepted are exactly the buffers of complete records and those that end in a fixed-width record cut short |
| CastChannel.RefusesMalformedExactly | optional/cast/CastChannel.cpp:84-122 | a malformed buffer is refused if and only if it neither ends in a cut fixed-width record nor comes to a string whose length wraps |
| CastChannel.CutFixedIsAccepted | optional/cast/CastChannel.cpp:113-116 | the lone tag of a fixed32 record is accepted |
| CastChannel.RecordsAreApplied | optional/cast/CastChannel.cpp:90-121 | any sequence of complete records of any wire type is applied in order |
| CastChannel.UnknownAreIgnored | optional/cast/CastChannel.cpp:106-112 | a record leaves every message as it is if and only if it is not a string with a known number |
| CastChannel.DecodeInvertsEncode | optional/cast/CastChannel.cpp:71-122 | decoding inverts encoding on all strings, also with unknown records before, between and after |
| CastChannel.FieldNumberWraps | optional/cast/CastChannel.cpp:94 | field number 2^32 + 2 is taken for the source |
| PercentCode.EncodeValue | optional/smb/SmbMount.cpp:108-123 | the loop computes the encoding |
| PercentCode.DecodeValue | optional/smb/SmbMount.cpp:18-41 | the loop, with its two-character skip, computes the decoding; bad escapes stay |
| PercentCode.DecodeInvertsEncode | src/vicinato/DeviceLaunch.cpp:12-52 | decoding inverts encoding on every string |
| PercentCode.EncodedIsClean | optional/smb/SmbMount.cpp:108-123 | an encoded value holds no white space or control character, and an equals sign only if the value does |
| PercentCode.EncodesEach | optional/smb/SmbMount.cpp:108-123 | codes up to 32, 37 and 127 become `%` and two upper-case hexadecimal digits, all other characters stay |
| PercentCode.DecodesEach | optional/smb/SmbMount.cpp:18-41 | `%` and two hexadecimal digits of either case become their character, anything else stays |
| PercentCode.TokensOfSpaced | optional/smb/SmbMount.cpp:14-17 | splitting at white space finds the tokens again |
| SmbMount.BuildSmbMountParameters | optional/smb/SmbMount.cpp:125-140 | the printed parameters are the file system name and one token per given field |
| SmbMount.ParametersAre | optional/smb/SmbMount.cpp:125-140 | the printed text: the file system's name, the server, and every other field that is not empty |
| SmbMount.ParseSmbMount | optional/smb/SmbMount.cpp:63-106 | the token loop, environment fallbacks and server check compute the specified mount on every argument list |
| SmbMount.ParsesTokens | optional/smb/SmbMount.cpp:63-106 | each field is the last value its option is given, or the environment's where that is empty; the program name and all other tokens are passed on in order; a server is needed |
| SmbMount.MountRoundTrip | optional/smb/SmbMount.cpp:18-140 | print, split, parse gives the configuration back if and only if the environment fills in no empty field; accepted if and only if a server is known |
| SmbMount.EnvironmentFillsIn | optional/smb/SmbMount.cpp:90-96 | a share in the environment turns a server-level mount into that share's |
| DeviceLaunch.BuildLaunchArgs | src/vicinato/DeviceLaunch.cpp:54-68 | the arguments, spelled out: host and port, then type, name and action if given, and one `txt.` argument per record, in order |
| DeviceLaunch.ParseDevice | src/vicinato/DeviceLaunch.cpp:70-94 | the argument loop computes the specified device on every argument list |
| DeviceLaunch.ParsesTokens | src/vicinato/DeviceLaunch.cpp:70-94 | each field is the last value its key is given, a port is cut to 16 bits, records come in order, and other tokens are ignored |
| DeviceLaunch.RecordIs | src/vicinato/DeviceLaunch.cpp:90-91 | a record's token is `txt.`, a key without an equals sign, an equals sign and a value; no other token is one |
| DeviceLaunch.StrtoulReads | src/vicinato/DeviceLaunch.cpp:83 | white space, a sign and digits are read as a number, saturating at 2^64 - 1, a negative one from 2^64 down |
| DeviceLaunch.LaunchRoundTrip | src/vicinato/DeviceLaunch.cpp:54-94 | the device comes back if and only if no TXT key contains an equals sign; otherwise such keys are cut there |
| DeviceLaunch.KeyWithEqualsIsCut | src/vicinato/DeviceLaunch.cpp:74-79 | the record `a=b`, `c` comes back as `a`, `b=c` |
| NfsExports.PutString | optional/nfs/NfsProbe.cpp:33-38 | length, bytes, and zeros to the next word of the whole buffer |
| NfsExports.StringOctets | optional/nfs/NfsProbe.cpp:33-38 | four octets of length, the string, and up to three zeros |
| NfsExports.GetString | optional/nfs/NfsProbe.cpp:49-57 | string and next cursor, with the cursor past the end on overrun, on every input |
| NfsExports.ParseReplyHeader | optional/nfs/NfsProbe.cpp:73-85 | accepts if and only if a complete accepted successful header stands there, and stops behind it |
| NfsExports.HeaderAccepted | optional/nfs/NfsProbe.cpp:73-85 | of any header, whatever its id and verifier, exactly those saying reply (1), accepted (0) and success (0) are accepted |
| NfsExports.CutHeaderRefused | optional/nfs/NfsProbe.cpp:73-85 | a header cut short anywhere is refused |
| NfsExports.ParseExportList | optional/nfs/NfsProbe.cpp:89-107 | the nested loops terminate without out-of-range reads on every input and offset and compute the specified list |
| NfsExports.ExportStep | optional/nfs/NfsProbe.cpp:92-104 | any non-zero word announces an export, which is listed unless its directory is empty, and reading goes on behind its groups |
| NfsExports.GroupStep | optional/nfs/NfsProbe.cpp:100-104 | any non-zero word announces a group, which is passed over |
| NfsExports.ExportsRead | optional/nfs/NfsProbe.cpp:89-107 | the encoding of any export list at a word boundary is read as exactly its non-empty directories, in order |
| NfsExports.NothingDropped | optional/nfs/NfsProbe.cpp:98-99 | every directory is returned if and only if none is empty |
| NfsExports.EmptyDirectoryIsDropped | optional/nfs/NfsProbe.cpp:98-99 | an export without a directory name is not listed |
| NfsExports.ReplyLists | optional/nfs/NfsProbe.cpp:73-107 | a whole successful reply, with any id and verifier, yields its exports |
| NfsExports.TruncatedExports | optional/nfs/NfsProbe.cpp:92-105 | a reply cut short anywhere loses directories from the end and invents none |
| WebDavBase64.Base64 | optional/webdav/WebDavClient.cpp:136-149 | the 32-bit shift-register loop equals the three-octet-group definition on every input |
| WebDavBase64.GroupsAreSextets | optional/webdav/WebDavClient.cpp:141-148 | the group definition is the bit stream in sextets, padded to four |
| WebDavBase64.EncodedLength | optional/webdav/WebDavClient.cpp:148 | four characters for every started group of three octets |
| WebDavBase64.StandardExamples | optional/webdav/WebDavClient.cpp:136-149 | the seven examples of section 10 of RFC 4648 |
| WebDavBase64.DecodeInvertsEncode | optional/webdav/WebDavClient.cpp:136-149 | a receiver's decoder gets every octet string back |
| VpxConvert.BgraToI420 | optional/cast/VpxEncoder.cpp:19-57 | in place, three planes of any stride: each luma sample is (77 R + 150 G + 29 B) / 256 of its pixel's octets, each chroma sample the two formulas on the truncated means of its block's octets, row padding untouched |
| VpxConvert.PlaneHolds | optional/cast/VpxEncoder.cpp:28-56 | every sample of a painted plane has its pixel's or block's value and everything else is as before |
| VpxConvert.BlockIs | optional/cast/VpxEncoder.cpp:41-49 | a block is exactly the one, two or four image pixels whose coordinates halve to its own |
| VpxConvert.LumaUnclamped | optional/cast/VpxEncoder.cpp:34-35 | the luma clamp is never taken |
| VpxConvert.ChromaUnclamped | optional/cast/VpxEncoder.cpp:51-54 | neither chroma clamp is ever taken |
| VpxConvert.GreyImage | optional/cast/VpxEncoder.cpp:19-57 | an image of greys of any levels has its levels as luma and 128 in every chroma sample |

## Left out

- The session negotiation (`optional/cast/MirrorSession.cpp:20-126`): foreign calls and key generation. The model starts where Start succeeds, once per object, and `StartAudio` where the receiver accepted sound and the encoder was initialised.
- MirrorSession.MirrorSession.SendFrame: the choice to force a key frame and the encoder itself are parameters, as are the clock readings, the NTP fields and the DLRR delay (floating point). One reading of the clock serves a whole service round, where the code reads it anew for each use.
- MirrorSession.MirrorSession.constructor: the counters of each stream are fields of one `Stream` record that the methods update field by field, where the class has them flat.
- Sending a datagram may fail at any time; the log records what was handed to the socket, which is what the code counts.
- The mutex between the video and audio threads: every method runs whole, as under the lock.
- OpenSSL failures, which would yield an empty ciphertext, and the `CAMP_NONCE` override of the nonce offset.
- CastReassembly.Reassemble: does not compare frame ids, as the code does not; recovery is stated for packets of one frame.
- Locating a JSON value by the first textual occurrence of its key (`optional/shelly/ShellyClient.cpp:24-37`, `optional/hue/HueBridge.cpp:64-69`): a heuristic. The scanners take the start position as given.
- MjpegStream.MjpegStream.NextFrame: a read error counts as the end of the stream, `Content-Length` is unbounded where the code has `long`, and Open and Snapshot are not modelled.
- SmbBackend.SmbBackend.Read: the client library reports a failure by a number that a large enough read takes for a count (`optional/smb/SmbBackend.cpp:329-332`). The share names the least such number, which is assumed above the 1 MiB of a write request; a read of that length or more is promised only its size.
- SmbBackend.SmbBackend.Write: after a server error the code reports nothing written although a prefix may have landed; the contract says so.
- Stat, ReadDir, Mkdir, Unlink, Rename, Truncate and share enumeration of the SMB backends: each is one foreign call. Share contents change only through the modelled volume, and the 64-bit handle counters are unbounded.
- `AsInt` and the HTTP side of the DAAP client, the sockets and JSON of the Cast channel, RPC transport of the NFS probe, and the WebDAV requests.
- CastChannel.EncodeCastMessage: a string longer than 2^64 bytes is excluded.
- DeviceLaunch.ParseDevice: the device label, type and action of the launching side are the fields of one record.
- DeviceLaunch.StrtoulReads: `unsigned long` is taken as 64 bits wide.
- Strings are sequences of characters; the code works on bytes, which are the characters below 256.
- VpxConvert.BgraToI420: the three planes are separate arrays, where libvpx cuts them from one allocation.
- Window and widget code, TXT record decoders, label tables, Wake-on-LAN, settings stores and the simpler protocol readers (IPP, AFP, NBSTAT, FTP, NUT): they would add only easy members.
