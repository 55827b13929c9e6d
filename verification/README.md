# sponsoryeet, verified

A Dafny model of the parts of sponsoryeet that decide things: the protobuf codec
and the CastV2 frames through which it talks to a Chromecast, the state machine
that watches playback and skips sponsor segments, and the mDNS name codec that
finds the device. `dafny verify dfyconfig.toml` checks the whole project.

## The codec

`Bits` defines machine words as natural numbers and the shifts, masks and ORs of
the source bit by bit; the functions on byte strings use plain arithmetic, and the
methods the bit forms, proved equal. `Varint`, `ZigZag`, `Utf8`, `Wire`, `Messages`,
`MessageRoundTrip`, `Sizes` and `Packed` describe, as functions on byte strings,
what the writer appends, what the size calculator announces and what the parser
takes off its input, and prove how the three agree. `Grammar` has the language that
is accepted, `Refusals` what is refused with which error code, and `WireFormat` the
bytes of every message, all three in the numbers of the format. `Protobuf` (the moving cursor,
the growing buffer, the error code that sticks) and `CastChannel` (the CastMessage
object with its callbacks, `parse` and `serialize`) are written the way the source
runs, and each method is proved to do exactly what the functions say. `Frames` adds
`sendMessage` and the frame reading of the main loop.

Points where the code differs from what one would expect, kept as they are:

- The two enum fields are written with zigzag and read without it, so a message
  comes back with their codes; `MessageRoundTrip.UnchangedExactly` says exactly
  when a message is unchanged, and `Sizes.BinaryReadsAsTwo` gives an input.
- The destination and the namespace are joined with `+` instead of `&&`: writing
  fails only if both are refused, and the operands may be evaluated in either
  order. Every theorem about serializing holds for both orders;
  `Sizes.AccentDropped` gives an input.
- If one of the two is refused, the announced size is larger than what is written
  (`Sizes.SizeAgreement` and `Frames.HeaderIsLength` say exactly when;
  `Sizes.AccentDropped` again).
- `isutf8` accepts no two-byte characters (`Utf8.StandardText`) and takes FE and FF
  for lead bytes; the comment in the source gives only the first as intended.
- A length prefix of 2^31 or more passes the signed comparison of
  `get_length_delimited` and moves the cursor out of the input. `on_cls` refuses
  the fields it does not know as it always does; for the others it would read
  outside the input, which has its own outcome, `Strayed`.
- The label position of `parsePacket` is narrowed to eight bits, so past offset 255
  the loop reads from the front of the packet again. `Mdns.NameRoundTrip` says
  exactly when a name still comes back, `Mdns.LastLabelCrosses` and
  `Mdns.LongNameReturned` show it for the last label, and the loop need not end:
  `Mdns.NeverEnds` says exactly when, `Mdns.EndlessPacket` gives the inputs.

## The skip state machine

`Segments` has the two searches over the skip segments and the rounding,
`SkipChain` what repeated seeks do, `Player` the globals as an object whose methods
are the steps, `Runs` the properties of every run from the start of the program,
reconnects included, `Polls` the timing of polls and a receiver that obeys, and
`Liveness` the two together: a segment ahead is skipped once it is entered.
Positions and bounds are reals, with floor, ceiling and rounding half away from
zero written out; the clock is read once per step and need not be monotone. The
result of `downloadSegments` is part of the input of a step.

Two expected properties are false of the code and are stated with a witness:
a live segment can be neither scheduled nor sought, because one about to end hides
it (`Polls.HiddenSegment`; `Polls.NeglectsExactly` gives the exact condition), and
a poll can be scheduled from the segments of the video before a reconnect
(`Polls.StalePoll`; `Polls.ScheduleOwned` gives the exact condition).

## Model

| member | source | states |
|---|---|---|
| Bits.ByteMasks | ec_protobuf.h:98-120 | the masks 0x7F, 0x80 and 0xC0 of a byte are its low seven bits, its top bit and its two-bit tag |
| Bits.ShlSplit | ec_protobuf.h:159 | a left shift in a w-bit word keeps exactly the bits that still fit |
| Varint.RoundTrip | ec_protobuf.h:149-207 | reading a written varint returns the number, uses exactly its bytes and leaves any suffix, at widths 32 and 64 and across them |
| Varint.ReadVarintExactly | ec_protobuf.h:149-174 | the reader accepts exactly a varint of at most 5 (10) bytes and returns its base 128 value modulo 2^width |
| Varint.NarrowingRead | ec_protobuf.h:304-310 | a longer number in at most five bytes comes back truncated to 32 bits |
| Varint.Canonical | ec_protobuf.h:179-207 | no varint of the same value is shorter than the written one, and one as long is the same bytes |
| Varint.SizeIsLength | ec_protobuf.h:575-597 | the counted size is the length of the written bytes |
| Varint.SmallBytes | ec_protobuf.h:179-207 | the bytes of the numbers below 2^14 |
| ZigZag.EncodeMeaning | ec_protobuf.h:135-138 | the shift and XOR form is 2v for v >= 0 and -2v-1 for v < 0 |
| ZigZag.DecodeMeaning | ec_protobuf.h:140-143 | the decoding shift and XOR form gives z/2 or -(z+1)/2 |
| ZigZag.DecodeEncode | ec_protobuf.h:132-144 | decoding undoes encoding on every w-bit pattern |
| ZigZag.EncodeDecode | ec_protobuf.h:132-144 | encoding undoes decoding on every code |
| ZigZag.EncodeIsCode | ec_protobuf.h:135-138 | at 32 and 64 bits the bit form is the even or odd code that the message functions use |
| ZigZag.DecodeIsUncode | ec_protobuf.h:140-143 | and so is the decoding form |
| ZigZag.FixedPoint | castchannel.h:71-75 | 0 is the only pattern equal to its own code, at 32 and 64 bits |
| Utf8.IsUtf8 | ec_protobuf.h:88-128 | the loop accepts exactly the strings of the scan, measured with strlen when the size is 0 |
| Utf8.TextIsUnits | ec_protobuf.h:92-127 | accepted strings are exactly the concatenations of a lead byte and the continuation bytes it announces |
| Utf8.TextPrefix | ec_protobuf.h:92-127 | the language is closed under concatenation and under cancelling an accepted prefix |
| Utf8.StandardText | ec_protobuf.h:111-115 | a UTF-8 string under RFC 3629 section 4 is accepted exactly when it has no two-byte character |
| Utf8.CStringWhole | castchannel.h:62-64 | c_str and strlen keep a string whole exactly when it has no NUL |
| Protobuf.Coder.GetVarint | ec_protobuf.h:149-174 | the loop returns what ReadVarint describes, moves the cursor by the bytes it looked at even when it fails, and records the decode error except on empty input |
| Protobuf.Coder.OutVarint | ec_protobuf.h:179-207 | with the bound nbit + 7 < width and the tail byte, the loop appends exactly the canonical varint |
| Protobuf.Coder.SizeVarint | ec_protobuf.h:576-597 | the same loop counts exactly the seven-bit groups |
| Protobuf.Coder.GetKey | ec_protobuf.h:291-302 | reads a 32-bit varint and splits it into field number and wire type; the cursor moves by the bytes looked at also when it fails |
| Protobuf.Coder.GetLengthDelimited | ec_protobuf.h:304-322 | hands over the announced bytes, refuses a short input with the decode error, and for a stray prefix leaves the position and the wrapped length that the source computes |
| Protobuf.Coder.GetFixed | ec_protobuf.h:212-233 | takes n bytes as a little-endian number or refuses without moving |
| Protobuf.FixedMeans | ec_protobuf.h:212-233 | that number, byte by byte, for four and eight bytes |
| Protobuf.Coder.OutKey | ec_protobuf.h:389-394 | appends the varint of the key, for any field number and wire type |
| Protobuf.Coder.OutLengthDelimited | ec_protobuf.h:373-387 | appends the length and the bytes |
| Protobuf.Coder.OutZigZag32 | ec_protobuf.h:498-506 | appends the key and the zigzag code of a uint32_t |
| Protobuf.Coder.OutStr | ec_protobuf.h:508-521 | writes nothing for an empty C string, refuses text that isutf8 refuses with its error code, else writes the string up to its first NUL |
| Protobuf.Coder.OutCls | ec_protobuf.h:538-546 | writes nothing for an empty body, else key, length and body |
| Wire.KeyShift | ec_protobuf.h:392 | the shift keeps the field number modulo 2^29 and the mask the wire type modulo 8 |
| Wire.KeyMeaning | ec_protobuf.h:389-394 | ORing the two gives 8 * field + wire type, each reduced |
| Wire.KeySplits | ec_protobuf.h:299-300 | the mask and shift of get_key are the remainder and quotient by 8 |
| Wire.KeyRoundTrip | ec_protobuf.h:291-302 | a written key reads back as its field number, below 2^29, and wire type |
| Wire.DelimitedRoundTrip | ec_protobuf.h:304-322 | a body written with its length as a 64-bit varint is handed back by the 32-bit reader, below 2^31 |
| Grammar.HandledTaken | ec_protobuf.h:811-843 | one round of parse takes a handled record whole and means what the record says |
| Grammar.TakenHandled | castchannel.h:79-125 | conversely a record that a round takes and the callbacks accept is a handled one |
| Grammar.AcceptedLanguage | ec_protobuf.h:794-855 | parse accepts exactly the concatenations of varints (wire type 0) for fields 1 and 5, length-delimited records (2) for 2, 3, 4, 6 and 7, and fixed64 records (1) of any field |
| Grammar.VerdictIndependent | ec_protobuf.h:811-854 | acceptance and error code do not depend on what was parsed before |
| Grammar.Concatenation | ec_protobuf.h:794-855 | after an accepted input, more input is judged as it would be alone and its records are applied to the result so far |
| Grammar.FoldIsOverlay | castchannel.h:79-115 | applying records one by one leaves in each field the last record under its number |
| Grammar.LastOneWins | ec_protobuf.h:794-855 | parsing a + b overlays a's result with b's last record of each field |
| Grammar.SameLastSameResult | castchannel.h:79-115 | inputs whose last record of each field agree parse alike |
| Grammar.Reordering | castchannel.h:79-115 | exchanging neighbouring records of distinct fields changes nothing |
| Refusals.RefusedExactly | ec_protobuf.h:811-854 | parse refuses with error 2, refuses without error, or strays, exactly at the first record with such a flaw, and keeps the fields before it |
| Refusals.UsedExactly | ec_protobuf.h:149-174 | a failing varint read moves past all it looked at, up to 5 or 10 bytes |
| WireFormat.SerializedBytes | castchannel.h:69-78 | serialize writes exactly the keys 0x08, 0x12, 0x1A, 0x22, 0x28, 0x32 and 0x3A with their zigzag codes, lengths and strings, empty strings left out |
| WireFormat.OneFieldWritten | castchannel.h:22-30 | the bytes of a message with one short string, for each of the five strings |
| WireFormat.StringRecord | castchannel.h:79-101 | a record under one of the five string keys sets that field to its body and no other |
| WireFormat.EnumRecord | castchannel.h:102-115 | a varint under 0x08 or 0x28 sets that enum modulo 2^32, undecoded, and no other field |
| WireFormat.SerializeError | ec_protobuf.h:508-521 | serializing records error 3 exactly when a string is not text |
| WireFormat.ParseAnySize | ec_protobuf.h:799-804 | parse looks at the size modulo 2^32 as a signed number |
| CastChannel.CastMessage.Reset | castchannel.h:49-57 | every field is back at its initial value |
| CastChannel.CastMessage.OnCls | castchannel.h:79-101 | stores the body in its field or refuses the field and changes nothing |
| CastChannel.CastMessage.OnVar | castchannel.h:102-115 | stores the value modulo 2^32 or refuses the field and changes nothing |
| CastChannel.CastMessage.OnFix32 | castchannel.h:116-120 | refuses every field |
| CastChannel.CastMessage.OnFix64 | castchannel.h:121-125 | accepts every field and changes nothing |
| CastChannel.CastMessage.ReadBody | ec_protobuf.h:816-851 | the switch does one record's worth of the parse function, state, cursor and error code included, and a stray prefix is refused like any body if on_cls does not know the field |
| CastChannel.CastMessage.ParseRecord | ec_protobuf.h:811-852 | one round of the loop, keeping pd + len |
| CastChannel.CastMessage.Parse | ec_protobuf.h:794-855 | the loop leaves the verdict, the fields and the error code of the parse function, for inputs of any size, keeping pd + len while len falls |
| CastChannel.CastMessage.Size | castchannel.h:59-68 | the sum of the counting loops is the announced size of the content |
| CastChannel.CastMessage.OutAddress | castchannel.h:73-74 | the sum of two writes is false only if both fail, and appends both strings in the order evaluated |
| CastChannel.CastMessage.OutContent | castchannel.h:69-78 | appends exactly the described bytes, also when it fails half way |
| CastChannel.CastMessage.Serialize | ec_protobuf.h:788-792 | resets the error code and writes the content |
| CastChannel.CastMessage.SerializeNested | ec_protobuf.h:733-744 | writes key, size and content; the content is never empty |
| MessageRoundTrip.SerializeThenParse | castchannel.h:69-115 | serialize succeeds exactly when source, payload and one of the address strings are text; then parse accepts its bytes and gives the strings cut at NUL and the enums' zigzag codes, for either evaluation order |
| MessageRoundTrip.UnchangedExactly | castchannel.h:69-115 | the message comes back unchanged exactly when both enums are 0, no string has a NUL and neither address string was refused |
| MessageRoundTrip.ContentPiece | castchannel.h:69-78 | a successful write is a concatenation of handled records that together mean the received message |
| Sizes.StrSize | ec_protobuf.h:639-646 | a string takes its announced size, or nothing if it is refused although the size is positive |
| Sizes.SizeAgreement | castchannel.h:59-78 | the announced size is at least 4, never too small, and equals the bytes written exactly when all four strings are text |
| Sizes.NestedReadsBack | ec_protobuf.h:722-744 | the nested form takes size(uid) bytes and get_key with get_length_delimited hands back exactly the content |
| Sizes.BinaryReadsAsTwo | castchannel.h:71-75 | a message of payload type 1 comes back with payload type 2 |
| Sizes.AccentDropped | castchannel.h:73-74 | a destination with a two-byte character is dropped while serialize succeeds and announces more bytes than it writes |
| Packed.SizeVarPacket | ec_protobuf.h:912-932 | the loop sums the sizes of the elements |
| Packed.OutVarPacket | ec_protobuf.h:881-910 | the loop appends key, body size and every element's varint, or nothing for no elements |
| Packed.PVarPacket | ec_protobuf.h:857-879 | reads the next element with its zigzag and sign; cursor and error code as get_varint leaves them |
| Packed.ValueOfCode | ec_protobuf.h:872-876 | the code of an element reads as the element, signed or unsigned, 32 or 64 bits, with or without zigzag |
| Packed.BodyReadsBack | ec_protobuf.h:857-910 | reading elements until the cursor is empty gives the array |
| Packed.PacketRoundTrip | ec_protobuf.h:881-954 | a packet has its announced size, and its key, length and body read back as the array; no elements give no bytes |
| Frames.HostInvertsNetwork | loop.h:401-403 | ntohl undoes htonl through memory |
| Frames.WriteFrame | chromecast.h:27-37 | hands header and serialized content to write, or nothing if serializing fails, and succeeds exactly if all of it was sent |
| Frames.SendMessage | chromecast.h:13-38 | writes the frame of its message, true exactly if it was serialized and sent whole; sent text then arrives as a message from sender-0 to dest, or receiver-0, in the namespace ns with the payload message |
| Frames.ReceiveLoop | loop.h:392-421 | the reading loop returns the messages, the unread bytes and the reason it ended, INVALID_REQUEST included, for every stream |
| Frames.HeaderIsLength | chromecast.h:27-33 | the header states the length of the body exactly when all four strings are text |
| Frames.StreamThenRest | loop.h:392-417 | any list of deliverable frames without an INVALID_REQUEST is taken whole and in order, whatever follows |
| Frames.InvalidStops | loop.h:186-190 | the first INVALID_REQUEST is taken too and ends the loop with the rest unread |
| Frames.StreamArrives | loop.h:392-417 | a stream of frames gives back all its messages and uses every byte |
| Frames.TakenExactly | loop.h:404-407 | a frame is taken exactly when its message is at most 65536 bytes; the sender does not check |
| Frames.FrameArrives | chromecast.h:19-37 | a message built by sendMessage from NUL-free text arrives as it was, whatever follows |
| Frames.FrameBytes | chromecast.h:19-37 | its frame is the length in four digits of base 256, most significant first, and the bytes of the message |
| Frames.FirstFrame | loop.h:392-421 | what the loop does with a first frame of any length, up to and over 65536, complete or not, accepted or not |
| Frames.RefusedStops | loop.h:414-417 | after any good stream a frame that parse refuses ends the loop with the rest unread |
| Segments.EarliestIsMinimum | loop.h:32-45 | the search finds the minimum begin over exactly the segments that have not ended, or none |
| Segments.EarliestAnyOrder | loop.h:21-47 | the delta depends on which segments there are, not on their order |
| Segments.NextExactly | loop.h:21-47 | the delta is non-negative exactly when a live segment exists and no live segment has begun |
| Segments.CurrentEndIs | loop.h:49-68 | the result is the end of a covering segment at least a second ahead, or -1 exactly when none covers |
| Segments.CoversMeans | loop.h:59-66 | a segment covers a second if it has begun before and lasts at least a second more |
| Segments.RoundingMeans | loop.h:18-51 | round goes to the nearest whole number, halves away from zero, ceil up, and the conversion to int towards zero |
| Segments.RoundShift | loop.h:17-18 | rounding commutes with adding whole seconds exactly unless the shift brings a negative half-integer to zero or above |
| SkipChain.JumpDrops | loop.h:49-99 | a jump advances at least a second, leaves fewer segments, and skips less than a second before the segment's begin |
| SkipChain.FewJumps | loop.h:49-99 | at most as many jumps as segments |
| SkipChain.OnlySegmentsSkipped | loop.h:49-99 | every whole second skipped lies inside a segment, and at rest none covers the position |
| SkipChain.LeastFree | loop.h:49-99 | for whole-second segments the chain rests at the first whole second not strictly inside any segment |
| SkipChain.AnyOrder | loop.h:59-66 | for whole-second segments the resting position does not depend on their order |
| SkipChain.OrderMatters | loop.h:59-66 | with fractional ends it can |
| Player.Globals.constructor | globals.h:20-28 | the initial values of the globals |
| Player.Globals.CurrentPosition | loop.h:8-19 | the raw position when paused, -1 when unknown, else the rounded extrapolation |
| Player.Globals.SecondsUntilNextSegment | loop.h:21-47 | the loop computes the distance to the earliest live begin |
| Player.Globals.CurrentSegmentEnd | loop.h:49-68 | the loop returns the end of the first covering segment |
| Player.Globals.MaybeSeek | loop.h:70-100 | every guard in order; a seek records its time and invalidates position, fetch time and poll |
| Player.Globals.HandleMediaStatus | loop.h:192-233 | the whole new state and the seek attempted |
| Player.Globals.HandleReceiverStatus | loop.h:260-290 | a session id becomes the destination, only a non-empty application name changes the YouTube flag, and a mention of the media namespace connects and asks for the media status |
| Player.Globals.Timeout | loop.h:368-373 | polls exactly when a poll is due, and disarms it |
| Player.Globals.Reconnect | main.cc:92-98 | position, poll, video, session and destination are reset; segments, playing, YouTube and last seek stay |
| Player.SeekExactly | loop.h:70-99 | a seek is attempted exactly when a video is set, it plays, a second has passed and some segment covers the current second, and goes to such a segment's end |
| Player.AheadNeverSeeks | loop.h:224-233 | a step with a non-negative delta never also seeks |
| Player.PositionMoves | loop.h:8-19 | a known position moves on by whole seconds |
| Runs.Handle | loop.h:326-425 | one turn of the loop over the globals is one step of the run |
| Runs.Execute | main.cc:92-116 | the program passes through exactly the states of a run and seeks, polls and asks exactly as the run does |
| Runs.PositionInvariant | main.cc:93-95 | the position is negative exactly when the fetch time is -1, in every reachable state |
| Runs.FreshPositionBetweenSeeks | loop.h:96-98 | between two seek attempts a MEDIA_STATUS with a current time is handled |
| Runs.SeeksApart | loop.h:90-93 | recorded seek times differ by at least a second, however the clock moves |
| Runs.PositionWasReported | loop.h:194-196 | a known position is the last one reported, with its time, and no seek or reconnect came after |
| Runs.SeekAtExtrapolated | loop.h:49-99 | every seek is made at the last reported time plus the seconds since, rounded, inside the segment whose end is sought |
| Runs.SessionWasReported | loop.h:202-208 | the media session is the last one named on this connection |
| Runs.SentWithSession | chromecast.h:106-121 | a seek is sent exactly when this connection has named a media session |
| Runs.DestWasReported | loop.h:268-270 | the destination is the receiver session last named on this connection |
| Runs.SeekAddressed | chromecast.h:24 | every seek is addressed to it |
| Runs.AsksExactly | loop.h:267-288 | it connects to the session and asks for the media status exactly when a receiver status mentions the media namespace, and the session is the last one named, by that status itself if it names one |
| Runs.PlayingWasReported | loop.h:197-201 | the machine believes it plays exactly when the last reported state is PLAYING |
| Runs.YouTubeWasReported | loop.h:271-279 | it takes the application for YouTube exactly when that is the last one reported |
| Runs.SeekOnlyPlayingYouTube | loop.h:87-89 | seeks happen only while the last reported state is PLAYING and the last application YouTube |
| Runs.SegmentOwnership | loop.h:218-222 | the segments are those of the last input that named a new video, and a video that is set is that one |
| Runs.VideoIsLastNamed | main.cc:96 | the current video is the one last named, under YouTube, since the connection was made, and none before that |
| Runs.SeekTargetOwned | loop.h:72-99 | every seek goes to the end of a segment downloaded for the video last named on this connection |
| Runs.LastSeekWasSought | loop.h:90-93 | the time kept is that of the last seek, or 0 |
| Runs.SegmentsWereDownloaded | loop.h:218-220 | the segments are those of the last download, or none |
| Runs.SeeksExactly | loop.h:70-99 | a step seeks exactly when YouTube and PLAYING were reported last, a video was named on this connection, the last seek is a second ago, and a downloaded segment covers the position last reported since the last seek or reconnect, moved on to the present |
| Polls.ScheduleEffect | loop.h:224-233 | a scheduling step sets the poll time and nothing else, and does not seek |
| Polls.DueExactly | loop.h:224-231 | a poll is due exactly when a step has scheduled it and nothing since has polled, sought, reconnected, downloaded or scheduled; its time is that of the step |
| Polls.PollsExactly | loop.h:368-373 | the program polls exactly at a timeout at which a poll is due and its time has come |
| Polls.ReportSchedules | loop.h:8-47 | a status, playing or paused, schedules the poll for the moment its position, rounded only while playing, reaches the begin of the earliest segment that has not ended |
| Polls.OnePollPerSchedule | loop.h:368-373 | between two polls there is a scheduling step |
| Polls.PollTiming | loop.h:368-373 | if only timeouts follow a scheduling step while playing, the first that polls is the first at which the extrapolated position has reached the earliest live begin |
| Polls.NeglectsExactly | loop.h:224-233 | a status step neither schedules nor seeks although a segment is live exactly when a live one has begun and a guard of the seek fails or none covers the second |
| Polls.HiddenSegment | loop.h:34-41 | a run in which a segment about to end hides a later one: video set, playing, nothing scheduled, nothing sought |
| Polls.StalePoll | main.cc:92-98 | after a reconnect a poll can be scheduled from the segments of the old video |
| Polls.ScheduleOwned | loop.h:218-231 | a poll is scheduled from segments downloaded for the video last named on this connection exactly when a video is set before the step or named by it |
| Polls.ReplyStep | loop.h:192-233 | a status that reports a position is answered by a seek exactly to the chain's next target |
| Polls.ObedientChain | loop.h:49-100 | with a receiver that obeys, the machine walks the skip chain: at most one seek for each segment, then silence at a second that no segment covers |
| Liveness.ScheduleArms | loop.h:224-231 | a scheduling step leaves a poll due when the position reaches the earliest live begin |
| Liveness.SkipExactly | loop.h:224-233 | with a timeout every second and polls answered at once, nothing is sought before the first whole second after that begin, and then a seek is made exactly when a segment covers it |
| Liveness.AheadThenSkipped | loop.h:368-373 | so a segment found ahead that lasts two seconds is sought out of in the first whole second after it begins |
| StringSplit.Run | util.h:32-48 | the loop returns the pieces between delimiters |
| StringSplit.JoinSplit | util.h:32-48 | joining the pieces gives the string back, and no piece holds the delimiter |
| StringSplit.SplitJoin | util.h:32-48 | splitting is the only way to write a string as delimiter-free pieces |
| Mdns.SendRequest | mdns.h:119-130 | the loop builds header, length-prefixed pieces and footer |
| Mdns.QueryPacket | mdns.h:22-31 | the request for a name of three labels, byte for byte |
| Mdns.Parse | mdns.h:136-180 | the loop returns the described host name for every packet, and gives up, Endless, exactly where the source's never ends |
| Mdns.NeverEnds | mdns.h:149-168 | the label loop never ends exactly when it comes to a position again |
| Mdns.EndlessPacket | mdns.h:149-168 | that happens to every packet whose first label length is 255 |
| Mdns.LoopRound | mdns.h:149-168 | the loop is its first round followed by the loop |
| Mdns.LabelsAreThere | mdns.h:149-168 | the loop appends a name exactly when labels that spell it stand on its way, the position wrapping or not |
| Mdns.StandEncoded | mdns.h:149-168 | labels read without wrapping stand encoded where the loop started |
| Mdns.AnsweredExactly | mdns.h:136-180 | a packet that counts answers gives the name that its labels spell, none exactly if they run out of the packet, and no end exactly if they lead back |
| Mdns.NoHostExactly | mdns.h:138-178 | a packet shorter than 16 bytes or without answers names no host, unless in verbose mode its labels have no end |
| Mdns.NameEncoding | mdns.h:125-128 | the trailing dot of a name gives the empty piece whose length byte is the terminator |
| Mdns.NameRoundTrip | mdns.h:144-168 | a reply that counts answers in its bytes 6 and 7 and carries the encoding of a dotted name gives it back if the encoding ends at offset 255 or less, and past that exactly when the rest of the name is spelled from the wrapped position on |
| Mdns.QueryNameReturned | mdns.h:35 | a reply carrying the name asked for gives it back |
| Mdns.LastLabelCrosses | mdns.h:160-168 | if only the last label ends past 255, the name comes back exactly when the byte 256 before its end is 0 |
| Mdns.LongNameReturned | mdns.h:160-168 | a 243-byte label comes back exactly when the first byte of the reply is 0 |

## Left out

- `connection.h`, `ssl.cc`, `ssl.h`: sockets and TLS; a read hands over the next bytes of a byte string, and what a write reports is an input.
- Number and regular expression extraction, `downloadSegments` and `splitToDouble`: their results are inputs of the steps.
- IEEE doubles: positions and segment bounds are reals, and conversions to `int` are unbounded.
- Progress bar, terminal, keys, pings and signals: user interface and keep-alive with no effect on the modelled state.
- The ad-block branch and the JSON text of outgoing commands: string assembly.
- The types of messages are inputs: `Frames` is told which payloads are an `INVALID_REQUEST`; the run model has all others as a quiet input followed, where the loop ends, by a reconnect.
- The request counter and the status text: no step of the state machine reads them.
- Memory exceptions and the total size of a message beyond what a 64-bit machine can hold (`Messages.Storable`).
- `jump_over` apart from its refusal of unknown wire types: parse calls it for no other.
- `p_bytes`, `p_str`, `cpstr`, the object-array templates, the fixed32 and fixed64 packed writers and the `P3_` macros: not used by CastMessage, or simple length sums.
- What a body outside the input holds, after a stray length prefix on a field that on_cls stores: the memory there is not the input's.
- The callers' loop around `p_varpacket`: the header has none, so reading until the cursor is empty is a function, `Packed.ReadAll`.
- mDNS sockets, timeouts and retries.
- Packed.SizeVarPacket: arrays of 2^32 elements or more are not modelled, because the 32-bit loop counter would never reach their length.
- Packed.OutVarPacket: arrays of 2^32 elements or more are not modelled, because the 32-bit loop counter would never reach their length.
