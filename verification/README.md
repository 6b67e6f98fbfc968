# noad: model and proofs

noad finds the advertisements in a recording of the VDR video recorder. It reads the stream, looks
for logos, black frames and changes of the sound format, and keeps a list of cut marks. This project
models the parts of it that can be stated exactly and proves what they do:

- **Demultiplexer** (`PesStream.dfy`, `PesPrint.dfy`, `PesRoom.dfy`, `PesDemuxer.dfy`). `PesStream` says what a program stream
  means: `Scan` looks at one header, `Run` reads a whole buffer, `Feed` one chunk and `FeedAll` any
  number of chunks. `PesDemuxer` is the resumable parser with its carry buffer and its three states;
  its `DemuxPes` is proved to do exactly what `Feed` says. `PesCuts` and `PesPrint` hold the
  theorems: how far the cutting of the stream into chunks can matter, and the print and parse round
  trip; `PesRoom` says which streams stay inside the carry buffer (ISO/IEC 13818-1, sections 2.4.3.6 and 2.5.3.3).
- **Transport stream** (`TsStream.dfy`). Both ways of taking a payload out of transport packets inside
  one buffer, against a pure specification (ISO/IEC 13818-1, sections 2.4.3.2 and 2.4.3.4).
- **Linked list** (`StableSorting.dfy`, `ObjectList.dfy`). The doubly linked list on the heap, and its
  sort by adjacent moves, which equals a stable insertion sort.
- **Cut marks** (`CutTimes.dfy`, `CutSorting.dfy`, `Marks.dfy`). `CutTimes` is the meaning of a set of
  positions as active and inactive time; `CutSorting` is the sort that swaps contents; `MarkList.Marks`
  is the set on top of the linked list with the operations and the clean-up loops.
- **Time codes** (`Timecode.dfy`). The text form of a frame number and of a mark.
- **Index and cache** (`IndexFile.dfy`, `CacheWindow.dfy`). The index that follows a growing file, and
  the window of a file that may be in the system's cache.
- **Pictures** (`BlankFrame.dfy`, `LogoMask.dfy`, `LogoLines.dfy`). The blank test in the order of an
  interlaced PNG image (RFC 2083, section 2.6), the mask of a logo and its test lines.
- **Sound search** (`Ac3Search.dfy`). The search for the frame where the sound mode changes.

Code that changes state is modelled by classes and methods with the same fields, loops and branches.
Long methods are split at their inner loops, with the cursors as parameters. Ghost fields (`nodes`,
`log`, `file`, `cached`) record what the code does not keep. What comes from outside (file contents,
sizes read, seek results, decoder answers, the logo rectangle) is a parameter.

What the proofs show to be false of the code as it is written is stated with the exact condition
under which it holds, and with an example where it does not:

- How the stream is cut matters exactly when an audio packet with a length field below 3 is
  recognised (`PesCuts.CutIndependentIff`, `PesCuts.ShortAudioExample`); a stream without such bytes can
  be cut anywhere (`PesCuts.CutAnywhere`).
- Some way of cutting a stream without short audio packets makes the parser write behind its carry buffer
  exactly when a recognised audio packet, or a header left in the end, is larger than that
  (`PesRoom.AllFitIff`, `PesRoom.OverrunExample`).
- `getTSPacket` reads the unit start flag after the payload has been moved over it; in an aligned buffer
  the flag is lost for the first packet alone (`TsStream.StartFlagIff`, `TsStream.FirstStartLost`).
- `getActiveFrames` is the number of active frames exactly when no mark lies behind the end and the
  list is not a single mark at 0 of a recording that has frames (`CutTimes.PairSumIff`, `CutTimes.PairSumExamples`).
- `cleanActiveMarks` may leave a short active section (`CutTimes.ShortSectionSurvives`); it leaves none
  exactly when there was none, or when without the first one the marks run long in the shifted pairing
  (`CutTimes.CleanActiveLongIff`).
- A frame number survives its time code unless the whole seconds end between two frames
  (`Timecode.FieldsBack`, `Timecode.EveryFrameBackIff`, `Timecode.HalfwayExamples`).
- An index entry that was incomplete when the file was opened is never read again. The index is right
  exactly when there was none, or it is not complete yet, or memory held the missing bytes by chance
  (`IndexFile.Index.RightIff`, `IndexFile.TornExample`).
- A dark pixel of the last but one column can be taken for an edge (`LogoLines.PixelTakenForEdge`); it is
  exactly when it has the value of the kind of edge that is missing (`LogoLines.PixelTakenIff`).
- Converting an index entry a second time spoils it unless it has no file number and no frame type
  (`IndexEntry.ConvertedTwiceIff`, `IndexEntry.ConvertedTwice`).

## Model

| member | source | states |
|---|---|---|
| PesStream.Scan | mpeg_decoder.cpp:429-671 | what the bytes seen so far mean: more bytes needed, no start code, a fault, or a unit with its size; a unit is longer than its own header exactly for audio packets with a length field below 3 |
| PesCuts.ScanExtend | mpeg_decoder.cpp:342-365 | a verdict reached on a prefix stays the same when more bytes follow, and an undecided prefix never becomes a unit that ends inside it |
| PesCuts.HeadSame | mpeg_decoder.cpp:425-451 | without short audio packets the parser finds the same whether the header is in the carry buffer or in the chunk |
| PesCuts.FeedCut | mpeg_decoder.cpp:373-415 | feeding two chunks after each other equals feeding them as one, from every state |
| PesCuts.FeedAllIsFeed | mpeg_decoder.cpp:311-674 | any number of chunks equals one chunk, for the recognised units, the final state, the remaining count and the carried prefix |
| PesCuts.ShortAudioBreaks | mpeg_decoder.cpp:489-532 | a stream in which a short audio packet is recognised has a place where a cut changes the result |
| PesCuts.CutIndependentIff | mpeg_decoder.cpp:311-674 | all ways to cut a stream agree if and only if no recognised audio packet has a length field below 3 |
| PesCuts.CutAnywhere | mpeg_decoder.cpp:489-532 | a stream in which no audio start code has a length field below 3 can be cut anywhere |
| PesCuts.BytesAccounted | mpeg_decoder.cpp:417-672 | every byte of the stream belongs to exactly one recognised unit, to the carry or to the remaining count |
| PesCuts.ShortAudioExample | mpeg_decoder.cpp:509-532 | twelve bytes that are read differently when cut |
| PesPrint.TicksBack | mpeg_decoder.cpp:573-579 | all 33 bits of a presentation time come back from the five bytes of the header, whatever the bits in front of them |
| PesPrint.StuffRun | mpeg_decoder.cpp:597-607 | up to 16 stuffing bytes are passed over, and no byte more |
| PesPrint.ScanVideo1Packet | mpeg_decoder.cpp:592-627 | a printed MPEG-1 header with any stuffing, with and without buffer size, and with none, one or two time stamps is taken for what it is |
| PesPrint.ScanPacket | mpeg_decoder.cpp:459-671 | every printed packet is recognised as itself, whatever follows it: headers of both kinds, all flags of a video header and all MPEG-1 forms |
| PesPrint.RunLead | mpeg_decoder.cpp:431-451 | bytes that hold no start code are given up one by one, up to the next start code and no further |
| PesPrint.RunEnding | mpeg_decoder.cpp:461-486 | a program end code ends the stream with 1, a start code of something else and a header of neither kind with -1 |
| PesPrint.RunPrinted | mpeg_decoder.cpp:417-672 | a list of printed packets, with other bytes in front of them, is read back in order, ending with an empty carry or with the return value of its ending |
| PesPrint.CutInPayload | mpeg_decoder.cpp:630-668 | a video packet that is cut in its payload goes on as data, any other one is skipped, for as many bytes as are left |
| PesPrint.PrintedRoundTrip | mpeg_decoder.cpp:311-674 | so it is for any cutting of the printed stream into chunks |
| PesDemuxer.Demuxer.NeedBytes | mpeg_decoder.cpp:342-365 | either the cursor sees the wanted number of bytes of the same stream, or all bytes are carried over in the header state |
| PesDemuxer.Demuxer.CopyToHead | mpeg_decoder.cpp:350-359 | the carry buffer holds what it held before, followed by the copied bytes |
| PesDemuxer.Demuxer.PackHeader | mpeg_decoder.cpp:466-487 | finds the end of a header of either kind as the specification does, or the fault |
| PesDemuxer.Demuxer.AudioPacket | mpeg_decoder.cpp:489-532 | the boundary of an audio packet as in the specification |
| PesDemuxer.Demuxer.VideoPacket | mpeg_decoder.cpp:562-627 | the header, the presentation time and the remaining length of a video packet as in the specification |
| PesDemuxer.Demuxer.Mpeg1Header | mpeg_decoder.cpp:592-627 | the same for the older header with its stuffing, buffer size and skip table |
| PesDemuxer.Demuxer.Stuffing | mpeg_decoder.cpp:597-607 | the stuffing loop ends where the specification says, after at most 16 bytes |
| PesDemuxer.Demuxer.OtherPacket | mpeg_decoder.cpp:656-671 | any other packet is skipped by its length |
| PesDemuxer.Demuxer.Resynchronise | mpeg_decoder.cpp:431-451 | one byte is given up, in the chunk or in the carry buffer |
| PesDemuxer.Demuxer.OneUnit | mpeg_decoder.cpp:429-671 | one round of the loop recognises what `Scan` says and leaves the rest of the stream |
| PesDemuxer.Demuxer.Parse | mpeg_decoder.cpp:417-674 | the whole loop ends, with the units, the state and the return value of `Run` |
| PesDemuxer.LastIsRemembered | mpeg_decoder.cpp:573-626 | the time stamp is that of the last video packet that has one, or the old one if none has |
| PesDemuxer.PrintedStamp | mpeg_decoder.cpp:573-626 | after a printed stream it is the one that was printed last, in either kind of header |
| PesDemuxer.Demuxer.DemuxPes | mpeg_decoder.cpp:311-674 | one call refines `Feed`, from the state of the last call or from none behind a reset or at a payload start: same units, same state, count, carry and return value, and the last video time stamp |
| PesDemuxer.Demuxer.DemuxAll | mpeg_decoder.cpp:311-674 | the calls for any chunks of a roomy stream without short audio packets end with the units, the state, the time stamp and the return value of the whole stream, and never overrun the carry buffer |
| PesDemuxer.NextChunk | mpeg_decoder.cpp:336-365 | one more chunk of such a stream fits, and continues what has been read |
| PesRoom.FitsIfRoomy | mpeg_decoder.cpp:342-365 | a stream whose recognised audio packets and final carry fit in the buffer never overruns it, wherever it is cut |
| PesRoom.AllFitIff | mpeg_decoder.cpp:336-365 | all ways to cut a stream without short audio packets stay inside the buffer iff its recognised audio packets and its final carry fit in it |
| PesRoom.OverrunExample | mpeg_decoder.cpp:336-365 | an example: an audio packet of 20049 bytes, cut behind its eighth |
| PesRoom.RoomyByBytes | mpeg_decoder.cpp:489-532 | a stream in which no audio start code announces more than the buffer holds is roomy |
| TsStream.FirstTaken | libmpeg2_decoder.cpp:965-1012 | the first packet of the wanted program, and none before it |
| TsStream.TakenIff | libmpeg2_decoder.cpp:913-946 | by the bits of the header: a packet is taken iff it is of the program, has a payload and an adaptation field that fits, and starts a unit behind a reset |
| TsStream.OnlyThisProgram | libmpeg2_decoder.cpp:913-915 | no byte of another program is taken |
| TsStream.Inspect | libmpeg2_decoder.cpp:913-929 | whether a packet is taken, and where its payload lies behind the adaptation field |
| TsStream.Ts2Pes | libmpeg2_decoder.cpp:894-950 | in place, the buffer begins with exactly the concatenated payloads of the wanted packets of the original buffer, and nothing behind them changes |
| TsStream.Collect | libmpeg2_decoder.cpp:905-948 | a move never reaches a packet that is still to be read |
| TsStream.Search | libmpeg2_decoder.cpp:965-1001 | finds the first taken packet of what is left and the packet number behind it |
| TsStream.GetTsPacket | libmpeg2_decoder.cpp:952-1014 | one payload at the front of the buffer, the next packet number, and no change to any packet behind |
| TsStream.OneCall | libmpeg2_decoder.cpp:952-1014 | one call moves the payload of one taken packet from the rest to what has been delivered |
| TsStream.DeliverAll | libmpeg2_decoder.cpp:952-1014 | called until the packet number reaches the end on an aligned buffer, the deliveries are what TS2PES gives at once |
| TsStream.StartFlagIff | libmpeg2_decoder.cpp:1004-1008 | the reported unit start flag is the one of the packet unless it is in the first slot and its payload begins with other bits |
| TsStream.FirstStartLost | libmpeg2_decoder.cpp:1004-1008 | a first packet whose unit start is not reported |
| TsMux.MuxRoundTrip | libmpeg2_decoder.cpp:894-950 | the payloads of a printed transport stream come back, with any counters and flags, among packets of other programs, without payload or with a bad adaptation field, and noise between packets, with the gate of a reset |
| StableSorting.SortIsStable | tools.cpp:748-766 | the specified sort gives a sorted permutation that keeps the order of equal items, for every strict weak order |
| StableSorting.SwapKeepsSort | tools.cpp:757-761 | swapping two neighbours in the wrong order does not change what the list sorts to |
| StableSorting.SwapRemovesInversion | tools.cpp:757-761 | and removes exactly one inversion, which is why the sort ends |
| StableSorting.NeighboursSorted | tools.cpp:751-765 | a list without a wrong pair of neighbours is sorted |
| ObjectList.ListObject.Append | tools.cpp:623-627 | links two objects |
| ObjectList.ListObject.Unlink | tools.cpp:629-636 | bridges the neighbours of an object |
| ObjectList.ListObject.Index | tools.cpp:638-649 | the place of an object in its list |
| ObjectList.ListBase.Add | tools.cpp:663-670 | appends to the sequence the links represent |
| ObjectList.ListBase.Del | tools.cpp:672-680 | removes exactly that element |
| ObjectList.ListBase.Move | tools.cpp:687-712 | removes at one place and inserts at the other; nothing for a missing object; an object moved to itself is lost and points to itself |
| ObjectList.ListBase.MoveAt | tools.cpp:682-685 | the same by two places, inside or outside the list |
| ObjectList.ListBase.Get | tools.cpp:725-733 | the element at a place, none outside the list |
| ObjectList.ListBase.Count | tools.cpp:735-746 | the length of the sequence |
| ObjectList.ListBase.Clear | tools.cpp:714-723 | the empty list |
| ObjectList.ListBase.Pass | tools.cpp:753-764 | one pass keeps what the list sorts to, removes an inversion if it swaps and proves the list sorted if it does not |
| ObjectList.ListBase.Sort | tools.cpp:748-766 | ends, with the nodes in the order of a stable sort of the old list |
| CutTimes.ToggleFlips | noad.cpp:625-647 | a toggle keeps the marks sorted and distinct and flips activity exactly from its frame on |
| CutTimes.ToggleTwice | noad.cpp:625-647 | a second toggle undoes the first |
| CutTimes.ToggleRun | noad.cpp:625-647 | after any run of toggles from the empty list a frame is active iff an odd number of them was at or before it |
| CutTimes.PairSumIff | vdr_cl.cpp:1027-1049 | the sum over pairs is the number of active frames below the total iff the last mark is not behind the total and the list is not a single mark at 0 with frames behind it |
| CutTimes.PairSumExamples | vdr_cl.cpp:1027-1049 | examples of both ways to fail: a mark at 0 alone, and a mark behind the end |
| CutTimes.GreedyApart | noad.cpp:1353-1382 | the clean-up result is sorted, its neighbours are at least the minimum apart, and two marks are gone for every dropped gap |
| CutTimes.GreedyFlips | noad.cpp:1353-1382 | activity changes exactly inside the dropped gaps |
| CutTimes.DroppedShort | noad.cpp:1363 | every dropped gap is shorter than the minimum |
| CutTimes.GreedyRestart | noad.cpp:1370-1372 | restarting from the front after a deletion gives the same as going on |
| CutTimes.CleanActivePhase | noad.cpp:1384-1429 | nothing is changed if all sections are long; otherwise all gaps behind the first mark are long; parity is kept and no mark is new |
| CutTimes.CleanActiveLongIff | noad.cpp:1384-1429 | every active section that is left is long iff none was short, or the marks without the first short pair run long in the shifted pairing |
| CutTimes.CleanActiveFlips | noad.cpp:1405-1416 | a frame changes its state exactly when it lies inside an odd number of deleted pairs, and two marks go for each pair |
| CutTimes.DeletedShort | noad.cpp:1405-1411 | every deleted pair consists of old marks less than the minimum apart |
| CutTimes.NoShortSections | noad.cpp:1405 | nothing is deleted iff every active section is long |
| CutTimes.ShortSectionSurvives | noad.cpp:1412-1414 | an example: the second of two short sections stays, because the pairing is shifted after the first deletion |
| CutSorting.ExchangeSorts | vdr_cl.cpp:941-954 | swapping contents sorts the marks and loses none |
| CutSorting.ExchangeInserts | vdr_cl.cpp:956-967 | a mark appended to a sorted list is sorted in at its place, the others keep their order |
| CutSorting.InsertCutPositions | vdr_cl.cpp:956-967 | its positions are those of a sorted insertion |
| CutSorting.InsertWithComment | noad.cpp:638-643 | a comment given afterwards belongs to the new mark |
| MarkList.Marks.Sort | vdr_cl.cpp:941-954 | in place on the list: same nodes, contents exchanged, checked flags stay with their nodes |
| MarkList.Marks.Get | vdr_cl.cpp:969-977 | the first mark at a position, none iff there is none |
| MarkList.Marks.GetNext | vdr_cl.cpp:989-997 | the first mark behind a position |
| MarkList.Marks.GetPrev | vdr_cl.cpp:979-987 | the last mark before a position |
| MarkList.Marks.Add | vdr_cl.cpp:956-967 | nothing for a known position; otherwise the sorted list, and the returned node is the last one; in a sorted list it holds the position iff that was known or lies behind all others |
| MarkList.Marks.MarkToggle | noad.cpp:625-647 | deletes the mark or sorts a new one in with its comment; the positions are those of a toggle |
| MarkList.Marks.MoveMark | noad.cpp:649-668 | removes a mark, sorts one in at the new position unless there is one, and gives the mark there the new comment if marks have comments |
| MarkList.MovedPositions | noad.cpp:649-668 | after that the positions are sorted and differ in the old and the new one alone, and the comment stands at the new one |
| MarkList.MovedKeeps | noad.cpp:649-668 | no other mark is changed |
| MarkList.Marks.GetActiveFrames | vdr_cl.cpp:1027-1049 | the sum over pairs of marks, the last one closed by the total |
| MarkList.Marks.DropGaps | noad.cpp:1353-1382 | the restarting loop ends and equals one greedy pass; surviving marks are old ones |
| MarkList.Marks.CleanInactiveMarks | noad.cpp:1350-1382 | so it does for gaps of less than 17 seconds |
| MarkList.Marks.DropSections | noad.cpp:1384-1429 | the loop with its change of phase ends and equals its specification; surviving marks are old ones |
| MarkList.Marks.CleanActiveMarks | noad.cpp:1352-1429 | so it does for sections of less than 60 seconds |
| Timecode.FieldsMeaning | vdr_cl.cpp:1085-1096 | hours, minutes and seconds are the whole seconds of the middle of a frame, and the frame field the whole frames that are left |
| Timecode.RoundNearest | vdr_cl.cpp:1105 | rounding is to the nearest whole number, away from zero in the middle |
| Timecode.FieldsBack | vdr_cl.cpp:1085-1107 | the frame number computed from the fields of a frame is that frame, or one more where the whole seconds end in the very middle between two frames |
| Timecode.EveryFrameBackIff | vdr_cl.cpp:1085-1107 | every frame comes back iff no number of seconds ends between two frames |
| Timecode.HalfwayExamples | vdr_cl.cpp:1085-1107 | frames that do not come back at the rates 29.97 and 12.5 |
| Timecode.OddDenominator | vdr_cl.cpp:1085-1107 | so it does for all whole rates and for all rates over 1001 |
| Timecode.FieldsOfText | vdr_cl.cpp:1094-1101 | the text of a time, with anything behind it that is not a digit, is read back as the fields it shows |
| Timecode.TextShape | vdr_cl.cpp:1094 | the characters of a time: two digits for each field behind the hours, with colons and a point |
| Timecode.PlainNumber | vdr_cl.cpp:1098-1107 | a number alone is a frame number, one colon is not enough for a time |
| Timecode.SignedBack | vdr_cl.cpp:1101 | a number is read with white space and a sign in front of it |
| Timecode.TextOfMark | vdr_cl.cpp:851-857 | the time, the frame number in brackets, the comment behind a blank and the newline of a mark |
| Timecode.TextFits | vdr_cl.cpp:1087-1094 | the buffer of 16 bytes is large enough for the hours of an int of seconds and a frame below 100 |
| Timecode.RoomForInt | vdr_cl.cpp:1087-1094 | and for every frame number that is an int, at up to ten million frames a second |
| Timecode.CutText | vdr_cl.cpp:1094 | a text of more than 15 characters is cut there, and is that of a frame field without its last digits |
| Timecode.TextBack | vdr_cl.cpp:1085-1107 | printed and read again at any rate: the frame with its frame field, less the digits there is no room for; the first frame of its second without |
| Timecode.MarkBackIff | vdr_cl.cpp:851-882 | a mark read from its own text has its position back iff the whole seconds do not end between two frames and the text has room, and its comment iff that is not empty, begins with no white space and does not end in a newline that is stripped |
| IndexEntry.TsLayout | vdr_cl.h:146-153 | where the parts of an entry lie in its 64 bits |
| IndexEntry.PesLayout | vdr_cl.h:138-144 | where the parts of an old entry lie |
| IndexEntry.FromPesBits | vdr_cl.cpp:370-383 | bit by bit, what an old entry becomes: independent for frame type 1 alone |
| IndexEntry.ToPesBits | vdr_cl.cpp:385-397 | bit by bit, what a new entry becomes: type 1 or 2 |
| IndexEntry.ThroughPesIff | vdr_cl.cpp:370-397 | an entry survives the old form exactly as far as its offset and file number are small enough |
| IndexEntry.ConvertedTwiceIff | vdr_cl.cpp:370-383 | a second conversion leaves an entry as it is iff its file number is 0 and its frame type 0 or 128 |
| IndexEntry.ConvertedTwice | vdr_cl.cpp:370-383 | an example: the first frame no longer counts as independent |
| IndexFile.Index.constructor | vdr_cl.cpp:276-360 | the index holds every whole entry of the file, converted once, and at an incomplete one what memory held there, converted |
| IndexFile.Index.ConvertFromPes | vdr_cl.cpp:370-383 | exactly the given range is converted in place |
| IndexFile.Index.Look | vdr_cl.cpp:406-440 | one round takes over the new entries, keeps the old ones and leaves capacity above the last entry |
| IndexFile.Index.CatchUp | vdr_cl.cpp:399-454 | over all rounds the index equals the decoded beginning of the file, each entry converted once; it stops as soon as the wanted entry is there and not before, after nine rounds at most |
| IndexFile.Index.RightIff | vdr_cl.cpp:303-332 | at any time every entry in the index is that of the file iff no entry was incomplete at the start, or it still is, or memory held what was missing |
| IndexFile.TornExample | vdr_cl.cpp:303-332 | an example: the file is followed to its next entry and the first one stays wrong |
| IndexFile.NewestOfGrowing | vdr_cl.cpp:409-410 | with a file that only grows the last state seen decides how far the index reaches |
| IndexFile.FollowsOn | vdr_cl.cpp:399-454 | entries read from an earlier state of the file are right for every later one |
| IndexFile.Index.Get | vdr_cl.cpp:664-689 | place and length of every frame but the last, nothing else |
| IndexFile.Index.FrameFrom | vdr_cl.cpp:533-545 | the first frame at or behind a file and offset |
| IndexFile.Index.GetNextIFrame | vdr_cl.cpp:702-741 | the nearest independent frame in one direction, none if there is none before the end or the safety limit |
| IndexFile.Index.CatchUpInterval | vdr_cl.cpp:780-791 | follows the file; with an interval the frames that are used end before the next independent frame two intervals on, or at the last one |
| IndexFile.Index.GetVideoFileSize | vdr_cl.cpp:793-809 | the sum of the lengths of the frames that are used, as it was at the first call |
| IndexFile.Index.GetIndexForFilepos | vdr_cl.cpp:811-828 | stops at the first frame that begins at or behind the position, and gives that frame or the one before |
| IndexFile.Telescopes | vdr_cl.cpp:793-809 | in one file the lengths add up to the difference of the offsets |
| IndexFile.FilePosition | vdr_cl.cpp:811-828 | the result is the one frame that contains the position, up to the start of the last but one frame, and nothing exactly elsewhere |
| IndexFile.FilePositionAndOffset | vdr_cl.cpp:533-545 | the linear search gives the same frame where one begins, and one more elsewhere |
| IndexFile.WrittenBackIff | vdr_cl.cpp:456-472 | what a recorder writes is read back exactly when it fits the form of the recording |
| CacheWindow.DropsAll | vdr_cl.cpp:1954-1958 | the rounded range covers every byte of the range to be dropped |
| CacheWindow.DropsNoMore | vdr_cl.cpp:1954-1958 | and no byte a page away from it, where the rounded range does not begin below offset 0 |
| CacheWindow.UnbufferedFile.Open | vdr_cl.cpp:1905-1921 | an empty window at the beginning of the file |
| CacheWindow.UnbufferedFile.Seek | vdr_cl.cpp:1961-1967 | a new position; the window still covers what is cached |
| CacheWindow.UnbufferedFile.Invalidate | vdr_cl.cpp:1974-1980 | a position outside of the window drops all of it and starts a new one |
| CacheWindow.UnbufferedFile.AskAhead | vdr_cl.cpp:1990-2004 | what is asked for in advance lies in the window |
| CacheWindow.UnbufferedFile.Shrink | vdr_cl.cpp:2007-2017 | what is cut off the window has been dropped, and nothing near the position is unless the cut reaches back to the first page |
| CacheWindow.UnbufferedFile.Read | vdr_cl.cpp:1969-2024 | everything cached lies in the window after every read, and the window grows only to what was read or asked for; whoever reads on has at least half of the read-ahead in front of him, behind a jump nothing is asked for; a position outside leaves nothing of the window; after a read that gives data the window reaches at most 16 MB back, and cached bytes within 8 MB of the position, up to a page, are kept unless the position had left the window or the first page is cut off |
| BlankFrame.PassesPartition | noaddata.cpp:913-916 | each pixel is visited by exactly one of the seven passes |
| BlankFrame.WidenedIff | noaddata.cpp:938-945 | the widened rectangle holds the pixels within four of the rectangle, but for sides that stay where they are |
| BlankFrame.BlankIff | noaddata.cpp:937-984 | what blank means by the pixels, the sides of the rectangle and the numbers 135, 80 and 35 |
| BlankFrame.NoadData.CheckFrameIsBlank | noaddata.cpp:909-986 | true iff the picture has pixels, none outside the logo is brighter than 135, and, if one is brighter than 80, the average is at most 35; the frame flag says the same |
| BlankFrame.NoadData.RunPass | noaddata.cpp:952-971 | a pass finds a bright pixel or leaves all its pixels looked at |
| BlankFrame.NoadData.GetAvgBrightness | noaddata.cpp:989-1007 | the quotient of the sum and the number of the pixels in every fourth column of every fourth row |
| BlankFrame.AverageBetween | noaddata.cpp:989-1007 | the average lies between any bounds of the sampled pixels |
| BlankFrame.AverageIsMean | noaddata.cpp:989-1007 | the average is the mean, rounded down, of the pixels whose column and row are multiples of four |
| LogoMask.GetLogo.SetDiversions | cgetlogo.cpp:253-278 | in place, every entry is the sign of the change over two columns of the original picture, which makes it a mask; the two last columns keep their pixels |
| LogoMask.GetLogo.UpdateDiversions | cgetlogo.cpp:281-336 | the mask narrowed down by one picture, the exact number of entries left, and the picture to show |
| LogoMask.MaskOfPicture | cgetlogo.cpp:253-278 | by pixels: 1 where the brightness grows over two columns, 2 where it falls, 0 where it does not change |
| LogoMask.StaysInMaskIff | cgetlogo.cpp:281-324 | by pixels: over any run of pictures an entry stays iff in each of them one of its pixels is at least 200 or the change has the same direction |
| LogoMask.ShownPixel | cgetlogo.cpp:326-334 | the picture to show is 255 where the mask has an entry |
| LogoMask.LeftIsCount | cgetlogo.cpp:283-324 | the number returned is the size of the set of entries |
| LogoMask.SurvivesIff | cgetlogo.cpp:281-336 | over any run of pictures an entry survives iff every picture is too bright there or agrees with it |
| LogoMask.OrderDoesNotMatter | cgetlogo.cpp:281-336 | two runs with the same pictures in any order and number give the same mask |
| LogoMask.LeftFalls | cgetlogo.cpp:281-336 | the number of entries never grows |
| LogoLines.LineSearch.NextFall | cgetlogo.cpp:191-199 | the inner loop goes to the next falling edge, or to the end of the row |
| LogoLines.LineSearch.CoupleAt | cgetlogo.cpp:185-202 | one column adds exactly the couple of its rank, and the shared cursor goes on |
| LogoLines.LineSearch.AddPair | cgetlogo.cpp:208-226 | a new cell at the end of the linked couples of a line, after a walk to their end |
| LogoLines.LineSearch.FindCouples | cgetlogo.cpp:181-228 | the linked couples of a row are those of equal rank; there is a line iff there is a couple |
| LogoLines.LineSearch.AddLine | cgetlogo.cpp:229-242 | a line at the end of the linked lines, or as the first one; the couples of all others are untouched |
| LogoLines.LineSearch.SetTestlines | cgetlogo.cpp:163-250 | the linked list grows by one line for each row with couples, in order; the result is the number of all couples |
| LogoLines.CoupledIff | cgetlogo.cpp:185-203 | two columns are a couple iff they have the same rank among the rising and among the falling edges and neither is column 0 |
| LogoLines.RowCoupledIff | cgetlogo.cpp:181-203 | by pixels: a 1 and a 2, neither in column 0 nor in the last one, with as many ones in front of the one as twos in front of the other |
| LogoLines.ColumnsComplete | cgetlogo.cpp:182-199 | every edge has the rank of the number of edges before it |
| LogoLines.RowCouplesAscend | cgetlogo.cpp:181-228 | the couples of a row go from left to right on both sides, so no edge is used twice |
| LogoLines.LineOfRow | cgetlogo.cpp:229-242 | every line holds the couples of its own row |
| LogoLines.LinesComplete | cgetlogo.cpp:229-242 | every row with couples has its line |
| LogoLines.LinesAscend | cgetlogo.cpp:229-242 | the lines are in the order of the rows |
| LogoLines.LineIff | cgetlogo.cpp:229-242 | the lines are exactly those of the rows that have couples |
| LogoLines.CountIsSize | cgetlogo.cpp:205 | the number returned is that of all couples together |
| LogoLines.PixelTakenIff | cgetlogo.cpp:183-202 | the pixel in the last but one column adds a couple iff it has the value of one kind of edge, the other kind has more edges, and the next of those is not in column 0; that couple and no other change |
| LogoLines.PixelTakenForEdge | cgetlogo.cpp:181-194 | examples of both kinds |
| Ac3Search.Search.Probe | mpeg_decoder.cpp:275-281 | goes to the first frame with sound, or to the last one of the range, and knows its mode or still the old one |
| Ac3Search.Search.Narrow | mpeg_decoder.cpp:268-291 | ends for every decoder; if no more than four frames in a row are without sound the ends of the range keep lying on both sides of a change, and the number of calls is logarithmic |
| Ac3Search.Search.FindAc3Start | mpeg_decoder.cpp:262-303 | ends for every decoder with a frame of the range; if no more than four frames in a row are without sound and the last one has the mode, it gives a frame that is followed by one with the mode, with no such frame between it and one that has another mode or begins the range, after a logarithmic number of calls and at most ten more |
| Ac3Search.DenseIff | mpeg_decoder.cpp:275-281 | what it means that no more than some frames in a row are without sound |
| Ac3Search.OneBoundary | mpeg_decoder.cpp:262-303 | with a mode that begins at one frame and lasts, that is the frame before it |

## Left out

- PesDemuxer.Demuxer.DemuxPes: `demux_pid` is 0, so `demuxTS_audio`, which calls the parser packet by packet with another value, is not modelled; its choice of packets is that of `TS2PES`.
- PesDemuxer.Demuxer.AudioPacket: only the boundaries of audio packets; their payload and presentation time are read from the chunk even when the header is in the carry buffer.
- PesDemuxer.Demuxer.DemuxPes: a call that overruns the carry buffer is excluded by its precondition; nothing is said about what the code does after that.
- PesDemuxer.Demuxer.DemuxPes: return values other than 0 end a stream; the state that is left behind then is not described.
- PesStream.Scan: a presentation time whose bytes lie behind the header is an opaque `PtsOutside`, and one in an MPEG-1 header is given as its bytes, because its shifts overflow an int.
- TsStream.DeliverAll: the buffer has a sync byte at every packet and no reset is pending; a single call is proved for every buffer.
- ObjectList.ListBase.Clear: memory is not freed in the model.
- MarkList.Marks.MoveMark: the comment, which the code formats from the old time code, is a parameter.
- MarkList.Marks.MarkToggle: saving the marks to their file is left out.
- Timecode.FieldsBack: floating point numbers are modelled as reals.
- Timecode.TextBack: the whole seconds fit an int; the overflow of numbers that are read is not modelled, nor that of a frame field at more than 2^31 frames a second.
- IndexFile.Index.CatchUp: reading and allocating succeed; capacities and offsets do not overflow an int.
- IndexFile.Index.constructor: opening, allocating and reading succeed.
- CacheWindow.UnbufferedFile.Seek: seeking succeeds; after a failure the position is -1 while the system's own position stays, and the window no longer covers what is read.
- CacheWindow.DropsAll: a range that the rounding makes begin below offset 0 is taken to drop at least its own pages; it may drop any others.
- CacheWindow.UnbufferedFile.Read: writing through the same object is left out.
- BlankFrame.NoadData.CheckFrameIsBlank: the logo rectangle is a parameter, and so are the sizes of the picture buffer.
- Ac3Search.Search.FindAc3Start: the decoder is a function of the number of calls, the frame and the mode known so far; where five or more frames in a row have no sound only the end and the range of the result are proved.
- The video decoder interfaces, the scanning loops, the logo decision and the overlap detection depend on decoded pictures and heuristics without a crisp specification.
- The process file, signals, sockets, options, drawing and scripts are left out.
- The printed diagnosis of an index (`check`), the file with the resume position and the forming of file names are not modelled.
