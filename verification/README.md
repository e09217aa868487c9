# Verification of the VNC server and client cores

This project models the parts of LibVNCServer and LibVNCClient that decide what a viewer sees, and
proves that the viewer sees what the server drew. Everything is checked by `dafny verify dfyconfig.toml`.

- **Regions** (`SpanLists`, `SpanOr`, `SpanAndSubtract`, `Regions`, `Rectangles`, `RegionWalk`): sorted
  lists of bands over sorted lists of spans, their union, intersection and difference by sweeping two
  cursors, the rectangle iterator in all four directions. The operations are exact on sets of points.
- **Copying** (`CopyRects`, `CopyMessages`): rectangles copied in place one after the other equal one
  simultaneous copy if and only if their order is safe; the order in which they are sent is, for every
  displacement. As messages they arrive if and only if they fit the send buffer.
- **Updates** (`UpdateProtocol`, `UpdateLaws`, `UpdateClient`, `ThreadedUpdate`): an abstract step system on
  sets of pixels, whose invariant holds over every run, what its steps owe a client and spare it, and a
  client record whose methods refine them. A second system has the finer interleaving of the output thread.
- **Messages** (`WireRects`, `Encoders`, `UpdateMessages`): a whole FramebufferUpdate, section 7.6.1 of
  RFC 6143: the count in its header, the copies, and the pixels of a region in the encoding the client
  prefers, read by the viewer up to the last byte.
- **Encodings**. Each is proved as a round trip from the framebuffer of the server, through the fixed
  send buffer, to the framebuffer of the client:
  raw (`Pixels`, `UpdateBuffers`, `RawRects`);
  RRE and CoRRE (`Subrects`, `Greedy`, `CoverSearch`, `Background`, `Rre`, `RectMessages`, `Corre`), section 7.7.3 of RFC 6143;
  Hextile (`TestColours`, `Tilings`, `Hextile`, `HextileClient`, `HextileServer`, `HextileRects`), section 7.7.4;
  ZRLE (`Palette`, `ZrleFormat`, `ZrleChoice`, `ZrlePacking`, `ZrleEncode`, `ZrleDecode`, `ZrleRects`), section 7.7.6;
  LZO1X-1 and Ultra (`LzoFormat`, `LzoCompress`, `LzoDecompress`, `Ultra`, `UltraRects`).
  Beside the round trips, what an encoder chooses is tied to the picture alone: which subrectangles are
  found and when they are given up for raw pixels, which colours of a tile are left out, which mode is used.
- **Arithmetic** (`ModArith`, `Des`, `DesLaws`, `DesKeys`, `DesStandard`, `VncAuth`): modular arithmetic on
  64-bit words that wrap around; the DES network with its two schedules, which is proved to compute the
  cipher as FIPS 46-3 has it; and the password file built on it. `Bytes` and `Arithmetic` hold what the
  other modules share.

A picture is a function from positions to colours; `Shown(fb)` is the picture of a framebuffer.
`ShowsPart(now, was, r, pic)` says that `now` is `pic` inside `r` and `was` outside: this is what
every decoder is proved to achieve.

Four places where the code does not do what its name or comment suggests, each with an input and the
exact condition under which it does:

- The in-place copy of a region on the server (`libvncserver/main.c:370`) walks its rectangles in the
  order opposite to the one that is sent. `CopyRects.ServerOrderSpoils` gives a region it spoils,
  `CopyRects.ServerOrderMovesIffSafe` says when it is right, and `UpdateProtocol.CopyKeepsSafeIff` that
  exactly then no client is left with a wrong picture and nothing pending. A single rectangle is always
  copied correctly.
- Copies are put into the send buffer without a test for room (`libvncserver/rfbserver.c:3083-3094`).
  `CopyMessages.CopiesOverrun` gives a region that does not fit, `CopyMessages.SendCopyRegion` the
  condition: behind the header of an update, at most 1874 rectangles.
- The number of rectangles in the header of an update has 16 bits (`libvncserver/rfbserver.c:2917`),
  and one of its values stands for an unknown number. `UpdateMessages.PiecesUnannounced` gives a
  rectangle that is announced as none, `UpdateMessages.AnnouncedIff` says when the number is right.
- The wrapped modular sum (`libvncclient/rfbproto.c:716`) is congruent to the true sum but not always
  its remainder; `ModArith.AddM64Inexact` gives words, `ModArith.AddM64ExactIff` the condition.

## Model

| member | source | states |
|---|---|---|
| `SpanLists.MergePrevious` | libvncserver/rfbregion.c:226-245 | Merging the current span with equal neighbours before it keeps both levels sorted, disjoint and free of empty spans, and keeps every point |
| `SpanLists.MergeNext` | libvncserver/rfbregion.c:247-265 | The same forwards: only the end of the current span moves, no point is gained or lost |
| `SpanLists.EmptyIffNoPoints` | libvncserver/rfbregion.c:206-209 | A well-formed list is the empty list exactly when it has no point, at any depth |
| `SpanOr.OrInsert` | libvncserver/rfbregion.c:287-299 | A source span that lies before the current one is inserted (and merged to its left only) without losing order or points |
| `SpanOr.OrOverlap` | libvncserver/rfbregion.c:302-338 | Two spans that meet are split at their ends, and the common part becomes the union of both sublists |
| `SpanOr.SpanListOr` | libvncserver/rfbregion.c:267-355 | Union of two span lists of any depth is exactly the union of their points, is well formed, and the sweep ends |
| `SpanAndSubtract.SpanListAnd` | libvncserver/rfbregion.c:357-435 | Intersection is exact at any depth, well formed, and the result is true exactly when it is not empty |
| `SpanAndSubtract.SpanListSubtract` | libvncserver/rfbregion.c:437-506 | Difference is exact at any depth, well formed, true exactly when not empty; the sweep ends although splitting and deleting a span can leave both counts as they were |
| `Regions.Region.FromRect` | libvncserver/rfbregion.c:515-533 | A created rectangle is the set of its pixels |
| `Regions.Region.Or` | libvncserver/rfbregion.c:557-560 | The region in place becomes the union, the other one keeps its pixels |
| `Regions.Region.And` | libvncserver/rfbregion.c:552-555 | The region in place becomes the intersection; true exactly when pixels are left |
| `Regions.Region.Subtract` | libvncserver/rfbregion.c:562-565 | The region in place becomes the difference; true exactly when pixels are left |
| `Regions.Region.Offset` | libvncserver/rfbregion.c:567-585 | Moving every span of both levels in place moves every pixel, and the lists stay well formed |
| `Rectangles.RectsCover` | libvncserver/rfbregion.c:682-775 | In any of the four directions the iterator yields rectangles that hold exactly the pixels of the region |
| `Rectangles.RectsDisjoint` | libvncserver/rfbregion.c:682-775 | No two of them share a pixel |
| `Rectangles.RectsSafe` | libvncserver/rfbregion.c:711-721 | In the direction that suits a displacement no rectangle written before is the source of one still to come |
| `RegionWalk.RectangleIterator.Next` | libvncserver/rfbregion.c:723-775 | The iterator with its stack of pointers yields the next rectangle of the list, and stops exactly at its end |
| `RegionWalk.CountRects` | libvncserver/rfbregion.c:211-223 | The recursive count is the number of rectangles the iterator yields, whichever way it walks |
| `RegionWalk.BBox` | libvncserver/rfbregion.c:587-617 | The bounding box is the least rectangle around the pixels, and empty for the empty region |
| `CopyRects.CopyRow` | libvncclient/rfbproto.c:178-188 | One row of an overlapping copy, in the direction chosen by comparing source and destination, reads only pixels not yet overwritten |
| `CopyRects.CopyRect` | libvncclient/rfbproto.c:170-210 | Copying a rectangle in place onto an overlapping one equals copying from a snapshot, for all signs of both displacements |
| `CopyRects.SimultaneousIffSafe` | libvncserver/rfbserver.c:3046-3099 | Disjoint rectangles copied one by one equal one simultaneous copy if and only if no later source meets an earlier destination |
| `CopyRects.SentOrderMovesRegion` | libvncserver/rfbserver.c:3066-3099 | Copied in the order they are sent, every pixel of the region comes from its displaced source as it was before the first copy |
| `CopyRects.ServerOrderSpoils` | libvncserver/main.c:361-388 | The order of the in-place copy on the server is not safe: a region of two bands moved down by one row, with the pixel that ends up wrong |
| `CopyRects.ServerOrderMovesIffSafe` | libvncserver/main.c:361-388 | In the order of the in-place copy on the server a region is moved as a whole if and only if no rectangle written before is the source of one still to come |
| `CopyRects.DoCopyRegion` | libvncserver/main.c:361-388 | The in-place copy of a region: every pixel shows what was at its origin under the order used, and the region moves as a whole whenever that order is safe |
| `CopyRects.OneRectOrigin` | libvncserver/main.c:390-395 | With a single rectangle the order does not matter |
| `CopyRects.DoCopyRect` | libvncserver/main.c:390-395 | The one-rectangle copy on the server moves the rectangle as from a snapshot |
| `UpdateProtocol.DrawKeepsSafe` | libvncserver/main.c:404-418 | Drawing anything and marking it keeps the safety property |
| `UpdateProtocol.ScheduleKeepsSafe` | libvncserver/main.c:272-359 | Scheduling a copy keeps it, whatever copy was pending before, when the server already holds the displaced pixels |
| `UpdateProtocol.CopyKeepsSafeIff` | libvncserver/main.c:361-388 | Copying a region on the server leaves an up-to-date client safe, on every picture, if and only if the order of that copy is safe for the displacement |
| `UpdateProtocol.RequestKeepsSafe` | libvncserver/rfbserver.c:2244-2269 | A request, incremental or not, keeps it |
| `UpdateProtocol.SendKeepsSafe` | libvncserver/rfbserver.c:2713-2807 | An update of any part, executed by the client, keeps it, also when more is painted than had to be |
| `UpdateProtocol.RunsAreSafe` | libvncserver/main.c:272-418 | Over every run: a pixel outside both pending regions is equal at client and server, and a pixel to be copied has its colour at the displaced position of the client |
| `UpdateProtocol.SentIsRequested` | libvncserver/rfbserver.c:2765-2789 | What is sent lies in the requested region, copies with their sources too, and pixels and copies do not overlap |
| `UpdateProtocol.PendingIsKept` | libvncserver/rfbserver.c:2791-2805 | Without slicing, exactly the pending part that was requested is sent, and exactly the rest stays pending |
| `UpdateProtocol.Converges` | libvncserver/rfbserver.c:2730-2805 | From any safe state one full-screen request and one update leave nothing pending on the screen and the client equal to the server |
| `UpdateLaws.RequestRecovers` | libvncserver/rfbserver.c:2259-2269 | Whatever a client shows and is owed, an area asked for without the incremental flag is right after one update |
| `UpdateLaws.AnsweredIff` | libvncserver/rfbserver.c:2750-2763 | A request is answered if and only if something pending has been asked for |
| `UpdateLaws.IdleIsSentNothing` | libvncserver/rfbserver.c:2259-2269 | A client that is owed nothing is sent nothing for an incremental request |
| `UpdateLaws.AnsweredOnce` | libvncserver/rfbserver.c:2791-2807 | An update uses the request up: what is drawn or scrolled afterwards is not sent before it is asked for |
| `UpdateLaws.RequestWaits` | libvncserver/rfbserver.c:2750-2763 | A request that nothing pending answers stays in force: exactly what of it is drawn later is sent |
| `UpdateLaws.DrawingIsSentAlone` | libvncserver/main.c:404-418 | What was drawn is sent as pixels, and nothing else is sent |
| `UpdateLaws.ScrollIsCopied` | libvncserver/rfbserver.c:2774-2790 | A scroll within the screen is sent as copies by its displacement, with no pixels at all |
| `UpdateLaws.ScrollOverScroll` | libvncserver/main.c:289-311 | Of two scrolls by one displacement, pixels are sent exactly for what the second reads of the first: where it was read and where it went |
| `UpdateLaws.ScrollsAreBothCopied` | libvncserver/main.c:282-302 | If the second reads nothing of the first, both are sent as copies and nothing is marked |
| `UpdateLaws.OtherScroll` | libvncserver/main.c:282-311 | By another displacement, pixels are sent exactly for the first scroll and for what the second reads of it |
| `UpdateLaws.DrawnBeforeScroll` | libvncserver/main.c:300-311 | Of what was drawn before a scroll, pixels are sent exactly where it is and where it went |
| `UpdateLaws.RunsWithoutCopies` | libvncserver/main.c:280-353 | Over every run, a client that never announces CopyRect is never sent a copy |
| `UpdateClient.RfbClient.MarkRegionAsModified` | libvncserver/main.c:404-418 | The client record after marking is that of the abstract step |
| `UpdateClient.RfbClient.RetireCopies` | libvncserver/main.c:282-298 | What an earlier pending copy, with the same or another displacement, turns into when a new one is scheduled |
| `UpdateClient.RfbClient.ScheduleCopyRegion` | libvncserver/main.c:280-353 | The region operations, in their order, are the abstract step, for clients with and without CopyRect |
| `UpdateClient.RfbClient.FramebufferUpdateRequest` | libvncserver/rfbserver.c:2244-2269 | The regions after a request, incremental or not |
| `UpdateClient.RfbClient.PrepareUpdate` | libvncserver/rfbserver.c:2721-2807 | The regions chosen for an update and the regions left pending are those of the abstract step, or nothing is sent |
| `UpdateClient.Transmit` | libvncserver/rfbserver.c:2823-3028 | The message of an update brings the screen of the viewer to what the abstract step says, under the conditions on copies, count and lines |
| `UpdateClient.RfbClient.SendFramebufferUpdate` | libvncserver/rfbserver.c:2603-3043 | Bookkeeping of a whole update, and the screen of the viewer after reading its message, tied to the abstract step; the message gets through exactly when the copies fit the send buffer, the rectangles can be counted and no raw line was too long |
| `ThreadedUpdate.RunsLoseNothing` | libvncserver/main.c:447-510 | Over every interleaving of drawing, marking, snapshot, bookkeeping, reading and delivery, a pixel that differs is unmarked, pending, still to be read or on its way |
| `ThreadedUpdate.QuietMeansEqual` | libvncserver/main.c:491-506 | When nothing is pending anywhere, client and server are equal |
| `ThreadedUpdate.AskedIsRead` | libvncserver/rfbserver.c:2259-2269 | Whatever state the threads are in, all pixels asked for without the incremental flag are read in the next update |
| `ThreadedUpdate.DrawersLoseNothingIff` | libvncserver/main.c:404-418 | For every script of drawing and marking: in all interleavings that end quietly a pixel is right if and only if every write that changes it comes before a mark of it |
| `ThreadedUpdate.MarkingFirstLoses` | libvncserver/main.c:404-418 | The run in which marking before drawing loses a pixel, from start to end |
| `LzoFormat.SerializedDecodes` | libvncclient/minilzo.c:2050-2421 | Decoding what a sequence of literal runs and matches is written as gives their text and stops right behind the end marker, whatever follows |
| `LzoFormat.TokenReadsMatch` | libvncclient/minilzo.c:2192-2354 | Each of the match forms, with any length and offset and any two low bits, reads back as that match |
| `LzoFormat.TokenAfterRun` | libvncclient/minilzo.c:2161-2190 | The match of three bytes that only follows a literal run reads back, with any of its offsets and low bits |
| `LzoFormat.TokenAfterFew` | libvncclient/minilzo.c:2335-2360 | So does the match of two bytes that only follows one to three literals |
| `LzoFormat.MatchSaves` | libvncserver/minilzo.c:1788-1874 | Every match takes fewer bytes than it stands for, which needs length 4 beyond the short offsets |
| `LzoFormat.SerializeBound` | libvncserver/ultra.c:82-94 | A stream for n bytes has at most n + n/16 + 4 bytes |
| `LzoCompress.FindMatch` | libvncserver/minilzo.c:1675-1717 | Whatever the work dictionary holds, a match is found exactly when the slot of the hash, or behind a spoilt far position the second slot, holds a usable position whose three bytes agree, four beyond the short offsets; it is then that position |
| `LzoCompress.MatchLength` | libvncserver/minilzo.c:1779-1830 | The match is extended exactly to the first difference or the end of the input |
| `LzoCompress.FlushLiterals` | libvncserver/minilzo.c:1752-1777 | Pending literals, up to three of them or-ed into the bytes of the match before, bring the output to a stream for the input so far |
| `LzoCompress.DoCompress` | libvncserver/minilzo.c:1643-1886 | The main loop keeps the output a stream for the input dealt with; equal bytes are one match behind at most five literals, since each position tried goes into the dictionary |
| `LzoCompress.Compress` | libvncserver/minilzo.c:1888-1941 | For every input and every content of the dictionary the output decodes to the input, uses up exactly its own bytes, and keeps the bound; n equal bytes, from 19 on, take at most 13 + n/255 bytes |
| `LzoDecompress.ReadToken` | libvncclient/minilzo.c:2192-2354 | The branches on the token byte compute the token of the format |
| `LzoDecompress.StoreMatch` | libvncclient/minilzo.c:2389-2408 | Byte by byte copying, overlapping or not, and the literals the token announces |
| `LzoDecompress.Run` | libvncclient/minilzo.c:2102-2421 | The nested loops with their jumps compute the meaning of the stream |
| `LzoDecompress.Decompress` | libvncclient/minilzo.c:2050-2421 | The decoder returns the decoded bytes, touches nothing behind them, and is content exactly when all input is used up |
| `Ultra.SendRect` | libvncserver/ultra.c:82-116 | The compressed rectangle fits the buffer that is allocated for it; equal bytes, from 19 on, take at most 13 and one for every 255 |
| `UltraRects.StripFits` | libvncserver/ultra.c:193-194 | A strip has as many lines as 32768 pixels hold, but at least two, and its size stays far below the limit of an int for every width on the wire |
| `UltraRects.SendOneRectEncodingUltra` | libvncserver/ultra.c:55-169 | Header, length and a packet that decompresses to the pixels of the strip go through the send buffer |
| `UltraRects.HandleUltra` | libvncclient/ultra.c:34-111 | The packet is read, decompressed and shows exactly the rectangle of the picture |
| `WireRects.CopiesPaint` | libvncclient/rfbproto.c:1710-1735 | The CopyRect rectangles of a message, executed in order, show each pixel of its origin |
| `WireRects.PixelsPaint` | libvncclient/rfbproto.c:1548-1937 | Rectangles of pixels behind them show the picture where they are and leave what the copies made elsewhere |
| `WireRects.HandleCopyRect` | libvncclient/rfbproto.c:1710-1735 | The source read from the stream moves the rectangle as a whole |
| `WireRects.HandleRect` | libvncclient/rfbproto.c:1548-1935 | The header is read and the size test passes; the decoder picked by the encoding uses exactly the bytes of the rectangle and shows it |
| `WireRects.HandleRects` | libvncclient/rfbproto.c:1548-1937 | As many rectangles as announced are read, of any encodings, and the screen is what they make of it one after the other |
| `CopyMessages.PutCopy` | libvncserver/rfbserver.c:3077-3094 | Header and source of one copy are written, in range if and only if 16 bytes are left |
| `CopyMessages.SendCopyRegion` | libvncserver/rfbserver.c:3053-3103 | The copies of a region stay within the send buffer if and only if there is room for 16 bytes for each rectangle, and then are all of them in order |
| `CopyMessages.CopiesOverrun` | rfb/rfb.h:532-535 | A well-formed region, a line of 1875 dots, whose copies do not fit an empty update |
| `CopyMessages.SendAndReceive` | libvncserver/rfbserver.c:3046-3103 | Sent and received, the region is moved as a whole, if its copies are in range |
| `Corre.PiecesStand` | libvncserver/rfbserver.c:2829-2858 | The pieces of CoRRE and the strips of Ultra are as many as counted beforehand and make up exactly the rectangle |
| `Encoders.Encoder.SendUltra` | libvncserver/ultra.c:177-247 | A rectangle of any height is sent as strips, as many as the header of the update announced |
| `Encoders.Encoder.SendRectangle` | libvncserver/rfbserver.c:2970-3016 | What is sent is what the preferred encoding makes of the rectangle, and stands for exactly the rectangle; only a raw line longer than the buffer makes it fail |
| `Encoders.SentAsPreferred` | libvncserver/rfbserver.c:2970-3016 | Every rectangle so made has the number of the preferred encoding in its header; only RRE and CoRRE may have raw instead, and only where the search for subrectangles does not stay within its limit |
| `Encoders.Encoder.SendAndReceive` | libvncserver/rfbserver.c:2970-3016 | Any rectangle of any picture arrives unchanged and alone, in each of six encodings |
| `UpdateMessages.CountUpdateRects` | libvncserver/rfbserver.c:2827-2897 | The number counted is the number of rectangles that will be sent, for all six encodings |
| `UpdateMessages.LimitRects` | libvncserver/rfbserver.c:2900-2919 | Exactly when there are more rectangles than the limit, which CoRRE and Ultra do not have, the least box around them replaces them; no pixel is lost, all stay on the screen, and the count is that of what is sent |
| `UpdateMessages.AnnouncedIff` | libvncserver/rfbserver.c:2899-2924 | The header tells the number of rectangles, with no end marker behind them, if and only if they are at most 65535 and those of pixels not exactly 65535 |
| `UpdateMessages.PiecesUnannounced` | libvncserver/rfbserver.c:2917-2921 | A rectangle that CoRRE cuts into 65536 pieces is announced as none |
| `UpdateMessages.SendUpdate` | libvncserver/rfbserver.c:2823-3028 | What is sent is header, copies, pixels and end marker, as counted, each rectangle of pixels as the encoding that is preferred makes it; it stops exactly when the copies leave the buffer, or at a raw line that is too long |
| `UpdateMessages.HandleUpdate` | libvncclient/rfbproto.c:1535-1946 | The message is read to its end and does to the screen what its rectangles do in order |
| `UpdateMessages.Deliver` | libvncserver/rfbserver.c:2823-3028 | From the frame of the server through the message to the screen of the client: copies as a whole, then pixels on top |
| `Pixels.ReadWritten` | libvncserver/hextile.c:81-89 | A pixel of 8, 16 or 32 bits reads back as it was written |
| `Pixels.FillRectangle` | libvncclient/rfbproto.c:131-146 | Exactly the rectangle takes the colour |
| `UpdateBuffers.UpdateBuffer.SendUpdateBuf` | libvncserver/rfbserver.c:3253-3267 | Flushing changes nothing of what the client gets |
| `UpdateBuffers.UpdateBuffer.PutAll` | libvncserver/rre.c:154-171 | The chunked copy puts all bytes in order through a buffer of fixed size, and ends |
| `UpdateBuffers.HeaderReadsBack` | libvncserver/rfbserver.c:3128-3135 | A rectangle header reads back field by field |
| `RawRects.SendRectEncodingRaw` | libvncserver/rfbserver.c:3109-3173 | The raw rectangle is sent line by line through the buffer, and fails exactly when one line is longer than the whole buffer |
| `RawRects.CopyLines` | libvncclient/rfbproto.c:148-167 | The lines of a buffer land in their rows and nowhere else |
| `RawRects.HandleRaw` | libvncclient/rfbproto.c:1688-1708 | Reading as many lines at a time as the buffer holds fails exactly when bytes are missing, and else shows every pixel |
| `RawRects.RawReadsBack` | libvncclient/rfbproto.c:1688-1708 | Raw pixels of a picture show the picture |
| `CoverSearch.FindSub` | libvncserver/rre.c:216-248 | What is found at a pixel is the bigger of two rectangles of its colour told by the picture alone, the widest from the top row and the tallest from the left column |
| `Subrects.CoverGrows` | libvncserver/rre.c:259-272 | Taking a rectangle of one colour and painting it over with the background keeps the cover exact and disjoint |
| `CoverSearch.CoverPixel` | libvncserver/rre.c:215-273 | One turn of the scan: taken, passed over, or given up because the next rectangle would not pay |
| `CoverSearch.Cover` | libvncserver/rre.c:193-278 | The greedy rectangles are those the picture determines, pairwise disjoint, of one colour each, and cover exactly the pixels that are not background; fewer than the pixels when the background occurs; the attempt is given up if and only if the whole of them would pass the limit |
| `Greedy.ChosenIsUnique` | libvncserver/rre.c:216-248 | The picture leaves one choice of rectangle at a pixel |
| `Greedy.SearchIsPrefix` | libvncserver/rre.c:213-275 | Every search, however far it gets, is a start of the complete one: which rectangles are found, and how many, is determined |
| `Greedy.GivenUp` | libvncserver/rre.c:255-257 | A search left when the next rectangle is too much would not have paid |
| `Greedy.OneRectangle` | libvncserver/rre.c:182-188 | One rectangle of another colour on the background is found as that one rectangle, wherever it lies |
| `Subrects.CoverIsMonochrome` | libvncserver/rre.c:219-228 | Every pixel of a rectangle of the cover has its colour in the picture |
| `Background.GetBgColour` | libvncserver/rre.c:288-329 | The background occurs in the tile; for 8-bit pixels no colour occurs more often, otherwise it is the colour of the first pixel |
| `Rre.MessageReadsBack` | libvncclient/rre.c:33-66 | A message of any subrectangles reads back as itself and takes exactly its own bytes |
| `Rre.HandleSubrects` | libvncclient/corre.c:33-68 | On bytes whose subrectangles lie inside the rectangle (and, for CoRRE, fit the buffer of the client), both decoders fail exactly when the message is cut short, and else paint background and rectangles in order |
| `Rre.CoverShows` | libvncclient/rre.c:48-63 | Painting a cover of a picture shows the picture |
| `RectMessages.SubrectEncode` | libvncserver/corre.c:224-306 | Every field of the message holds its value, the count too, and a CoRRE message fits the buffer of the client; background and rectangles are those of the search, which is given up exactly when it would pass the limit |
| `RectMessages.SendRect` | libvncserver/rre.c:69-174 | The message sent describes the rectangle by what the search finds; raw pixels are sent instead only if the search, on the background there is, does not stay within the limit |
| `RectMessages.OneColourIsBackground` | libvncserver/rre.c:69-174 | A rectangle of one colour is always sent as that background with no subrectangle |
| `RectMessages.MessageIsTrusted` | libvncclient/corre.c:50-65 | What the server sends stays within what the client takes for granted |
| `RectMessages.HandleRect` | libvncclient/rfbproto.c:1737-1772 | The client reads the header, picks the decoder and shows exactly the rectangle of the picture |
| `RectMessages.SendAndReceive` | libvncclient/rre.c:33-66 | Any rectangle of any picture arrives unchanged and alone in RRE or as raw pixels |
| `Corre.PiecesPartition` | libvncserver/corre.c:71-91 | The recursion splits a rectangle so that every pixel is in exactly one piece and no other pixel in any |
| `Corre.PiecesAreSmall` | libvncserver/corre.c:71-91 | Every piece lies inside, is not empty and keeps both limits |
| `Corre.PiecesAreCounted` | libvncserver/rfbserver.c:2829-2842 | There are as many pieces as the header of the update announced |
| `Corre.SendRectEncodingCoRRE` | libvncserver/corre.c:71-91 | One message for each piece, in order, each as the search makes it |
| `Corre.SendAndReceive` | libvncserver/corre.c:71-91 | A rectangle of any size arrives unchanged |
| `TestColours.TestColours` | libvncserver/hextile.c:299-338 | Solid means one colour, mono at most two; the background occurs in the tile, in a mono tile at least as often as the foreground, and otherwise it is the more frequent of the first two colours up to the third |
| `HextileServer.PlanKeeps` | libvncserver/hextile.c:142-168 | The colours written or left out are readable by every client that carries what the server remembers, and afterwards they agree again |
| `HextileServer.PutHead` | libvncserver/hextile.c:138-168 | The flag byte is completed in place while the colours are put behind it |
| `HextileServer.FindSubs` | libvncserver/hextile.c:195-290 | The subrectangles are those of the search, fit their half bytes, and their count fits one byte; they are given up exactly when they would take more than raw pixels |
| `HextileServer.PlanBytes` | libvncserver/hextile.c:124-128 | No tile takes more than 1 + (2 + 256) pixels of bytes, which the flush test reserves |
| `HextileServer.SendTile` | libvncserver/hextile.c:115-188 | One tile appended to the stream shows its pixels, within the reserve, and keeps client and server in agreement; it is the tile of the colours found and the rectangles searched, with only the colours that changed, and raw exactly when those would take more |
| `HextileServer.OneColourTurn` | libvncserver/hextile.c:138-150 | A tile of one colour takes one byte if the client has that background, and else one and a pixel |
| `HextileRects.SendHextiles` | libvncserver/hextile.c:105-192 | The tiles of the whole rectangle, each what its turn makes of it, flushing as needed, readable from any initial client colours |
| `HextileRects.OneColourRect` | libvncserver/hextile.c:105-192 | A rectangle of one colour takes a byte for each tile and one pixel, whatever its size |
| `Hextile.FlagsReadBack` | rfb/rfbproto.h:710-714 | The flag bits read back |
| `Hextile.HandleTile` | libvncclient/hextile.c:54-120 | One tile is read exactly, shown, and leaves the colours that the format says in the variables of the client |
| `HextileClient.HandleHextile` | libvncclient/hextile.c:33-125 | The tile loops show the whole rectangle and use up exactly its bytes |
| `HextileRects.SendAndReceive` | libvncclient/hextile.c:33-125 | Any rectangle of any picture arrives unchanged, whatever bg and fg held before |
| `Palette.PaletteHelper.Init` | libvncserver/zrlepalettehelper.c:27-33 | After initialisation the palette is empty, whatever the tables held |
| `Palette.PaletteHelper.Probe` | libvncserver/zrlepalettehelper.c:38-41 | Probing stays inside the tables and ends after at most as many steps as colours are stored |
| `Palette.PaletteHelper.Insert` | libvncserver/zrlepalettehelper.c:35-49 | The palette is the list of distinct colours in order of first insertion; beyond the maximum only the count goes on |
| `Palette.PaletteHelper.Lookup` | libvncserver/zrlepalettehelper.c:51-62 | The rank of a colour, or -1 exactly when it is absent |
| `ZrleEncode.Scan` | libvncserver/zrleencodetemplate.c:143-163 | The counts are those of maximal runs; a final size not above the maximum means every pixel is in the palette, and above it that there are more colours, or just as many and another run behind the last new one |
| `ZrleEncode.Choose` | libvncserver/zrleencodetemplate.c:178-214 | The mode chosen has the least estimate of those possible, raw unless another is strictly better |
| `ZrleChoice.NextCode` | libvncserver/zrleencodetemplate.c:230-256 | What is written for a run, two pixels of a palette included, is the format |
| `ZrleEncode.PutRuns` | libvncserver/zrleencodetemplate.c:226-256 | The loop over runs writes the run-length form of the tile |
| `ZrleEncode.RowStep` | libvncserver/zrleencodetemplate.c:278-287 | The accumulator keeps the indices not yet written in its low bits, whatever is left above them |
| `ZrleEncode.PutRows` | libvncserver/zrleencodetemplate.c:262-292 | The packed rows, each starting at a byte of its own |
| `ZrleEncode.EncodeTile` | libvncserver/zrleencodetemplate.c:126-315 | The bytes of a tile are those of one of the modes of the format, and at most twice the bytes of its pixels; the mode is solid for one colour, and else one that the counts of colours and runs of the pixels estimate to be no dearer than any that is considered |
| `ZrleEncode.CollectedCount` | libvncserver/zrlepalettehelper.c:35-49 | The palette is considered exactly for fewer than 127 colours, or for 127 if no run follows the one that brings the last of them |
| `ZrleChoice.WrittenAsEstimated` | libvncserver/zrleencodetemplate.c:178-214 | For every mode the estimate is a lower bound of the bytes written, and short by no more than a byte for every 255 pixels and every row |
| `ZrleChoice.ChosenIsNearlyShortest` | libvncserver/zrleencodetemplate.c:174-214 | No legal way of writing a tile is shorter than the chosen one by more than that; only with 127 colours may a palette be missed |
| `ZrleChoice.TileIsShort` | libvncclient/zrle.c:90-108 | The bound holds although the estimate ignores row padding and chained lengths |
| `ZrlePacking.ShiftHolds` | libvncserver/zrleencodetemplate.c:281-282 | Shifting an index in keeps the low bits right modulo a byte |
| `ZrlePacking.ExtractAt` | libvncclient/zrle.c:313-321 | Every index comes out of its packed byte by shift and mask |
| `ZrleDecode.HandleRow` | libvncclient/zrle.c:313-324 | A packed row is unpacked and its padding skipped |
| `ZrleDecode.PaintRun` | libvncclient/zrle.c:348-357 | A run is painted across row ends, and is used up exactly |
| `ZrleDecode.ReadLength` | libvncclient/zrle.c:339-347 | The chained bytes of a length read back as that length, and the test for the end of the buffer does not fire |
| `ZrleDecode.HandleRuns` | libvncclient/zrle.c:328-412 | Plain and palette run lengths show the pixels of the tile, and none of the four tests for the end of the buffer fires |
| `ZrleDecode.HandlePaletted` | libvncclient/zrle.c:291-412 | Packed and run-length tiles: the length tests before the palette pass, and the unused type does not occur |
| `ZrleDecode.HandleZRLETile` | libvncclient/zrle.c:236-416 | On a buffer that holds the tile the decoder returns exactly the number of bytes the encoder wrote, never a negative result, and shows the pixels, in all modes |
| `ZrleRects.EncodeRect` | libvncserver/zrleencodetemplate.c:99-123 | The tiles of a rectangle in order, each in a mode to be chosen for it, together at most twice the bytes of its pixels |
| `ZrleRects.OneColourRect` | libvncserver/zrleencodetemplate.c:165-171 | A rectangle of one colour takes a byte and a pixel for each tile |
| `ZrleRects.HandleTiles` | libvncclient/zrle.c:191-212 | The tile loop never sees a negative result, shows the rectangle and leaves all else untouched |
| `ZrleRects.HandleZRLE` | libvncclient/zrle.c:83-224 | Decoding fails exactly when the tiles do not fit the raw buffer |
| `ZrleRects.SendAndReceive` | libvncclient/zrle.c:83-224 | Any rectangle of any picture arrives unchanged within the room the client sets aside |
| `ModArith.AddM64Congruent` | libvncclient/rfbproto.c:714-716 | The sum that wraps around is congruent to the true sum for all words |
| `ModArith.AddM64ExactIff` | libvncclient/rfbproto.c:716 | It is the true remainder if and only if the sum does not wrap or the correction does not carry over the modulus |
| `ModArith.AddM64Inexact` | libvncclient/rfbproto.c:716 | Words for which it is not |
| `ModArith.AddM64Exact` | libvncclient/rfbproto.c:716 | It is exact for summands below the modulus |
| `ModArith.MulM64` | libvncclient/rfbproto.c:718-728 | The product is congruent, and exact when the second factor is below the modulus |
| `ModArith.PowM64` | libvncclient/rfbproto.c:730-740 | The power is congruent, and exact when the base is below a modulus above one |
| `ModArith.KeyExchange` | libvncclient/rfbproto.c:777-783 | Both sides compute the same key |
| `Des.OutUndoesIn` | libvncserver/d3des.c:339-404 | The output bit swaps undo the input bit swaps with the halves exchanged |
| `Des.RoundsUndone` | libvncserver/d3des.c:359-384 | Eight double rounds with the schedule read backwards undo eight double rounds, for any contents of the S-boxes |
| `Des.DecryptionIsBackwards` | libvncserver/d3des.c:74-130 | The decryption schedule is the encryption schedule reversed pair by pair, through cookey, for every key |
| `Des.DecryptEncrypt` | libvncserver/d3des.c:150-159 | Decryption undoes encryption for every key and block |
| `Des.EncryptDecrypt` | libvncserver/d3des.c:150-159 | Encryption undoes decryption |
| `DesStandard.CipherIsStandard` | libvncserver/d3des.c:333-406 | For every key, block, direction and contents of the tables: initial permutation, sixteen rounds of the standard with the keys it prescribes, halves exchanged, permutation undone |
| `DesStandard.InStageIsPermutation` | libvncserver/d3des.c:339-357 | The bit swaps before the rounds are the initial permutation, with both halves turned by one place |
| `DesStandard.HalfRoundIsStandard` | libvncserver/d3des.c:360-371 | The eight look-ups of a half round are those of the expanded half and the key, bit by bit |
| `DesStandard.RoundsAreStandard` | libvncserver/d3des.c:359-384 | The eight turns of the loop are sixteen rounds |
| `DesStandard.ScheduleIsStandard` | libvncserver/d3des.c:74-130 | The words of the schedule hold the selected and shifted bits of the key that the standard gives to each round, the bits of every byte of the key in reverse |
| `DesLaws.Complementation` | libvncserver/d3des.c:333-406 | Complementing key and block complements the result, in both directions and for any contents of the tables |
| `DesKeys.SameScheduleIff` | libvncserver/d3des.c:3-5 | Two keys give the same schedule if and only if they agree in the seven low bits of each byte |
| `Des.Cipher.DesKey` | libvncserver/d3des.c:74-108 | The loops fill the schedule of the key and direction |
| `Des.Cipher.Cookey` | libvncserver/d3des.c:110-130 | The words of a raw schedule are rearranged pair by pair |
| `Des.Cipher.DesFunc` | libvncserver/d3des.c:333-406 | The in-place rounds compute input stage, rounds and output stage |
| `Des.Cipher.Des` | libvncserver/d3des.c:150-159 | A block is encrypted, also in place, and nothing around it changes |
| `VncAuth.StoreAndLoad` | libvncserver/vncauth.c:71-142 | A stored password loads back as its first eight bytes, filled up with zeros |
| `VncAuth.EncryptAndStorePasswd` | libvncserver/vncauth.c:71-107 | What is stored is the padded password encrypted under the fixed key; a file that cannot be opened stays as it was and the result is 1 |
| `VncAuth.DecryptPasswdFromFile` | libvncserver/vncauth.c:116-142 | A file that is too short gives nothing; else the eight bytes are decrypted and a zero follows |
| `Des.InUndoesOut` | libvncserver/d3des.c:339-404 | The input bit swaps undo the output ones |
| `Des.CryptUndone` | libvncserver/d3des.c:333-406 | A block through the network and back with the schedule reversed is the block again |
| `Subrects.CoverPaints` | libvncserver/rre.c:212-275 | With nothing but background left, the rectangles painted over it are the picture |
| `ZrleRects.EncodeTileAt` | libvncserver/zrleencodetemplate.c:104-120 | The pixels of a tile, taken in reading order, are encoded as that tile of the picture |
| `ZrleDecode.RawIsFlat` | libvncclient/zrle.c:281-282 | Raw pixels copied row by row are the pixels in reading order |
| `ZrleChoice.RunsAreEstimated` | libvncserver/zrleencodetemplate.c:188-202 | The estimate for run lengths is short only by the bytes that lengths beyond 255 take |
| `RectMessages.CoverIsWritable` | libvncserver/rre.c:250-253 | Every rectangle of the cover fits its fields of 16 or 8 bits |
| `RectMessages.LimitIsEnough` | libvncserver/corre.c:287-289 | The limit on the encoding bounds the count and, for CoRRE, keeps the message within the buffer of the client |
| `HextileServer.CountFitsByte` | libvncserver/hextile.c:287 | The count fits one byte because a background pixel is no corner of a rectangle |
| `HextileServer.MonoIsForeground` | libvncserver/hextile.c:153-164 | In a tile of two colours every rectangle has the foreground colour |
| `Palette.PaletteHelper.ProbesAreFew` | libvncserver/zrlepalettehelper.c:38-41 | Taken slots in a row hold different colours, so there are no more than are stored |

## Left out

- Region lists are sequences with a cursor rather than linked nodes: that a list never shares a node with another, and the unlinking itself, is not captured.
- Framebuffers are two-dimensional arrays; padding at the end of a row and translation between pixel formats are not part of this model, both ends use the same format.
- Cursor drawing and hiding in the framebuffer, which only enlarges the modified region, and server-side scaling.
- `sraRgnPopRect`, the XOR and print routines of regions, and the pen, text and file-transfer messages.
- Progressive updates: the slice is a parameter of the update, its choice from a timer is not part of this model.
- UpdateBuffers.UpdateBuffer.SendUpdateBuf: the socket takes everything; a write that fails, and the closing of the client that follows, are not part of this model.
- UpdateClient.RfbClient.SendFramebufferUpdate: the pseudo-rectangles for the cursor, the keyboard and the lists of messages and encodings can make an update necessary, but are not part of its message; neither is a change of the framebuffer's size. A message whose copies leave the buffer is followed up to the first write that does.
- UpdateMessages.SendUpdate: the encodings are raw, RRE, CoRRE, Hextile, Ultra and ZRLE; Zlib, Tight and ZYWRLE are not part of this model, nor is what a client does with a message whose rectangles are miscounted.
- Sizes that the sources keep in an `int` (`libvncserver/rre.c:82`, `libvncserver/corre.c:114`, `libvncserver/ultra.c:69`, `libvncclient/zrle.c:90`) are unbounded here; framebuffers are taken to stay below 2^31 bytes, for ZRLE below 2^30, which its contracts require.
- ZrleRects.SendAndReceive: rectangles whose raw buffer, twice the bytes of their pixels, would reach 2^31 are not covered.
- ZrleRects.HandleZRLE: zlib is taken to hand on the bytes it is given, so its errors do not occur; nor are the ZRLE variants of 15 and 24 bits part of this model, or the warning for a run that passes the end of a tile.
- Rre.HandleSubrects: bytes whose subrectangles leave their rectangle, or do not fit the buffer of a CoRRE client, are not covered, as the decoders do not test for them.
- Decoders of Hextile and of the raw pixels inside ZRLE are given whole streams; that each of their reads stays inside the stream is proved, so that they could not end early.
- The scanning loops of the subrectangle encoders read one pixel past a row before comparing the column; the model compares first, the value read there is never used.
- Hextile and RRE write each subrectangle as it is found; the model finds all of them and then writes, what was written being taken back when the encoding is given up.
- The subrectangles found are proved to be those of the greedy search, but that there are few of them is not claimed, as the source does not claim it either. Which of several equally frequent 8-bit colours becomes the background is left open.
- LzoCompress.Compress: how much is saved is stated for equal bytes only; on other inputs a collision in the dictionary can hide a match, as in the source.
- LZO: the branches for LZO1Y, LZO1Z and a preset dictionary, the copies of four bytes at a time, and the bounds-checked decoder; the unchecked decoder is given streams that have a meaning.
- LzoDecompress.Decompress: says nothing about streams that are faulty, which the unchecked decoder must not be given.
- DesStandard.CipherIsStandard: the contents of the S-box tables are a parameter, as in the whole of the model of DES; that the tables hold the standard's boxes is not claimed. Words are 32 bits wide, as the values kept in the wider `unsigned long` are masked wherever they matter.
- ModArith.MulM64: says congruent only when the second factor is not below the modulus, as the sum it is built on is not exact there.
- UpdateProtocol.ScheduleKeepsSafe: takes as given that the server already holds the displaced pixels; `UpdateProtocol.CopyKeepsSafeIff` says when the copy on the server provides them.
- With copy regions, an update is one atomic step, as in the event loop; the finer interleaving is modelled for plain modifications.
- Authentication messages, security handlers, the HTTP server, TLS and the select loops.
