# Verification of the Guacamole port's server libraries

A Dafny model of the parts of this repository whose correctness is hardest to see
by reading, and proofs of what they are for. Every module stands for one or two
source files. Code that changes state in place is modelled by classes, arrays and
loops; each such method is proved against a specification on values, and lemmas
relate those specifications.

## What is modelled

**The surface pipeline** (`Rects`, `Pixels`, `Argb`, `Remote`, `Accounts`,
`Surfaces`, `Copies`, `Pictures`, `Sessions`, `Divergences`). A surface draws into a
backing buffer and remembers, in a dirty rectangle and a queue of at most 256 rectangles, what the
remote display still lacks. `Remote` says what the display shows after the
instructions sent so far. The invariant is conservation: wherever display and
buffer differ, the pixel is pending. `Pictures` says what a run of calls draws, without
queues or a display, and `Sessions` concludes, over every run on any number of surfaces,
that a flush makes the display show that picture. Pixel loops work on two-dimensional arrays and are
proved to combine all pixels of a rectangle at once, also when source and
destination overlap.

**The wire protocol** (`Utf8`, `Base64`, `Protocol`, `Grammar`, `Feeding`,
`Parsers`, `Instructions`, `Iconv`). `Protocol` writes instructions through a handler that may
take any part of what it is given. `Grammar` is the parser as a machine over the whole
stream, and `Feeding` drives it with pieces; `Parsers` is the real one, which reads pieces into a buffer of 32768 bytes,
puts NULs into it and shifts it while holding pointers into it, and takes the
same steps. `Instructions` joins both ends.

**The palette** (`Palettes`): linear probing over 4096 buckets agrees with the
distinct colours numbered by first appearance.

**The packet ring** (`Rings`): the queue between processes refines a first-in
first-out stream of bytes.

**Allocation and lifecycle** (`Pools`, `Streams`, `Lists`, `ProcessMaps`,
`InputStreams`, `Targets`, `StreamHandlers`): pools of integers and the identifiers over them,
the bucketed map of processes over intrusive lists, and the streams a user opens.

## Main results

- Convergence: `Sessions.Run`, and from allocation `Sessions.Session`: the display comes
  to show the picture that the calls describe. They rest on `Surfaces.Surface.FlushQueue`
  (conservation and termination of the flush) and `Copies.CopyRegion` (exactly when a
  copy is shown).
- Overlapping transfer is simultaneous, and changed regions are the smallest:
  `Pixels.Transfer`, `Pixels.Put`, `Pixels.SetRect`.
- Clip-and-split tiles the difference: `Rects.SplitUntilZero`.
- Parsing undoes printing under every chunking: `Grammar.ReadBackIff`,
  `Parsers.Parser.Read`, `Instructions.ReceiveAll`; with its limits, `Feeding.DivisionIff`
  and `Instructions.ReadAtLimit`.
- Base64 round trip, up to decoding in the parser's buffer: `Base64.DecodeUndoesEncode`,
  `Instructions.ExchangeBlob`.
- Encodings: `Iconv.RoundTrip`, `Iconv.ReadUndoesWriteIff`; UTF-8 byte by byte:
  `Utf8.EncodedIff`.
- The palette agrees with the set of colours: `Palettes.Alloc`, `Palettes.WriteRows`.
- The ring is first in, first out: `Rings.Converse`, `Rings.Ring.MultiRead`.
- Pools and identifiers over all runs: `Pools.AllRuns`, `Pools.IssuedIs`,
  `Streams.Slots.Alloc`.
- The process map refines a finite map: `ProcessMaps.ProcessMap.Create`,
  `ProcessMaps.ProcessMap.Remove`.
- Streams of a user have a lifecycle, and the right handler is told: `InputStreams.AllRuns`,
  `InputStreams.LawfulIff`, `Targets.BlobGoesTo`, `Targets.OpeningGoesTo`.

## Where the code does less than its documentation suggests

- `copy` is sent as OVER without clearing. It shows what the buffer holds, whatever the
  display shows, exactly if every source pixel is opaque (`Copies.CopyAgreesIff`; for a
  call onto an opaque surface, `Copies.Copy`; a failing run,
  `Divergences.TransparentCopy`).
- A `transfer` between two surfaces updates the buffer before the flush and lets the
  display apply the function again. Where the target was pending this agrees exactly for
  idempotent functions (`Copies.TransferAgreesIff`; for each of the others, a run
  that fails when its images arrive as they are, as PNG images do,
  `Divergences.TransferTwice`).
- JPEG and WebP rectangles are widened to their grid after the opacity check. They are
  delivered as they are exactly if the widened rectangle is opaque
  (`Accounts.SentExactlyIff`), which the check settles exactly if widening changes
  nothing (`Accounts.WideningFailsIff`; otherwise a pixel beside it comes out black,
  `Accounts.WideningPaintsNeighbours`).
- `resize` forces the alpha of kept pixels in the buffer but not on the display. The two
  stay in step exactly if, before the call, every kept pixel is opaque or still to be sent
  (`Surfaces.Surface.Resize`, `Accounts.ResizedInStep`; a failing run,
  `Divergences.ResizeNew`).
- `set` and `transfer` report an unchanged rectangle of one pixel as changed
  (`Pixels.Tight`), and touching rectangles count as intersecting (`Rects.ApartIff`).
- The BLACK transfer function writes opaque black, unlike WHITE and the others, which
  work on all 32 bits (`Argb.TransferFunction.ApplyBits`).
- Blending is documented as the Porter-Duff operator on premultiplied components, but
  lacks a division by 255. Where it is that operator is `Argb.BlendedExactIff`.
- An instruction of 64 elements fails exactly if a piece read ends between the last
  element's dot and the end of the instruction; shorter ones never fail for this reason,
  longer ones always do (`Feeding.DivisionIff`, `Feeding.TwoPiecesIff`,
  `Instructions.ReadAtLimit`).
- The bucket macro has no parentheses: the remainder is taken by 65536 and then
  doubled, so half of the buckets stay empty (`ProcessMaps.BucketOf`).
- Freeing a layer returns its index, not the value taken from the pool. After any such
  call, allocating enough layers gives two of them the same index
  (`Pools.FreeLayerCollides`).
- A stream whose kind is unsupported is acknowledged as such but left open, so later
  blobs and ends may reach a user's general handlers without a begin; which users are
  safe is `StreamHandlers.HandlersSeeLifecycleIff`.
- Four CP-1252 bytes without a character do not survive a round trip
  (`Iconv.Cp1252ByteIff`).

## Model

| member | source | states |
|---|---|---|
| Sessions.Run | common/src/surface.c:1234-2142 | over every run of draw, paint, set, copy, transfer, clip, reset clip, resize and flush calls on any number of surfaces, the buffers come to hold the picture that the calls describe, all images sent are honest and made from a layer at some moment of the run, and after a final flush the display shows that picture, provided that the images arrive as they are (PNG images do) and copied regions, pixels kept by a resize and functions transferred between surfaces are such that the display can follow; opaque runs always end so |
| Sessions.Session | common/src/surface.c:1234-2142 | the same from allocation, when all surfaces are transparent |
| Sessions.Step | common/src/surface.c:1374-2142 | every call changes the surface it is made on as the picture changes and no other; all surfaces stay in step, so that a pixel that differs from the display lies in the dirty rectangle or a queued one, if the images of the call arrive as they are and the display can follow the call |
| Sessions.FlushAll | common/src/surface.c:2036-2142 | flushing surfaces in step leaves the display showing all of their buffers if the images arrive as they are, and changes no buffer |
| Pictures.OpaqueRun | common/src/surface.c:1374-2142 | a run that starts opaque, fills with opaque colours, enlarges nothing and transfers by functions that keep pixels opaque and, between surfaces, are idempotent stays opaque at every moment, and the display can follow each of its calls |
| Pictures.AfterAt | common/src/surface.c:1374-1766 | draw, paint and set change a pixel exactly if it lies within what is asked for and within the clip: to the blend with the image, to the image without its alpha channel, to the colour where the mask is not fully transparent, or to the colour |
| Pictures.BlittedPlaces | common/src/surface.c:1485-1698 | the picture after a copy or transfer, pixel by pixel |
| Sessions.NewSurface | common/src/surface.c:1234-1279 | a new surface filled with an opaque colour is in step |
| Surfaces.Surface.FlushQueue | common/src/surface.c:2036-2122 | the flush ends although its loop appends to the queue it runs through, with nothing dirty and an empty queue; every sent rectangle lies inside the surface and together they cover all that was pending inside it |
| Surfaces.Surface.FlushEntry | common/src/surface.c:2055-2112 | one turn flushes its own entry, leaves earlier entries alone, queues or sends what it gathered, and never exceeds the 256 places |
| Surfaces.Surface.Gather | common/src/surface.c:2061-2082 | the inner loop consumes the entry it starts at and loses no pending pixel |
| Surfaces.Surface.Take | common/src/surface.c:2064-2078 | an unflushed entry is clipped, dropped when empty, taken into the dirty rectangle when that is clean or combining is reasonable, and left queued otherwise; no pending pixel of the surface is lost |
| Surfaces.Surface.SortQueue | common/src/surface.c:2048-2050 | the queue is put in the order of the comparator and nothing pending is lost |
| Surfaces.Surface.FlushToQueue | common/src/surface.c:677-693 | appends the dirty rectangle to the queue exactly if the surface is dirty, and clears the flag |
| Surfaces.Surface.FlushDeferred | common/src/surface.c:712-727 | flushes everything when one place is left, otherwise queues the dirty rectangle and sends nothing; between public calls at most 255 places are used |
| Surfaces.Surface.Flush | common/src/surface.c:2124-2142 | all that was pending is sent; if the images are delivered as they are, the remote display then equals the buffer |
| Surfaces.Surface.MarkDirty | common/src/surface.c:374-390 | the dirty rectangle is extended by the rectangle, empty ones are ignored, and each of its pixels is pending |
| Surfaces.Surface.Defer | common/src/surface.c:1422-1427 | the redrawn rectangle joins the dirty one when combining is reasonable and replaces it after a deferred flush otherwise; exact images keep the account in step |
| Surfaces.Surface.SendBitmap | common/src/surface.c:1820-1979 | one image of the dirty rectangle, widened to the grid of 16 for JPEG and 8 for WebP and inside the surface; JPEG only if the rectangle was opaque, WebP only if supported |
| Surfaces.IsOpaque | common/src/surface.c:274-305 | true exactly if every pixel of the rectangle has full alpha |
| Surfaces.Surface.Clipped | common/src/surface.c:206-258 | the clipped rectangle lies inside the rectangle given, the surface, and the clip if there is one |
| Surfaces.Surface.constructor | common/src/surface.c:1234-1279 | a new surface is transparent, clean, unclipped and in step with its layer |
| Surfaces.Surface.Resize | common/src/surface.c:1297-1372 | kept pixels lose their transparency, the dirty and clip rectangles are cut to the new size, and a surface in step stays so exactly if each kept pixel was opaque or was still to be sent before the call |
| Surfaces.KeptPixels | common/src/surface.c:1331-1345 | the new buffer holds the old pixels with alpha forced to full where both sizes reach, and is transparent elsewhere |
| Surfaces.Surface.Draw | common/src/surface.c:1374-1434 | the buffer becomes the simultaneous composition of image and old pixels within the clipped rectangle only; the smallest changed rectangle is deferred, and it stays in step if the images are exact |
| Surfaces.Surface.Paint | common/src/surface.c:1436-1483 | exactly the pixels under the mask take the colour; it stays in step if the images are exact |
| Surfaces.Surface.Set | common/src/surface.c:1700-1766 | exactly the clipped rectangle takes the colour, sent as a fill at once or deferred; it stays in step if the images are exact |
| Surfaces.Surface.Clip | common/src/surface.c:1768-1792 | clips accumulate: what may still be drawn is what could be before, within the new rectangle |
| Surfaces.Surface.ResetClip | common/src/surface.c:1794-1806 | only the surface bounds clip afterwards |
| Copies.CopyRegion | common/src/surface.c:1485-1698 | a pixel of the destination changes exactly if it is asked for, lies within the clip and has a source pixel, and then to the function of both old pixels, all at once; the instruction is sent exactly if the changed region is not empty and does not combine with the dirty one, after all that was pending; it stays in step exactly if that instruction shows the change |
| Copies.CopyApart | common/src/surface.c:1544-1575 | between two surfaces, buffer first: in step afterwards exactly if the remote instruction meets its own result without harm |
| Copies.CopyWithin | common/src/surface.c:1563-1580 | within one surface, buffer last: in step afterwards exactly if both functions agree on the old pixels |
| Copies.Copy | common/src/surface.c:1485-1592 | exactly the pixels asked for that lie within the clip and have a source pixel become that pixel as it was; an opaque source region keeps both surfaces in step if the images of the flushes arrive as they are; opaque content always does, and stays opaque; copying onto an opaque surface with nothing pending on either leaves it in step exactly if every source pixel within both clips is opaque; in general exactly if the instruction sent shows the change |
| Copies.TransferRegion | common/src/surface.c:1594-1698 | exactly the pixels asked for that lie within the clip and have a source pixel become the function of both old pixels; a transfer within one surface, or by an idempotent function, keeps both surfaces in step if the images of the flushes arrive as they are, and always does if they are opaque and the function keeps pixels opaque; in general exactly if the instruction sent shows the change |
| Copies.RegionsAt | common/src/surface.c:1503-1547 | the region that is left after both clips holds exactly the points asked for that lie within the destination limits and have a source point |
| Copies.TransferAgreesIff | common/src/surface.c:1654-1683 | applied to a pixel that has been sent already, the function agrees with the buffer for all pixels exactly if it is idempotent |
| Copies.CopyAgreesIff | common/src/surface.c:1571-1573 | drawing over agrees with copying, whatever is shown and whatever was sent before, exactly if every pixel of the source region is opaque |
| Divergences.TransparentCopy | common/src/surface.c:1485-1592 | a run: a new transparent surface copied onto an opaque flushed one leaves the display out of step |
| Divergences.TransferTwice | common/src/surface.c:1594-1698 | a run for every function that is not idempotent: two draws far apart, then a transfer onto the first; the display is out of step if the images arrive as they are, which they do as PNG, and in any encoding if the function keeps pixels opaque |
| Divergences.ResizeNew | common/src/surface.c:1297-1372 | a run: a new transparent surface of one pixel is enlarged, and is out of step |
| Accounts.ResizedInStep | common/src/surface.c:1297-1372 | exactly the transparent kept pixels that are not pending come out of step |
| Accounts.SentExactlyIff | common/src/surface.c:1820-1979 | a JPEG or WebP image of any dirty rectangle is delivered as it is exactly if all of the rectangle widened to the grid of 16 or 8 is opaque; a PNG image always is |
| Accounts.ExactWhen | common/src/surface.c:1820-1979 | honest images of an opaque buffer, and honest PNG images of any buffer, arrive as they are |
| Accounts.WideningFailsIff | common/src/surface.c:1880-1979 | an opaque dirty rectangle can fail to be delivered exactly if its widened rectangle is another one |
| Accounts.SortInOrder | common/src/surface.c:1987-2002 | sorting with the comparator puts neighbours in order |
| Accounts.CompareIff | common/src/surface.c:1987-2002 | the comparator orders from top to bottom, then left to right, then wider first, then flatter first, and is 0 only for equal rectangles |
| Accounts.CombiningCosts | common/src/surface.c:307-372 | what lies within the dirty rectangle is always combined with it; otherwise combining costs at most three times as much as not combining, or the outcome is at most 64 by 64 |
| Accounts.PixelsCombineIff | common/src/surface.c:307-372 | two single pixels are combined exactly if the smallest rectangle around them is at most 64 by 64 or its area at most 4098, or 1025 for a pixel that need not be sent as an image |
| Remote.ExactAtIff | common/src/surface.c:1820-1979 | a pixel reaches the display unchanged whatever is shown there exactly if it is opaque, or sent as PNG with alpha |
| Remote.ReplayedAt | common/src/surface.c:1820-1979 | replaying exact images puts the buffer where they reach and nothing elsewhere |
| Argb.OverReplacesIff | common/src/surface.c:941-973 | exactly opaque source pixels replace whatever they are blended over |
| Argb.OverKeepsOpaque | common/src/surface.c:915-973 | blending over an opaque pixel gives an opaque pixel |
| Argb.OverAt | common/src/surface.c:941-973 | an opaque source or a clear destination gives the source, a clear source the destination; otherwise all four components are blended alike by the alpha of the source |
| Argb.BlendedExactIff | common/src/surface.c:898-925 | the blend of premultiplied components adds 255 times too much of the destination, up to 255; it is the Porter-Duff operator exactly if the destination is 0, the source opaque, or source and destination full |
| Argb.TransferFunction.ApplyBits | libguac/include/guacamole/protocol-types.h:190-230 | every bit of the result is the bit of the protocol number that the source and destination bits select, for all sixteen functions and all pixels, except that BLACK writes full alpha |
| Argb.TransferFunction.KeepsOpaqueIff | common/src/surface.c:737-811 | which of the sixteen transfer functions keep opaque pixels opaque |
| Argb.TransferFunction.IdempotentIff | common/src/surface.c:737-811 | which of them may be applied twice with the effect of once |
| Pixels.Put | common/src/surface.c:989-1071 | every pixel of the rectangle becomes the composition of source and old destination, no other changes, and the rectangle returned is the smallest with all changes, the source moved alike |
| Pixels.SetRect | common/src/surface.c:840-896 | every pixel of the rectangle takes the colour; the rectangle returned is the smallest with all changes, except that an unchanged single pixel is kept |
| Pixels.FillMask | common/src/surface.c:1088-1125 | exactly the pixels under the mask take the colour |
| Pixels.Transfer | common/src/surface.c:1139-1232 | even when source and destination overlap in one image, each pixel is combined as if all were read first; the rectangle returned is the smallest with all changes in both directions of the scan |
| Pixels.SourceIntact | common/src/surface.c:1158-1174 | the direction chosen reaches every source pixel before it is overwritten |
| Rects.Extend | common/src/rect.c:30-53 | the result contains both rectangles |
| Rects.ExtendIsLeast | common/src/rect.c:30-53 | it lies within every rectangle that contains both |
| Rects.Constrain | common/src/rect.c:55-78 | the result holds exactly the common points and lies within both |
| Rects.ExpandToGrid | common/src/rect.c:80-172 | the result contains the input, stays inside the limits, and each dimension is whole cells or all of the limits; -1 for a cell size of zero or less |
| Rects.ExpandGrows | common/src/rect.c:80-172 | each dimension grows by 1 to the cell size, to whole cells, as far on the left as on the right or one less, unless the limits are in the way; then the rectangle lies at the limit, or fills them |
| Rects.GrowthIsUnique | common/src/rect.c:91-92 | only one growth from 1 to the cell size makes whole cells |
| Rects.Intersects | common/src/rect.c:174-190 | 2 exactly for containment, and 0 only for rectangles without a common point |
| Rects.ApartIff | common/src/rect.c:174-190 | 0 exactly for rectangles of which not even the borders meet |
| Rects.ClipAndSplit | common/src/rect.c:192-266 | the piece and the remainder hold exactly the points of the rectangle; the piece misses both the remainder and the hole |
| Rects.SplitUntilZero | common/src/rect.c:192-266 | repeating until zero takes at most four splits: disjoint pieces that miss the hole and, with the remainder inside it, make up the rectangle |
| Palettes.Alloc | libguac/src/palette.c:31-102 | NULL exactly for images of more than 256 distinct colours; otherwise the colours numbered by first appearance |
| Palettes.Palette.Find | libguac/src/palette.c:104-129 | -1 exactly for absent colours, otherwise the number whose stored components are the colour; the probe ends despite wraparound |
| Palettes.Palette.Probe | libguac/src/palette.c:50-92 | the bucket of the colour, or the free one where its probe path ends |
| Palettes.Palette.Add | libguac/src/palette.c:47-92 | a new colour gets the next number unless the palette is full; a known one changes nothing |
| Palettes.Palette.Insert | libguac/src/palette.c:60-83 | storing in the free bucket keeps every probe path intact |
| Palettes.DistinctCounts | libguac/src/palette.c:31-102 | the numbering is as long as the set of colours is large |
| Palettes.SameColorIff | libguac/src/palette.c:47-48 | two pixels have the same colour exactly if they agree apart from their alpha channels |
| Palettes.InColors | libguac/src/palette.c:44-95 | the colours counted are those of the pixels of the image and no others |
| Palettes.DepthIsLeast | libguac/src/encode-png.c:305-308 | the bit depth is the least of 1, 2, 4 and 8 that has a level for every colour |
| Palettes.WriteRows | libguac/src/encode-png.c:297-367 | every index written fits the bit depth chosen, and the palette entry there has the red, green and blue of the pixel: its bits 16 to 23, 8 to 15 and 0 to 7 |
| Rings.Ring.Write | libguac/src/socket-shared-memory.c:3026-3100 | takes as many packets as are free: the bytes accepted are a beginning of the message, all of it exactly if its packets fit |
| Rings.Ring.SingleRead | libguac/src/socket-shared-memory.c:2960-3007 | delivers the beginning of the first packet and pops it when it is read to the end |
| Rings.Ring.MultiRead | libguac/src/socket-shared-memory.c:2907-2958 | delivers exactly the next bytes of the stream, as many as asked for or buffered |
| Rings.Ring.Push | libguac/src/socket-shared-memory.c:2849-2882 | a packet is appended; markers, sizes and all other packets keep their meaning |
| Rings.Ring.Pop | libguac/src/socket-shared-memory.c:2822-2847 | the packet read to its end is removed; the markers stay in step, and both return to zero when the queue is empty |
| Rings.Ring.ReadPacket | libguac/src/socket-shared-memory.c:2936-2953 | takes bytes from the first packet past its offset, so that delivered and buffered bytes still make up what was accepted |
| Rings.Ring.Clear | libguac/src/socket-shared-memory.c:2809-2820 | an empty queue and a new account of bytes |
| Rings.Converse | libguac/src/socket-shared-memory.c:2822-3100 | over every interleaving of writes and reads, messages of at most one packet that were accepted come back whole and in order, followed by those still queued |
| Utf8.StrLen | libguac/src/unicode.c:39-69 | the number of characters by their first bytes |
| Utf8.CharSizeIff | libguac/src/unicode.c:26-37 | sizes 2, 3 and 4 exactly for first bytes C0 to DF, E0 to EF and F0 to F7 |
| Utf8.Write | libguac/src/unicode.c:71-123 | stores exactly the bytes of the codepoint if they fit, the lowest byte of a negative one, otherwise nothing, and touches no other byte |
| Utf8.EncodedIff | libguac/src/unicode.c:71-123 | the bytes of a codepoint up to 0x1FFFFF are the only ones of its length in the form of UTF-8, with a first byte that tells the length and continuation bytes 80 to BF, that carry it |
| Utf8.OthersWritten | libguac/src/unicode.c:71-123 | larger codepoints become a question mark, negative ones their lowest byte |
| Utf8.Read | libguac/src/unicode.c:125-182 | the codepoint and length that the bytes stand for, or nothing if they are cut off |
| Utf8.ReadUndoesWrite | libguac/src/unicode.c:71-182 | reading gives back every codepoint written, up to 0x1FFFFF, whatever follows |
| Utf8.CarriedIsRead | libguac/src/unicode.c:125-182 | bytes in the form of UTF-8 are read as the value they carry, also if fewer bytes could carry it |
| Utf8.SizeIsAnnounced | libguac/src/unicode.c:26-123 | the first byte written announces the size that charsize reports |
| Base64.EncodeLength | libguac/src/socket.c:271-402 | (count + 2) / 3 * 4 characters for every byte string |
| Base64.Alphabet | libguac/src/socket.c:44-53 | the characters of the 64 values are A to Z, a to z, 0 to 9, plus and slash |
| Base64.ValueIs | libguac/src/protocol.c:1123-1142 | a character of the alphabet reads as the value it was written for, any other as 0 |
| Base64.SextetsInOrder | libguac/src/socket.c:277-292 | the four values of a triplet are its 24 bits in order |
| Base64.TestVectors | libguac/src/socket.c:271-402 | the encodings of the beginnings of foobar that section 10 of RFC 4648 gives |
| Base64.DecodeUndoesEncode | libguac/src/protocol.c:1144-1177 | decoding gives back every byte string that was encoded |
| Base64.DecodeInPlace | libguac/src/protocol.c:1144-1177 | the decoded bytes overwrite the string from its start, the write index never passes the read index, and all other bytes stay |
| Protocol.Socket.Write | libguac/src/socket.c:104-125 | all bytes reach the handler in order although it may take only some at a time |
| Protocol.Socket.WriteBase64 | libguac/src/socket.c:357-374 | emits the whole triplets of all bytes given so far and keeps the rest pending |
| Protocol.Socket.FlushBase64 | libguac/src/socket.c:387-402 | emits the padded rest and leaves nothing pending |
| Protocol.Socket.WriteByte | libguac/src/socket.c:337-355 | every third byte, or -1, completes a triplet |
| Protocol.TripletsThenRest | libguac/src/socket.c:271-402 | writing in pieces and flushing emits the encoding of the whole |
| Protocol.Socket.WriteLengthString | libguac/src/protocol.c:44-51 | the length in characters, a dot and the string |
| Protocol.Socket.SendList | libguac/src/protocol.c:101-119 | the opcode and arguments as one instruction |
| Protocol.Example | libguac/src/protocol.c:101-119 | an instruction of three elements, one of them empty, byte by byte |
| Protocol.Socket.SendArgs | libguac/src/protocol.c:101-131 | args and its arguments as one instruction |
| Protocol.Socket.SendConnect | libguac/src/protocol.c:267-297 | connect and its arguments as one instruction |
| Protocol.Socket.SendBlob | libguac/src/protocol.c:180-201 | a blob is the instruction of opcode, index and base64 text: the length announced beforehand is the one emitted |
| Grammar.ParseUndoesPrint | libguac/src/parser.c:59-164 | what was printed is parsed back exactly, and what follows is left |
| Grammar.ReadBackIff | libguac/src/parser.c:59-164 | an instruction is read back exactly if all its elements are whole characters, at most 8192 each |
| Grammar.RunInPieces | libguac/src/parser.c:59-164 | reading a stream in two pieces comes to the same state, elements and leftover as in one |
| Feeding.RunOneThenRun | libguac/src/parser.c:59-164 | taking one element per call comes to the same as running on |
| Feeding.FedIs | libguac/src/parser.c:59-284 | however the bytes come, the outcome is that of the whole unless the machine stands within or beyond the 64th element at a cut, and then it is a failure |
| Feeding.DivisionIff | libguac/src/parser.c:59-284 | instructions of up to 63 elements are read back under every division, those of 64 exactly if no piece ends within the content of the last element, and longer ones never |
| Feeding.TwoPiecesIff | libguac/src/parser.c:65-69 | an instruction of 64 elements cut in two fails exactly if the cut lies from just after the last dot up to, not including, the end |
| Feeding.SemicolonTooLate | libguac/src/parser.c:65-69 | one that fails: 64 empty elements of which only the semicolon comes later |
| Parsers.Parser.Append | libguac/src/parser.c:59-164 | one call fails exactly if it starts within the last element allowed or the element is malformed; otherwise it takes the steps of the machine up to the end of the element, as far as the bytes go |
| Parsers.Parser.ParseLength | libguac/src/parser.c:71-109 | digits are taken up to a dot, and the length is checked after all at hand |
| Parsers.Parser.ParseContent | libguac/src/parser.c:111-161 | whole characters are taken up to the terminator, which is overwritten with NUL |
| Parsers.Parser.Compact | libguac/src/parser.c:191-210 | the instruction begun and its unparsed bytes move to the start of the buffer; every element pointer still finds its bytes and NUL |
| Parsers.Parser.Read | libguac/src/parser.c:166-284 | the outcome is that of feeding the pieces read, and below 64 elements the stream alone decides: the instruction is returned and the rest kept exactly if it is complete within 32768 bytes, a machine that fails within them is a parse error, and otherwise the instruction is too long or the stream has ended, by its length |
| Instructions.ReadAtLimit | libguac/src/parser.c:65-69 | reading an instruction of exactly 64 elements succeeds exactly if no piece read ends within the content of the last one, and is a parse error otherwise |
| Instructions.ReceiveAll | libguac/src/parser.c:166-284 | successive reads return exactly the instructions sent, in order, under every division into socket reads |
| Instructions.Exchange | libguac/src/protocol.c:267-297 | the arguments of connect are received as they were sent |
| Instructions.Fetch | libguac/src/parser.c:59-164 | the string at an element pointer, up to its NUL, is the element |
| Instructions.BlobSendable | libguac/src/protocol.c:180-201 | a blob can be parsed back exactly if it has at most 6144 bytes |
| Instructions.ExchangeBlob | libguac/src/protocol.c:180-201 | a blob sent, parsed and decoded in the parser's buffer is the data |
| Iconv.Iconv | common/src/iconv.c:64-92 | what is written, and whether the terminator was reached, is the conversion value by value within the room given |
| Iconv.WriteValue | common/src/iconv.c:141-191 | the bytes of one value, or none if they do not fit |
| Iconv.ReadUndoesWriteIff | common/src/iconv.c:94-191 | exactly the values an encoding can hold come back as they were written |
| Iconv.ConvertsText | common/src/iconv.c:64-92 | a terminated text becomes the text of the same values |
| Iconv.RoundTrip | common/src/iconv.c:64-92 | for every pair of encodings that can hold it, a text comes back unchanged |
| Iconv.Utf16ThroughUtf8 | common/src/iconv.c:64-155 | every NUL-terminated string of 16-bit units, surrogates or not, comes back from UTF-8 |
| Iconv.Cp1252ByteIff | common/src/iconv.c:119-181 | a CP-1252 byte comes back from its value exactly if it is not 0x8D, 0x8F, 0x90 or 0x9D |
| Iconv.TableIs | common/src/iconv.c:29-62 | the character of each of the bytes 80 to 9F, or that it has none |
| Iconv.UnitIs | common/src/iconv.c:103-117 | the lower byte of a 16-bit unit comes first |
| Iconv.EuroSign | common/src/iconv.c:141-191 | the euro sign in the four encodings |
| Pools.AllRuns | libguac/src/pool.c:76-159 | over every run that frees only live values: live and free values partition those issued, reuse is first in first out, none before min_size values were issued, and the next value is not live |
| Pools.IssuedIs | libguac/src/pool.c:76-159 | over every run that frees only live values, the number of values issued is the largest number that was ever live at once, or the minimum size if that is larger and as many calls were made |
| Pools.ReusesOldest | libguac/src/pool.c:76-125 | once the minimum size has been issued, the next value is the one freed first and not reused since, if there is any, and before that a new one |
| Pools.Pool.NextInt | libguac/src/pool.c:76-125 | the linked queue takes as the account does, and active is counted |
| Pools.Pool.FreeInt | libguac/src/pool.c:127-159 | the linked queue gives back as the account does, in a node of its own |
| Pools.FreeLayerLosesValue | libguac/src/client.c:63-101 | right after freeing a layer, the value taken is neither live nor free, and the one given back in its place is both exactly if the next layer is live |
| Pools.FreeLayerCollides | libguac/src/client.c:63-101 | after any layer is freed, allocating enough others hands out a value that is live already, so two layers share an index |
| Streams.Slots.Alloc | libguac/src/client.c:103-125 | no slot exactly if all 64 are in use, otherwise one below 64 that was not, with the index that goes with it: odd for streams of the client, even for those of a user, plain for objects |
| Streams.Slots.Free | libguac/src/user.c:130-138 | the pool gets back the very slot that was taken, and the slot is marked closed |
| Streams.Slots.constructor | libguac/src/user.c:41-81 | all slots are closed and the pool has no minimum size |
| Streams.Slots.AckTarget | libguac/src/user-handlers.c:378-399 | an acknowledgement finds a stream exactly if a live user stream has that index, and then that one |
| Streams.IndicesDiffer | libguac/src/client.c:103-125 | no two streams in use share an index; those of a client are odd, those of a user even |
| Streams.Buffers.Alloc | libguac/src/client.c:73-81 | a negative index that was not in use |
| Streams.Buffers.Free | libguac/src/client.c:83-91 | exactly that buffer is no longer in use |
| Lists.List.Add | common/src/list.c:48-66 | the new element is the head, and every element knows the link that leads to it |
| Lists.List.Remove | common/src/list.c:68-79 | exactly the element is taken out, and every other still knows the link that leads to it |
| ProcessMaps.GetBucketHash | guacservice/src/GuacClientProcessHandlerMap.cpp:36-50 | the wrapping 32-bit polynomial over the signed characters before the first NUL |
| ProcessMaps.HashIsPolynomial | guacservice/src/GuacClientProcessHandlerMap.cpp:36-50 | the hash of a concatenation is made of those of its parts, as in a polynomial in 65599 modulo the 32-bit range |
| ProcessMaps.HashOfOne | guacservice/src/GuacClientProcessHandlerMap.cpp:36-50 | the hash of one character is its signed value in two's complement |
| ProcessMaps.BucketOf | guacservice/src/GuacClientProcessHandlerMap.cpp:52-56 | always an even bucket of the 131072, for the unparenthesised macro takes the remainder first |
| ProcessMaps.SameBucketIff | guacservice/src/GuacClientProcessHandlerMap.cpp:52-56 | two ids share a bucket exactly if their hashes agree in the lower 16 bits |
| ProcessMaps.ProcessMap.Find | guacservice/src/GuacClientProcessHandlerMap.cpp:59-77 | the search finds an element exactly if the finite map has the id |
| ProcessMaps.ProcessMap.Create | guacservice/src/GuacClientProcessHandlerMap.cpp:85-112 | nothing for a known id, otherwise the new process, and the map with it; observers are told |
| ProcessMaps.ProcessMap.Retrieve | guacservice/src/GuacClientProcessHandlerMap.cpp:114-128 | the process of the finite map, or nothing |
| ProcessMaps.ProcessMap.Remove | guacservice/src/GuacClientProcessHandlerMap.cpp:130-154 | the process of the finite map, which no longer has it, and observers are told; or nothing |
| ProcessMaps.ProcessMap.Has | guacservice/src/GuacClientProcessHandlerMap.cpp:156-163 | whether the finite map has the id |
| ProcessMaps.ProcessMap.constructor | guacservice/src/GuacClientProcessHandlerMap.cpp:7-34 | every bucket is an empty list and the map is empty |
| InputStreams.AllRuns | libguac/src/user-handlers.c:169-545 | over every run of instructions, what happens at each index is lawful, a stream is open exactly if its last event is not an end, and nothing happens at an index out of range |
| InputStreams.LawfulIff | libguac/src/user-handlers.c:169-545 | lawful events are exactly the prefixes of (begin blob* end)* |
| InputStreams.RespondKeeps | libguac/src/user-handlers.c:169-545 | every instruction keeps this |
| InputStreams.UserStreams.GetInputStream | libguac/src/user-handlers.c:169-184 | an index out of range is refused with one acknowledgement |
| InputStreams.UserStreams.GetOpenInputStream | libguac/src/user-handlers.c:204-225 | so is a closed one |
| InputStreams.UserStreams.InitInputStream | libguac/src/user-handlers.c:244-274 | an open stream is ended first, then its slot is cleared |
| InputStreams.UserStreams.HandleOpen | libguac/src/user-handlers.c:276-376 | the stream is begun with the handler of its kind, or refused as unsupported and left open |
| InputStreams.UserStreams.HandlePut | libguac/src/user-handlers.c:500-545 | an undefined object is ignored; otherwise a stream is begun for it |
| InputStreams.UserStreams.HandleBlob | libguac/src/user-handlers.c:415-441 | the decoded bytes reach the stream's handler, the user's, or none; closed and invalid indices reach no handler |
| InputStreams.UserStreams.HandleEnd | libguac/src/user-handlers.c:443-464 | the end reaches the stream's handler, the user's, or none, and the stream is closed |
| Targets.SlotsAre | libguac/src/user-handlers.c:169-545 | over every run, a stream is open exactly if the last instruction to open or end it opened it, and has the handlers that whoever took it last left in it, or none if nobody took it |
| Targets.BlobGoesTo | libguac/src/user-handlers.c:415-441 | over every run, a blob of an open stream goes decoded to the handler of the stream, only without one to that of the user, and is acknowledged as unsupported exactly if neither exists; other blobs are acknowledged as bad requests |
| Targets.EndGoesTo | libguac/src/user-handlers.c:443-464 | over every run, an end goes to the handler of the stream, only without one to that of the user, or to nobody; ends of closed streams are acknowledged as bad requests |
| Targets.OpeningGoesTo | libguac/src/user-handlers.c:244-376 | over every run, opening first ends the stream in use there, which is told likewise; the new one goes to the handler of its kind, or of the object and only without one of the user, and is acknowledged as unsupported exactly if there is none; bad indices are acknowledged as such, missing objects ignored |
| StreamHandlers.HandlersSeeLifecycleIff | libguac/src/user-handlers.c:244-464 | the handlers are told of lawful streams in every run exactly if everything that opens a stream, objects included, and ends have a handler, or nothing has |

## Left out

- Surfaces.Surface.SendBitmap: the choice among PNG, JPEG and WebP is any choice the heuristics could make; the heat map, framerate and image codecs are not modelled.
- Remote.Image.Shown: the display composes pixels with the server's own saturating blend; other arithmetic in a client's compositor is not modelled.
- Surfaces.Surface.SortQueue: the library's sort is a deterministic insertion sort; entries that compare equal are identical, so the outcome is the same.
- Surfaces.Surface.Resize: the layer takes the new size at once, without the flag that delays the instruction until something has been drawn.
- Sessions.Run: a resize counts as one that the display can follow only if all pixels kept are opaque, not also if the others are still to be sent, which the calls alone do not tell; layer properties (position, order, opacity, parent) and duplication for joining users are not modelled.
- Surfaces.Surface.Paint: the colour is opaque, because the source builds it with full alpha.
- Pixels.Put: byte strides are replaced by two-dimensional arrays, with four bytes of a pixel as one value.
- Pixels.Transfer: two surfaces have separate buffers or are the same one; partial sharing of memory does not occur and is not modelled.
- Rects.ExpandToGrid: integers are unbounded, as they are in all modules except where bits matter; overflow of coordinates is not modelled.
- Protocol.Socket.Write: the handler takes at least one byte and never fails; timeouts, keep-alive and error returns are not modelled.
- Protocol.Socket.SendBlob: stands for all senders with fixed opcodes; the many other instructions only list other arguments.
- Parsers.Parser.Read: reads never fail and never time out; after an error return the source leaves the parser without saved positions, and no later read is modelled. Lengths are mathematical integers, so a run of digits that overflows 32 bits is a parse error here.
- Parsers.Parser.constructor: the opcode and argument vectors are offsets into the buffer instead of pointers.
- Iconv.Iconv: a UTF-8 character cut off by the end of the input leaves the value unset in the source; here it reads as the terminator.
- Rings.Ring.Write: streamlined mode is not modelled, nor is the shared-memory segment; each handler is one step, and the packet count is exact instead of rounded in floating point.
- Rings.Ring.SingleRead: blocking on the condition variable is not modelled; an empty queue delivers nothing.
- Palettes.WriteRows: rows are indices as integers; packing them into bits and the PNG file itself are libpng's.
- Pools.Pool.FreeInt: `held` is the value that the caller held, which differs from the value returned only for layers.
- Streams.Slots.Alloc: the data and handler pointers of a slot are not part of the slot here.
- Streams.Buffers.Alloc: layers, whose values are not returned correctly, are stated on the account only.
- ProcessMaps.ProcessMap.Create: the identifier is a parameter, for its random generation is not modelled; starting and stopping processes is not modelled.
- ProcessMaps.ProcessMap.Retrieve: bucket locks are not modelled, and every operation is one step.
- InputStreams.UserStreams.HandleOpen: a begin handler leaves any handlers in the stream but does not call back into the library.
- Locks, threads, sockets, pipes, logging, plugins, timestamps and process control.
- The disabled variants of the shared-memory socket, the reader-writer lock, cursors, clipboard, recording, audio negotiation, display lists and JSON.
