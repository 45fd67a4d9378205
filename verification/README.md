# wlvncc: decoders, framebuffer and input path

wlvncc is a VNC client for Wayland. This project models, in Dafny, the parts of it that turn a
server's byte stream into pixels, the arithmetic under them, and the state that keeps what is shown
equal to what was decoded. Each C function that loops over arrays or fields is a method with loops
over arrays or fields, proved against a specification; the specifications are functions, and what
the program and the protocol promise is proved about them.

## What is modelled

- **Framebuffer primitives** (`area.dfy`, `vncviewer.dfy`, `rfbproto.dfy`). A framebuffer is a flat
  array with a stride. Everything that is drawn is a `Blit`: pixel k of an image goes to the k-th
  place of a rectangle. `Area.BlitAt` says what that means at every place. Fill, bitmap copy, the
  overlapping copy in four directions, and raw rectangles read in chunks are all blits of the right
  image, and nothing else.
- **ZYWRLE** (`zywrle_*.dfy`, `zywrle.dfy`). The integer Haar step, the strided passes, the
  multi-level transform and its inverse, the interleaved sub-band traversal, the colour transform,
  the unaligned fringe, and the two entry points that encode and decode a tile in place.
- **ZRLE, TRLE and Hextile** (`tilecode.dfy`, `tiledecode.dfy`, `tiles.dfy`, `zrle.dfy`, `trle.dfy`,
  `hextile.dfy`, `tile_wire.dfy`, `trle_carry.dfy`, `hextile_carry.dfy`). Reference encoders after
  RFC 6143 sections 7.7.4 to 7.7.6 and the decoders that undo them, for every way to code a tile, with palettes and colours carried from tile to tile, and
  for rectangles of every size. The encoders are data: a decoder theorem quantifies over the codes
  of an image, and says what it needs in a ghost flag `wellFormed`; what holds for arbitrary bytes
  is stated without it. TRLE's scratch buffer, proved large enough for every
  tile, is filled to its last byte by one-byte pixels.
- **Tight** (`tight_format.dfy`, `tight_filter.dfy`, `tight_encode.dfy`, `tight_rows.dfy`,
  `tight_inflate.dfy`, `tight.dfy`, `tight_wire.dfy`, `tight_sender.dfy`). The copy, palette and
  gradient filters as functions from whole rows to pixels, their inverses after the format description in `include/rfbproto.h`, the loop that
  carries partial rows between calls of inflate, the zlib streams and their resets, and the three ways
  the data arrives. What zlib makes of the bytes fed to a stream is any function under which more
  bytes give more output; it hands this out in pieces of any size.
- **Updates** (`updates.dfy`): the loop over an update's Tight rectangles, which share four zlib
  streams, and what the window sees of it.
- **Modular exponentiation** (`modexp.dfy`): 64-bit addition, multiplication and power that wrap
  around, and the key agreement built on them.
- **Triple buffering** (`window.dfy`, `window_update.dfy`): a state machine of updates, rectangles and resizes, the same
  without buffers or damage, and the objects that step through it. What a rectangle draws and what it
  reports may differ.
- **Input buffering** (`sockets.dfy`): a read that waits by running the main loop, which may call
  the message handler again.
- **Keys and scrolling** (`keyboard.dfy`, `pointer.dfy`).

## What came out

These are places where the code does not do what one would first claim. Each is proved with the
exact condition under which it does, as an if-and-only-if over all inputs.

- `Harr` is its own inverse except for a second operand of -128 with a non-negative first one.
- The colour transform is not exact: each channel comes back within 1, and black as (1, 1, 1). Which
  colours come back unchanged depends on the channels' parities (`ZywrleColour.ColourKept`), and the
  same test decides it for every pixel of a tile sent at any level.
- `rfbPowM64` equals b^e mod m for b < m except for exponent 0 modulo 1; with unreduced operands
  results are congruent but need not be below m.
- `on_vnc_client_alloc_fb` sets `back_buffer` but not `buffer_index`. After a resize with index 2
  the buffer that was just committed is the next to be drawn into, and only then.
- The damage announced for the first update after a resize is that update's rectangles only,
  although all of the new memory is shown. So the announcement can be relied on exactly if the
  rectangles cover the whole framebuffer.
- A read may fail although the bytes are there: a nested handler that fills the whole buffer, or
  takes the last bytes before the connection closes, makes the outer `ReadToBuffer` fail.
- A 257th key held is not released for the server when the window loses the focus; nor is one whose
  key code is 0. Nothing else is lost.
- A gradient-filtered Tight rectangle of width 0 and height rh > 0 writes one pixel in each of its rows,
  outside the rectangle, and succeeds (`src/encodings/tight.c:399-407`). It runs past the framebuffer
  exactly if rx is the width and ry + rh the height, or the framebuffer has no columns; else the screen
  stays as it was exactly if the column already held the pixel. The window is told of no place of it.
- A gradient row of more than 6144 component values is too long for `thisRow`, one of more than 12288
  bytes of them for `tightPrevRow`. The latter is overrun by rectangles wider than 2048, or with 24-bit
  pixels wider than 4096, before any data is read. 24-bit rectangles of widths between overrun `thisRow`
  exactly when a whole row comes to be filtered (`Tight.WideGradient`).
- The window's buffers stay coherent over a run exactly if no rectangle changes places that are neither
  reported nor out of date in every buffer (`Window.CoherentThroughout`). Tight rectangles of width 0 can
  do so, and Hextile subrectangles that reach outside their tile.
- A ZRLE tile of one-byte pixels in plain runs of one pixel each takes one byte more than its share of
  `raw_buffer`; no other plain tile takes more than its share.
- `CopyRectangleFromRectangle` never returns for a framebuffer of width 0 when the destination is
  not above the source (`VncViewer.CopyEnds`).

## How to read the contracts

- A method and the function that specifies it could be wrong in the same way. So what such a function
  means is also said without it, in lemmas by value: bits and bytes (`tile_wire.dfy`, `tight_wire.dfy`),
  coordinates (`zywrle_tile.dfy`, `window_update.dfy`), and whole runs of tiles for what is carried from
  one to the next (`trle_carry.dfy`, `hextile_carry.dfy`).
- `Matches(n, a, b)` compares images on the low n bytes of each pixel. For three-byte compressed
  pixels the decoders load four bytes, so the fourth is whatever follows in memory.
- `Tiled(pieces, image, ...)` cuts an image into clipped tiles, each with its bytes; `Coded(tiles, ...,
  pieces, ...)` says that these are the bytes and images of the coded tiles; `Joined(pieces)` is all
  the bytes. `AnyImage` gives such tiles for every image.
- `Rows(stride, n)` is `stride * n`, defined by addition because the loops step by it
  (`Area.RowsIsProduct`).
- `Shows(before, after, ..., image, n)`: the rectangle shows the image, everything else is as before.
- A method parameter `ghost wellFormed: bool` selects whether the bytes are known to be a coding of
  something. A conclusion outside `wellFormed ==>` holds for all bytes.
- `Overrun` stands for a read or write past a buffer, which the C code does not check for; the
  theorems say when it does not happen.

## Model

| member | source | states |
|---|---|---|
| ZywrleWavelet.Harr | src/encodings/zywrletemplate.c:309-331 | For every two signed bytes. Operands of one sign: the difference of the first and the second, and the operand farther from zero. Operands of different signs: the sum, and the distance of the farther operand with the sign of the first, where 128 becomes -128 |
| ZywrleWavelet.EqualOperands | src/encodings/zywrletemplate.c:309-331 | Equal operands give that operand and 0, so a constant line has no detail |
| ZywrleWavelet.HarrPair | src/encodings/zywrletemplate.c:364-369 | The step is applied to the blue, the green and the red byte of two cells, each for itself; the fourth byte stays |
| ZywrleWavelet.HarrInvolution | src/encodings/zywrletemplate.c:309-331 | The step undoes itself if and only if it is not given a second operand of -128 with a non-negative first one |
| ZywrleWavelet.HarrKeepsRing | src/encodings/zywrletemplate.c:309-331 | The larger absolute value of a pair is the same before and after, so [-127, 127] is never left |
| ZywrleWavelet.WaveletLevel | src/encodings/zywrletemplate.c:353-373 | One strided line in place: each disjoint pair is transformed once, from its original values, all other cells stay |
| ZywrleWavelet.Wavelet | src/encodings/zywrletemplate.c:474-497 | The nested loops of the forward transform (without the quantising filter) equal the recursive transform over all levels |
| ZywrleWavelet.InvWavelet | src/encodings/zywrletemplate.c:500-522 | The nested loops of the inverse transform equal the recursive inverse, levels and directions in opposite order |
| ZywrleWavelet.PassInvolution | src/encodings/zywrletemplate.c:353-373 | A pass over separate pairs undoes itself and keeps the odd range |
| ZywrleWavelet.Pass.LowsApart | src/encodings/zywrletemplate.c:353-373 | The strided pairs of every row pass and column pass of an aligned buffer are pairwise disjoint and inside the buffer |
| ZywrleWavelet.PerfectReconstruction | src/encodings/zywrletemplate.c:474-522 | For every level, every aligned size and all coefficients in [-127, 127]: the inverse restores the buffer exactly and every level stays in [-127, 127] |
| ZywrleWavelet.LevelBlock | src/encodings/zywrletemplate.c:474-497 | Level l transforms blocks of two by two cells 2^l apart, for every block: (x, y) with (x + 2^l, y) and the same a row further down, then the results column by column |
| ZywrleWavelet.LevelKeeps | src/encodings/zywrletemplate.c:474-497 | and leaves every cell that is not in a row and a column divisible by 2^l |
| ZywrleWavelet.InverseKeepsOdd | src/encodings/zywrletemplate.c:500-522 | Decoding keeps coefficients a server sends in [-127, 127] there, at every level |
| ZywrleTraversal.GridSplit | src/encodings/zywrletemplate.c:615-653 | A grid is, up to order, the four grids of half the density: the recursion of the sub-bands |
| ZywrleTraversal.OrderIsPermutation | src/encodings/zywrletemplate.c:615-653 | The interleaved sub-band traversal of an aligned tile visits every coefficient exactly once |
| ZywrleTraversal.OrderAt | src/encodings/zywrletemplate.c:622-638 | The place of every coefficient in the traversal, in closed form: finer levels first; in a level sub-band 3 (odd column, odd row of the grid), 2 (odd row), 1 (odd column) and last 0; in a sub-band row by row |
| ZywrleTile.CoefficientTravels | src/encodings/zywrletemplate.c:640-644 | so the pixel in which each coefficient travels: red, green and blue lane are the red, green and blue channel read as signed bytes |
| Zywrle.UnpackAll | src/encodings/zywrletemplate.c:803-811 | Unpacking all sub-bands takes the pixels of the tile in row-major order, one for each coefficient of the traversal |
| Zywrle.SaveUnaligned | src/encodings/zywrletemplate.c:646-653 | The pixels after the coefficients go to the end of the buffer and can be read back there, of 32 and of 16 bits |
| Zywrle.FringeInjective | src/encodings/zywrletemplate.c:655-695 | The fringe places of an unaligned tile draw on different pixels of the stream |
| Zywrle.FringeInside | src/encodings/zywrletemplate.c:655-695 | Every fringe place draws on a pixel after the coefficients and inside the tile |
| ZywrleTile.FringeOrder | src/encodings/zywrletemplate.c:655-695 | They are taken in this order: right of the aligned part row by row, from pixel w * h on; below it row by row, from pixel width * h on; then the corner |
| ZywrleTile.SynthesizedPlace | src/encodings/zywrletemplate.c:784-817 | Column x, row y of a synthesized tile: inside the aligned part the colour of decoded coefficient (x, y) over the unused bits of the old pixel; outside it the whole pixel from the stream, of 16 or 32 bits |
| Zywrle.CalcSizeAligned | src/encodings/zywrletemplate.c:697-701 | The computed size has `level` clear low bits |
| ZywrleTile.CalcSizeIsLargest | src/encodings/zywrletemplate.c:697-701 | and is the largest such size that fits |
| ZywrleTile.CalcSizeUsed | src/encodings/zywrletemplate.c:697-701 | At levels 1, 2 and 3 it is n less its remainder by 2, 4 and 8 |
| Zywrle.BufferDecodes | src/encodings/zywrletemplate.c:803-813 | After unpacking and inverting, the used lanes are the decoded coefficients, whatever the scratch buffer held before |
| Zywrle.Synthesize | src/encodings/zywrletemplate.c:784-817 | For every tile size and level, and for 32-bit and 16-bit pixels, decoding in place leaves exactly the synthesized tile in the rectangle and every other pixel as it was |
| Zywrle.SynthesizedMatches | src/encodings/zywrletemplate.c:784-817 | Tiles that agree on the low bytes of each pixel are synthesized to tiles that agree on them |
| ZywrleColour.SaveThenLoad | src/encodings/zywrletemplate.c:129-138 | Saving three channels and loading them gives their low bytes; the top byte stays |
| ZywrleColour.Save16ThenLoad | src/encodings/zywrletemplate.c:115-126 | Saving a colour in 16 bits and loading it gives its five, six and five high bits |
| ZywrleColour.LoadPixelBytes | src/encodings/zywrletemplate.c:129-133 | In memory a 32-bit pixel has the bytes blue, green, red |
| ZywrleColour.Load16Bytes | src/encodings/zywrletemplate.c:115-119 | In a 16-bit one blue has five bits of the first byte, red five of the second, and green the six in between |
| ZywrleColour.YuvMeaning | src/encodings/zywrletemplate.c:555-571 | The coefficient of a colour: luma (red + 2 green + blue) / 4 less 128, and half of what blue and red exceed green by, -127 for -128 |
| ZywrleColour.RgbMeaning | src/encodings/zywrletemplate.c:572-582 | The colour of a coefficient, before it is cut to 0..255, has that luma, and its blue and red exceed green by twice the differences |
| ZywrleColour.ColourError | src/encodings/zywrletemplate.c:551-582 | RGB to YUV and back, with the -128 adjustments and clamping, loses at most one unit a channel and stays in [-127, 127] |
| ZywrleColour.ColourKept | src/encodings/zywrletemplate.c:551-582 | Nothing is lost if and only if the colour passes a test on its parities and extremes: below full green, red + 2 green + blue is at least 4 and red and blue are 0 or have green's parity |
| ZywrleColour.BlackIsInexact | src/encodings/zywrletemplate.c:551-582 | The bound is attained: black comes back as (1, 1, 1) |
| ZywrleEncode.RgbYuv | src/encodings/zywrletemplate.c:707-725 | The colour loop fills the buffer with the coefficients of every pixel |
| ZywrleEncode.PackAll | src/encodings/zywrletemplate.c:771-778 | Packing writes the coefficients over the tile in the traversal's order, keeping the top byte of each pixel |
| ZywrleEncode.Analyze | src/encodings/zywrletemplate.c:749-781 | On aligned sizes the encoder leaves exactly the analyzed tile in the rectangle and every other pixel as it was |
| ZywrleEncode.UnpackPacked | src/encodings/zywrletemplate.c:615-653 | Unpacking what was packed brings back every visited coefficient |
| ZywrleEncode.EndToEnd | src/encodings/zywrletemplate.c:749-817 | For every aligned tile and level, decoding what the encoder sends reproduces every channel of every pixel within 1, and a pixel's colour exactly if and only if the colour transform keeps it; top bytes stay |
| ModularPower.AddM64Exact | src/rfbproto.c:625-626 | The addition macro is congruent for all operands, its last addition never wraps, and exactly when it is exact: always for reduced operands |
| ModularPower.MulM64 | src/rfbproto.c:628-637 | Congruent to x * y for all operands despite wrap-around, equal to (x * y) % m when y < m |
| ModularPower.PowM64 | src/rfbproto.c:639-648 | Congruent to b^e for all operands; for b < m equal to b^e mod m if and only if m > 1 or e > 0 |
| ModularPower.UnreducedOperand | src/rfbproto.c:625-637 | With an operand not below m the addition is not reduced: a concrete triple |
| ModularPower.Agree | src/rfbproto.c:750-757 | Two parties exchanging g^x and g^y derive the same key |
| RfbProto.HandleRaw | src/rfbproto.c:2002-2029 | Succeeds if and only if all w * h * bpp / 8 bytes are there; then exactly they are consumed and the screen equals one whole-rectangle copy |
| RfbProto.ReadLines | src/rfbproto.c:2017-2023 | One chunk of whole lines is read and drawn |
| RfbProto.FitsBuffer | src/rfbproto.c:2005-2013 | At least one line fits the buffer for every width above 0 that 16 bits hold |
| VncViewer.RfbClient.FillRectangle | src/vncviewer.c:259-283 | A rectangle in bounds becomes one colour cut to the pixel size, everything else stays; out of bounds nothing happens |
| VncViewer.RfbClient.CopyRectangle | src/vncviewer.c:285-313 | A rectangle in bounds becomes the bitmap, pixel for pixel, everything else stays; out of bounds nothing happens |
| VncViewer.RfbClient.CopyRectangleFromRectangle | src/vncviewer.c:316-370 | For every overlap, in all four directions, each destination pixel becomes what the source pixel was before the call and all others stay; required is only that the loop ends |
| VncViewer.CopyShows | src/vncviewer.c:316-370 | In coordinates: the pixel in column i and row j of the destination is that in column i and row j of the source as it was |
| VncViewer.DrawsInside | src/vncviewer.c:255-281 | The primitives draw if and only if there is a framebuffer, pixels have 8, 16 or 32 bits and the first and last column and row of the rectangle are inside |
| VncViewer.CopyEnds | src/vncviewer.c:336-349 | The outer loop ends if and only if the framebuffer has columns or the destination is above the source |
| VncViewer.EndlessCopy | src/vncviewer.c:323-349 | Without columns, both bounds checks allow a copy, of width 0, that goes on for ever: for every height and every two places, the source not below the destination |
| VncViewer.RfbClient.CopyTopDown | src/vncviewer.c:336-347 | Rows top to bottom when the destination is above: finished rows hold the old source rows |
| VncViewer.RfbClient.CopyBottomUp | src/vncviewer.c:348-360 | Rows bottom to top otherwise: finished rows hold the old source rows |
| VncViewer.CopyStep | src/vncviewer.c:335-360 | Copying the next pixel in the chosen direction reads one that has not been overwritten |
| Area.BlitAt | src/vncviewer.c:259-313 | What drawing an image leaves at each place: the image's pixel inside the rectangle, the old one outside |
| Bytes.LittleEndian | src/encodings/zrle.c:226-234 | Words are loaded from memory with the low byte first |
| Area.BlitOver | src/vncviewer.c:285-313 | Of two images drawn into one rectangle the second stays |
| Area.BlitRows | src/rfbproto.c:2013-2027 | Drawing some rows and then those below them is drawing all at once |
| Area.DrawRun | src/encodings/zrle.c:348-356 | The run loop draws the run from the cursor on, cut at the end of the tile |
| TileCode.PackRowAt | src/encodings/zrle.c:300-324 | Every index of a packed row is found at the byte and shift the decoder uses, for 1, 2, 4 and 8 bits |
| TileCode.PackRowLength | src/encodings/zrle.c:305 | A packed row takes (w + divider - 1) / divider bytes |
| TileWire.IndexPlace | src/encodings/zrle.c:300-324 | In bytes: of 1, 2 and 4 bits each, the index in the leftmost place of a byte is in its most significant bits |
| TileWire.FewestBits | src/encodings/zrle.c:301 | The width of an index is the least of 1, 2, 4 and 8 bits that tells the colours apart |
| TileWire.LengthMeaning | src/encodings/zrle.c:338-347 | A run length less one as bytes: n / 255 bytes of 255, then n mod 255 |
| TileWire.RunMeaning | src/encodings/zrle.c:331-347 | A plain run is colour and length; a palette run of one pixel its index, a longer one its index with the top bit set and the length |
| TileWire.RunPixels | src/encodings/zrle.c:348-356 | The pixels of a run come after those of the runs before it |
| TileWire.PackedPixels | src/encodings/zrle.c:313-324 | Row j of the packed indices is row j of the tile |
| TileWire.FirstByteOf | src/encodings/zrle.c:249-377 | The first byte of a tile is 0 for raw, 1 for solid, the number of colours for packed, 128 for plain RLE, and 128 more than the number of colours for palette RLE, and these tell them apart |
| TileDecode.LoadStored | src/encodings/zrle.c:233 | A pixel load agrees with the stored pixel on its own bytes, also where four bytes are loaded for three |
| TileDecode.ReadPalette | src/encodings/zrle.c:308-310 | The palette loop reads the stored colours |
| TileDecode.PackedRow | src/encodings/zrle.c:314-323 | One row of packed indices of any width: the indexed colours, and the pointer at the next row |
| TileDecode.PackedTile | src/encodings/zrle.c:313-324 | All rows of packed indices: exactly the indexed image and the bytes it takes |
| Zrle.ReadLength | src/encodings/zrle.c:338-347 | The run-length loop undoes the 255-continued form |
| Zrle.PlainRleTile | src/encodings/zrle.c:328-361 | Plain RLE: exactly the runs' image and their bytes; for any bytes only the tile is written |
| Zrle.PaletteRleTile | src/encodings/zrle.c:377-412 | Palette RLE: exactly the runs' colours and their bytes; for any bytes only the tile is written |
| Zrle.HandleZRLETile | src/encodings/zrle.c:236-416 | For every image, pixel size and quality level and every valid raw, solid, packed, plain, indexed or ZYWRLE coding, the latter of the level below: the tile shows that image and the result is the encoded length; whatever the bytes, only the tile is written, and a non-negative result means all of it was |
| Zrle.ZywrleLevel | src/encodings/zrle.c:242-245 | The level of quality q is the least with 3 * level + q >= 9; 0 for 8-bit pixels and while bit 7 marks the inner tile |
| Zrle.HandleZRLE | src/encodings/zrle.c:191-211 | Tiles that code an image of any size fill the rectangle with it and consume every byte; whatever the bytes, nothing outside the rectangle is written |
| Zrle.AnyImage | src/encodings/zrle.c:84-108 | Every image of every size has a coding, at every quality level, no tile of which takes more bytes a pixel than raw_buffer has |
| Zrle.PlainFits | src/encodings/zrle.c:84-108 | A plain tile takes no more bytes than a new raw_buffer has for its pixels if and only if a pixel has more than one byte or some run more than one pixel; else it takes one more |
| Zrle.StreamFits | src/encodings/zrle.c:84-176 | Tiles that each keep to their share fit a new raw_buffer together, for rectangles of every size |
| Trle.ReadLength | src/encodings/trle.c:179-188 | The run-length loop reading the stream byte by byte undoes the 255-continued form |
| Trle.PlainTile | src/encodings/trle.c:169-207 | Plain RLE: exactly the runs' image, exactly their bytes, and the scratch buffer is never overrun |
| Trle.IndexedTile | src/encodings/trle.c:208-254 | Palette RLE with the palette in force: exactly the runs' colours and bytes |
| TileCode.PlainRunsFit | src/encodings/trle.c:56-76 | Plain runs take at most n + 1 bytes for each pixel they draw, and exactly that many if and only if each is one pixel |
| Trle.ScratchIsTight | src/encodings/trle.c:56-76 | One-pixel runs take exactly that many: with one-byte pixels a 16 x 16 tile fills the 16 * 16 * n * 2 bytes |
| Trle.PackedRows | src/encodings/trle.c:141-164 | The bytes read with the carried divider are those of the rows, and the rows are drawn in the palette's colours |
| Trle.Case127 | src/encodings/trle.c:122-168 | Reuse of the colour or palette that came last, also after palette RLE, with raw and plain-RLE tiles in between |
| Trle.HandleTile | src/encodings/trle.c:80-288 | Every tile keeps a last type in 2..16 in step with bpp, mask and divider; a valid tile shows its image, consumes its bytes, stays within the scratch buffer and leaves the palette later tiles refer to |
| Trle.HandleTRLE | src/encodings/trle.c:53-292 | Tiles that code an image, however they refer back, fill the rectangle with it and consume exactly their bytes without overrun; whatever the bytes, nothing outside the rectangle is written |
| TrleCarry.SameColour | src/encodings/trle.c:122-130 | Over any run of tiles: a tile that reuses a colour is the byte 127 and has the colour of the latest tile with colours of its own, which is solid |
| TrleCarry.SamePackedPalette | src/encodings/trle.c:122-168 | One that reuses a palette for packed indices is 127 and its indices, into the palette of that tile, also if it was palette RLE |
| TrleCarry.SameIndexedPalette | src/encodings/trle.c:208-254 | One that reuses a palette for palette RLE is 129 and its runs, with the latest palette of all, even if solid tiles came in between |
| TrleCarry.MayTakeOver | src/encodings/trle.c:122-168 | A colour may be reused if and only if the latest tile with colours of its own was solid, a packed palette if and only if it had 2 to 16 colours |
| TrleCarry.CodedTiles | src/encodings/trle.c:78-288 | A run of tiles is coded if and only if each tile is, given the tiles before it |
| Trle.AnyImage | src/encodings/trle.c:80-288 | Every image of every size has a coding |
| Hextile.BoxRoundTrip | include/rfbproto.h:676-687 | The extraction macros undo the packing of positions and sizes |
| Hextile.PaintStep | src/encodings/hextile.c:84-104 | Filling one more subrectangle over a painted tile paints it |
| Hextile.DrawSubrects | src/encodings/hextile.c:84-119 | The subrectangle loops paint in order, each in its own or in the carried colour; of coloured ones the last leaves its colour as the foreground, else the foreground stays |
| Hextile.HandleTile | src/encodings/hextile.c:51-120 | For every valid tile, given what earlier ones carry over as below: the painter's-order image, exactly its bytes, and background and foreground for the next, also after coloured subrectangles; for any bytes, nothing changes further than 31 pixels right of and below its corner |
| HextileCarry.BackgroundShown | src/encodings/hextile.c:63-67 | Over any run of tiles: where a painted tile has no subrectangle it shows the background of the last tile up to it that specified one, or 0 if none did |
| HextileCarry.ForegroundShown | src/encodings/hextile.c:69-119 | Where its subrectangles have no colours of their own it shows the foreground that the last tile up to it left: the one it specified, or of a tile with coloured subrectangles before it the last colour |
| HextileCarry.ColourShown | src/encodings/hextile.c:84-105 | Where a coloured subrectangle is the last over a place, its colour is shown |
| HextileCarry.ForegroundNeeded | src/encodings/hextile.c:69-119 | A tile without a foreground may have subrectangles without colours if and only if a tile before it left one; raw tiles in between do not matter |
| HextileCarry.PaintedBytes | include/rfbproto.h:676-680 | The bytes of a painted tile: the flags 2, 4, 8 and 16 for background, foreground, subrectangles and coloured ones, then these parts in turn, the subrectangles after their number |
| HextileCarry.EntryBytes | include/rfbproto.h:682-687 | A subrectangle: its colour if it has one, column and row in four bits each, and width and height less one |
| HextileCarry.CodedTiles | src/encodings/hextile.c:43-124 | A run of tiles is coded if and only if each tile is, given the tiles before it |
| Hextile.HandleHextile | src/encodings/hextile.c:43-124 | Tiles that code an image of any size, with colours carried from tile to tile as the code carries them, fill the rectangle with it, consume exactly their bytes and change nothing else; for any bytes, nothing changes outside the framebuffer, left of or above the rectangle, or further right and down than the last tiles' subrectangles reach |
| Hextile.BoxKeeps | src/encodings/hextile.c:96-104 | A subrectangle with whatever position and size changes nothing outside that reach |
| Hextile.AnyImage | src/encodings/hextile.c:43-124 | Every image of every size has a coding |
| Tiles.TileShown | src/encodings/hextile.c:43-49 | Drawing the clipped tile at (i, j) extends the part of the image that is shown by just that tile |
| Tiles.TileDone | src/encodings/hextile.c:43-49 | A decoder that consumes a tile's bytes and draws its image is at the next tile, with the rest of the bytes |
| Tiles.AllShown | src/encodings/hextile.c:43-49 | After the last tile row the whole rectangle is shown: the tiles partition it |
| TileWire.TilePlace | src/encodings/hextile.c:43-49 | Of m tiles a row, tile r * m + c is the one in column c and row r, clipped at the right and the lower edge |
| TightFormat.Unpack | src/encodings/tight.c:57-60 | For every format with disjoint components, in any order, each component of a packed pixel is found at its shift |
| TightFormat.PackFits | src/encodings/tight.c:57-73 | A packed pixel fits the pixel's bytes |
| TightFilter.RgbMeaning | src/encodings/tight.c:354-364 | Every pixel made of components has the first, second and third of its three at the shift of red, green and blue |
| TightWire.ThreeBytes | src/encodings/tight.c:325-342 | Pixels go in three bytes if and only if they have 32 bits, depth 24 and maxima of 255 |
| TightFilter.RowSizeIs | src/encodings/tight.c:210-211 | rowSize is the row's bits rounded up to whole bytes, for every filter |
| TightFilter.FilteredSplit | src/encodings/tight.c:299-307 | However rows are split between two filter calls, the same pixels come out as from one call |
| TightFilter.AfterSplit | src/encodings/tight.c:424 | The row of predictions left behind does not depend on the split either |
| TightEncode.PredictionUndone | include/rfbproto.h:783-792 | Adding the prediction to the transmitted difference gives the value back modulo the component's range |
| TightFilter.GradientMeaning | src/encodings/tight.c:389-484 | For every row, pixel and component: the prediction is above for the first pixel, and else the number from 0 to the maximum that is nearest above + left - above left; the value is prediction plus difference modulo maximum + 1, which is 256 or 2^bits |
| TightFilter.DifferenceMeaning | src/encodings/tight.c:400-471 | The difference is the byte of the component, or the bits of the pixel's word from the shift of red, green or blue on |
| TightEncode.GradientUndone | src/encodings/tight.c:389-484 | For every row of components and every row above, decoding the predicted and clamped differences restores it, in the 24-bit and in the shift/mask form |
| TightEncode.BitRead | src/encodings/tight.c:533-543 | Pixel x of a 1-bit row is bit 7 - x % 8 of byte x / 8, for every width |
| TightEncode.RowUndone | src/encodings/tight.c:344-549 | Every filter gives back the row that was sent, and leaves what the next row needs |
| TightEncode.RowsUndone | include/rfbproto.h:774-810 | For every filter and every image, filtering the data that was sent gives the image |
| TightRows.CopyRow | src/encodings/tight.c:366-370 | A row of words is copied pixel for pixel |
| TightRows.Copy24Row | src/encodings/tight.c:354-364 | A row of red, green and blue bytes becomes pixels of the client's format |
| TightRows.BitsRow | src/encodings/tight.c:533-543 | The whole-byte loop and the loop for what remains write exactly the indexed colours of a row of any width |
| TightRows.ColoursRow | src/encodings/tight.c:544-548 | A row of byte indices becomes the palette's colours |
| TightRows.Component | src/encodings/tight.c:409-418 | One component, in the cells of the arrays: (p + difference) mod (max + 1), where p is above for the first pixel, and else above + left - above left, but 0 if that is below 0 and max if it is above max |
| TightRows.GradientRow | src/encodings/tight.c:389-484 | A row of differences becomes the pixels of the restored components, which become the row above |
| TightWire.IndexedRows | src/encodings/tight.c:533-548 | Pixel 8 i + k of a row of bits has the colour of bit 7 - k of byte i, pixel i of a row of bytes that of byte i |
| TightWire.FilteredRow | src/encodings/tight.c:299-302 | Row j of what a filter draws comes of bytes j * rowSize to (j + 1) * rowSize of the data and what the rows above left |
| TightRows.StrayComponent | src/encodings/tight.c:400-403 | The stray pixel's components are what the buffer and the predictions begin with, added modulo 256 or 2^bits |
| TightRows.StrayRow | src/encodings/tight.c:400-407 | A gradient row without columns decodes its first pixel all the same and writes it |
| TightInflate.StrayColumn | src/encodings/tight.c:399-407 | The row loop with width 0 writes that pixel into a column; it runs past the framebuffer if and only if the column starts at the right edge and reaches the bottom, or there are no columns |
| TightInflate.StrayPlace | src/encodings/tight.c:391-392 | Where each of these writes goes, and the exact condition for it to be past the framebuffer |
| TightFilter.StrayChanges | src/encodings/tight.c:399-407 | Such a column leaves the framebuffer as it was if and only if it already held the pixel |
| TightInflate.FilterRows | src/encodings/tight.c:299-302 | A filter call draws exactly the rows that the specification makes of the buffer, and updates the predictions; it runs over if and only if a stray column does, or there is a row that thisRow does not hold |
| TightInflate.RowFitsBuffer | src/encodings/tight.c:259-264 | Rows up to 2048 pixels fit the part of the buffer that inflate fills, for every filter and pixel size, and so do all gradient rows that tightPrevRow holds |
| TightInflate.InflateSizes | src/encodings/tight.c:259 | How much inflate may fill, for every filter and pixel size: between 9308 and 153600 bytes |
| TightWire.RowsHeld | src/encodings/tight.c:372-396 | tightPrevRow holds gradient rows of 4096 24-bit pixels and 2048 others, thisRow 2048 |
| TightWire.PortionsTaken | src/encodings/tight.c:269-276 | Of compressed bytes that are not all there, whole portions of 30000 are read |
| TightInflate.Carried | src/encodings/tight.c:283-307 | Filtering the whole rows among the carried and the new bytes continues the filtering of all the data |
| TightInflate.FilterBlock | src/encodings/tight.c:299-307 | One turn of the loop keeps extraBytes below rowSize and at the front of the buffer; the move is between disjoint ranges or in place |
| TightInflate.InflatePortion | src/encodings/tight.c:283-308 | The inner loop hands out all that zlib makes of the bytes fed so far, in whatever pieces there is room for, and stops early only where zlib finds a fault or the rows run over |
| TightInflate.InflateRows | src/encodings/tight.c:259-316 | However the bytes are read and inflated in pieces: if they are there and zlib accepts them, it succeeds if and only if what zlib makes of them is rh rows that thisRow holds; then just these bytes are consumed and fed, and the screen is as if the filter had been applied once to all the data. It runs over if and only if a row too many comes out of the whole portions that are there, as far as zlib accepts them |
| Tight.CompactUndone | src/encodings/tight.c:641-661 | Reading undoes the one- to three-byte form of a length |
| TightWire.CompactSum | src/encodings/tight.c:641-661 | A length is the sum of its bytes' groups of seven, seven and eight bits, low ones first; a set top bit says that another byte follows |
| Tight.ReadCompactLen | src/encodings/tight.c:641-661 | The method reads the length the specification finds, consumes just its bytes, and fails if and only if they are not there |
| Tight.ExpandPalette | src/encodings/tight.c:509-513 | The in-place expansion of three-byte to four-byte colours from the top down loses no unread byte |
| Tight.InitFilterPalette | src/encodings/tight.c:486-522 | Succeeds if and only if a palette of at least two colours is there; it is consumed exactly and its colours are used |
| Tight.ChooseFilter | src/encodings/tight.c:180-208 | Succeeds if and only if the bytes name a filter and hold its palette; then the filter is the one named, set up for its first row, and just those bytes are consumed |
| Tight.HeaderUnique | src/encodings/tight.c:180-208 | The bytes determine the filter and how many they are, but for palette entries that were not sent |
| TightWire.HeaderIds | include/rfbproto.h:774-810 | Without a header the filter is copy; id 0 is copy, 2 gradient, 1 palette, followed by the number of colours less one; no other id names a filter |
| TightWire.ColoursSent | src/encodings/tight.c:486-522 | The colour of a solid rectangle and each colour of a palette: red, green and blue bytes in turn, or the pixel's own bytes |
| Tight.FillSolid | src/encodings/tight.c:135-155 | A solid rectangle: succeeds if and only if the colour is there, and fills with it |
| Tight.ReceiveCompressed | src/encodings/tight.c:219-257 | What is received of a compressed rectangle is what zlib makes of the bytes after their length, continuing the stream |
| Tight.ReceiveFlagged | src/encodings/tight.c:225-238 | What is received of a rectangle flagged as not compressed is the bytes after their length |
| Tight.ReceiveFew | src/encodings/tight.c:210-218 | What is received of fewer than 12 bytes is these bytes |
| TightWire.WithoutLength | src/encodings/tight.c:210-226 | Data of less than 12 bytes has no length before it, more has; a length of 0 is refused |
| TightSender.Headers | include/rfbproto.h:774-810 | Each filter has a header that names it, the palette filters one for all colours of the format |
| TightSender.AnyImage | include/rfbproto.h:774-810 | Every image that a filter allows has bytes that send it by way of any stream, resetting any set of streams, and whatever the buffer holds: without zlib up to the buffer's size, with zlib if it makes the data of some bytes |
| TightSender.ResetsAsked | src/encodings/tight.c:119-128 | A control byte resets just the streams it is asked to |
| Tight.BasicRectangle | src/encodings/tight.c:210-316 | Few, flagged and compressed bytes: it succeeds if and only if the data received is the rectangle's rows and thisRow holds them; then exactly the bytes received are consumed and the rectangle shows what the filter makes of all of them at once. It runs over if and only if a row too many is received, as far as zlib accepts what is there |
| Tight.WideGradient | src/encodings/tight.c:389-424 | A gradient rectangle wider than 2048 whose row tightPrevRow holds: without rows it succeeds and takes no bytes; with rows it never does, and runs over if and only if all flagged bytes are there, or zlib makes a whole row of the compressed ones that are |
| Tight.EmptyWideRectangle | src/encodings/tight.c:372-385 | The bytes 0x40 and 2 for 3000 columns and no rows of 24-bit pixels: success, nothing more is read |
| Tight.ResetStreams | src/encodings/tight.c:119-128 | Stream 0, 1, 2 and 3 start over if and only if the control byte's bit of value 1, 2, 4 and 8 is set; the others stay what they were |
| Tight.FlagValues | src/encodings/tight.c:119-128 | which is what the specification calls a reset |
| TightWire.ControlKinds | src/encodings/tight.c:130-208 | Every value of the high four bits: 0 to 7 use streams 0 to 3 without and with a filter id, 8 is solid, 9 JPEG, and 10, 11, 14 and 15 are 0, 1, 4 and 5 without zlib |
| TightWire.SolidOrUnknown | src/encodings/tight.c:135-176 | Bytes 128 to 143 begin a solid rectangle, which succeeds if and only if its colour is there; 144 to 159 and 192 to 223 fail |
| Tight.OutsideKept | src/encodings/tight.c:96-317 | A decoded rectangle leaves every place outside it as it was, except a gradient rectangle without columns; that one leaves the screen as it was if and only if its column already holds the pixel |
| Tight.ImageShown | src/encodings/tight.c:176-316 | Given the outcome, a rectangle that sends an image by any filter is shown, and its stream can be continued |
| Tight.HandleTight | src/encodings/tight.c:96-317 | Fails for no framebuffer, a rectangle out of bounds, no control byte or an unknown kind; a solid one succeeds if and only if its colour is there; one of rows succeeds if and only if the header names a filter, both row buffers hold its rows and the data received, by whatever way, is these; if header and data send an image, it is shown and exactly their bytes are consumed; each stream it does not use starts over if its bit, of value 1, 2, 4 or 8, is set, and else stays what it was |
| Updates.HeaderUndone | include/rfbproto.h:535-540 | Reading a rectangle header undoes its big-endian form |
| Updates.HeaderMeaning | include/rfbproto.h:535-540 | Column, row, width and height in two bytes each, then the encoding in four, all with the most significant byte first |
| Updates.HandleRect | src/rfbproto.c:1786-1797 | A rectangle with the encoding bytes FF FF FF 20 ends the update; another that is decoded has the encoding 7 and the header's place and size |
| Updates.HandleBody | src/rfbproto.c:2237-2262 | Whatever the input, a Tight rectangle that is decoded changes no place outside it, or outside its stray column if it has no columns; one of a session is drawn and leaves the four streams as the session goes on |
| Updates.HandleRects | src/rfbproto.c:1785-2350 | A run of Tight rectangles on four interleaved and reset streams: each is drawn in turn, and exactly their bytes are consumed. For any input, the changes of the screen are those of one event per rectangle, and the damage is what these report |
| Updates.RectSent | include/rfbproto.h:535-810 | Every image that a filter allows begins a session: a header and bytes that reset any set of the streams, go on with or start over any one, and leave the others |
| Updates.LastRectangle | src/rfbproto.c:1785-2350 | After such a run every place that a rectangle covers shows the image of the last that does |
| Updates.SessionIsWhole | src/rfbproto.c:1785-2350 | All rectangles of a session lie inside the framebuffer and have an image pixel for each place |
| Updates.WindowFollows | src/rfbproto.c:2345-2347 | A window that shows the screen sees these events and then shows the screen; its buffers stay coherent if and only if all events are harmless, which those of rectangles with columns are |
| Updates.StrayIsNotReported | src/rfbproto.c:1980-1992 | A gradient rectangle without columns leaves a window's buffers coherent if and only if its column already holds the pixel |
| Window.Step | src/main.c:802-888 | Every event keeps three buffers of the framebuffer's size and valid indices |
| Window.FinishIsSimple | src/main.c:866-888 | A finished update commits the whole framebuffer although only the buffer's accumulated damage was copied |
| Window.RectKeepsCoherence | src/vnc.c:72-85 | A rectangle keeps all buffers coherent if and only if every place it changes is reported, by it or before in the update, or is out of date in every buffer |
| Window.CoherentThroughout | src/main.c:802-888 | Over any run of updates and resizes every state is coherent if and only if every rectangle of the run is of that kind |
| Window.CommitsFramebuffer | src/main.c:866-888 | For any state, what an update commits is the framebuffer if and only if the buffer drawn into is up to date outside its damage and what the update reported |
| WindowUpdate.WholeUpdate | src/main.c:866-888 | A whole update, place by place: nothing is committed if and only if no rectangle has a place; else just the places of its rectangles are announced, and every place shows what was last drawn there, or what it showed before |
| Window.CacheIsInvisible | src/main.c:802-888 | Over any run whose rectangles are of that kind, every committed picture equals the whole framebuffer, and each buffer differs from it only inside its damage |
| Window.AnnouncementsCover | src/main.c:850-864 | Over any run whose rectangles report what they change, between commits without a resize the announced damage covers every changed pixel |
| Window.ResizeIsNotAnnounced | src/main.c:802-864 | For any run of rectangles of the first update after a resize, and any size: the announced damage covers the changes for all contents of the new memory if and only if what the rectangles report covers the whole framebuffer |
| Window.FirstCommit | src/main.c:802-888 | That update commits all of the new memory, announces its own rectangles only, and keeps the back buffer if and only if the index was 2 |
| Window.BackAndIndex | src/main.c:472-476 | The buffer index counts commits modulo 3; the back buffer is that one, or the first after a resize |
| Window.DrawnWhileShown | src/main.c:802-828 | The buffer just committed is drawn into next if and only if a resize came since the last commit and the index was 2 |
| Window.MainWindow.FinishUpdate | src/main.c:866-888 | The method does the Finish event of the model, on objects |
| Window.MainWindow.AllocFb | src/main.c:802-828 | The method does the Resize event of the model, on objects |
| Window.Buffer.RenderImage | src/renderer.c:45-56 | Inside the damage the buffer shows the framebuffer afterwards, outside what it showed, and no damage is left; a buffer that was right outside its damage is right everywhere |
| Sockets.FillConserves | src/sockets.c:41-71 | Filling the buffer loses no byte and fails only when the buffer is full or the connection at its end |
| Sockets.FillTakesMost | src/sockets.c:41-71 | A fill takes all of what has arrived, or as much as the 8192 bytes have room for |
| Sockets.ReadInOrder | src/sockets.c:73-96 | Bytes handed out, then those buffered and to come, are always the same sequence; success means exactly n bytes |
| Sockets.ReadSucceeds | src/sockets.c:73-96 | Without re-entry a read of n bytes succeeds if and only if n more bytes come |
| Sockets.WaitFails | src/sockets.c:79-83 | When a wait gives up although bytes are there: exactly if the nested fill takes a whole buffer, or the last bytes before the end |
| Sockets.Connection.ReadToBuffer | src/sockets.c:41-71 | The method does what the specification of one fill says |
| Sockets.Connection.ReadFromRFBServer | src/sockets.c:73-96 | Whatever is dispatched at the waits, a successful read hands out the next n bytes the server sent; a failed one means the end or a full buffer |
| Sockets.Connection.Process | src/vnc.c:397-414 | At most one handler is active; a caller that finds the lock taken does one fill and hands out nothing; another one handles message after message until one fails or nothing is buffered, and returns -1 if and only if the fill or the last message failed, or, with nothing buffered, any value |
| Sockets.Connection.RunMainLoopOnce | src/main.c:1043-1049 | Re-entry while a handler is active adds to the buffer only |
| Keyboard.UsedOnce | src/keyboard.c:48-76 | Every held key is in exactly one slot, and a free slot exists if and only if fewer than 256 keys are held |
| Keyboard.KeyTable.AddPressedKey | src/keyboard.c:58-68 | Adds the key to the set unless the table is full |
| Keyboard.KeyTable.RemovePressedKey | src/keyboard.c:70-76 | Removes the key from the set, and nothing else |
| Keyboard.KeyTable.HandleKey | src/keyboard.c:157-169 | One message is sent, and the table holds what the messages so far make of it |
| Keyboard.KeyTable.Enter | src/keyboard.c:171-184 | Sends exactly one press for each scan code that is down, in order, of that code plus 8 |
| Keyboard.KeyTable.Leave | src/keyboard.c:186-198 | Sends exactly one release for each used slot, in order, and ends empty; the server then has down just the lost keys: none, if at no time more than 256 keys were down and code 0 never was |
| Keyboard.LastMessageWins | src/keyboard.c:157-169 | A key is down for the server if and only if the last message about it was a press |
| Keyboard.KeyStuck | src/keyboard.c:58-68 | Over any run, a key is lost, and so still down for the server after leaving, if and only if the last message about it was a press that the table had no room for |
| Keyboard.KeptAndLost | src/keyboard.c:58-76 | Over any run, what the server has down is what the table holds and, apart from it, what was lost |
| Keyboard.NoKeyLost | src/keyboard.c:58-68 | Over any run, nothing is ever lost if and only if at no time more than 256 keys are down, nor one with code 0 |
| Pointer.Remainder | src/pointer.c:293-297 | What is left of an axis is less than a step and points the same way |
| Pointer.OnPointerEvent | src/main.c:741-773 | The click loop ends and sends exactly as many clicks in each direction as there are steps, each press followed by its release |
| Pointer.Rebalanced | src/pointer.c:293-301 | Taking out whole steps and sending as many clicks keeps the balance of an axis |
| Pointer.ScrollState.Axis | src/pointer.c:245-264 | Adds to one axis; ignored while no surface handles events |
| Pointer.ScrollState.Frame | src/pointer.c:284-306 | On each axis the clicks forth less those back, at 15 units each, are taken out; what remains is less than 15 units and points the same way; over the whole run nothing is lost or repeated |

## Left out

- Wayland, EGL, GBM, pixman, xkb, libav, aml: foreign libraries. A region is a set of places and `render_image` a copy inside it; pixman's 16-bit coordinates are unbounded here.
- zlib: an oracle. The inflate loop of `HandleZRLE` that only collects bytes is not modelled; what has room in the buffer it collects them in is said by `Zrle.StreamFits`.
- JPEG rectangles of Tight: `Tight.HandleTight` fails on them.
- UltraZip, AV frames and `open-h264`. UltraZip writes outside the rectangle it reports, so `Window.RectKeepsCoherence` says when it leaves the buffers incoherent.
- RRE, CoRRE, zlib and cursor encodings, clipboard, supported-message sets, inhibitor, output and seat handling: variants of what is covered, or single facts.
- TLS, SASL, socket set-up, credentials and the ciphers around the key exchange.
- Window scaling and pointer coordinates in floating point. Axis values are exact multiples of 1/256; the rounding of the quotient by 15 in double precision is not modelled.
- 15-bit pixels and the Up and Down compressed-pixel variants.
- The quantising filter of the ZYWRLE encoder; it loses information by design.
- ZywrleEncode.Analyze: 32-bit pixels and aligned sizes only, the latter because `src/encodings/zywrletemplate.c:767-768` lets the fringe loader overwrite the data pointer. Decoding is modelled for every size.
- Zrle.HandleZRLE: `finished` is false where a tile fails; the C function returns TRUE there too (`src/encodings/zrle.c:203-206`).
- Hextile.HandleTile: what tiles show that have a subrectangle outside the tile, or a foreground that nothing has set, is not stated, only how far they reach; the latter are painted in an uninitialised colour.
- Hextile.HandleHextile: the same.
- Tight.HandleTight: once zlib finds a fault, whether rows ran over before is left to zlib, which may hand out more or less of what precedes the fault. The shared `client->buffer` holds what the last Tight rectangle left there; other users of it are not part of this model.
- Updates.HandleRects: rectangles of other encodings end the loop; in the program they are handled by the other decoders.
- Window.AnnouncementsCover: for rectangles that report what they change; places that were out of date in every buffer are not excepted.
- TightRows.GradientRow: one method for `FilterGradient24` and `FilterGradientBPP`, which differ in where a difference is read and in the ranges of the components; masks of the form 2^k - 1 are remainders. `tightPrevRow` is an array of bytes for the one and of numbers for the other, as a connection has one pixel format.
- Sockets.Connection.ReadFromRFBServer: is called by the active handler. The connection closes after finitely many arrivals, which bounds the loops; what a message handler does with the bytes is any sequence of reads.
- Window.MainWindow.GotRect: decoding a rectangle and reporting it is one step.
- F12 and the key symbols: the table is about key codes; which of them are forwarded is not modelled.
- Rest of malformed-stream behaviour, logging and allocation failure.
