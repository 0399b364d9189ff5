# splash.img decoder, modelled in Dafny

A model of `logo_gen_decoder.py`, the decoder for the `splash.img` boot-logo
container of Snapdragon devices. The container starts with a 1024-byte reserved
region. After it come records, each made of:

- the 8-byte tag `SPLASH!!`;
- four little-endian 32-bit fields: width, height, an encoding flag that must be 1, and a payload size in 512-byte blocks;
- padding up to the next 512-byte boundary;
- the RLE24 payload;
- optional zero bytes.

Each payload is a sequence of tokens. A control byte `b >= 128` is a run: one
colour, stored blue, green, red, repeated `b + 1 - 128` times. Any other `b` is
a literal: `b + 1` colours, one per pixel. Pixels fill a `width x height`
raster in row-major order. Decoding stops after the token that completes the
raster, or when the stream ends where a control byte is due; pixels not reached
stay black. Every record that decodes becomes one image, saved under the output name with
the record number (1, 2, ...) inserted before the last `.`, or appended when the
name has no `.`.

The modules follow the source:

- `Wire` models `read_int32` and the bytes read from the file.
- `Pixels` models `int_to_rgb24`.
- `Raster` models the fill position and the raster that `decodeRLE24` writes.
- `Streams` models the Python file object: a byte sequence and a cursor that `read` and `seek` move.
- `Rle24` models `decodeRLE24`:
  - `DecodeFrom` / `Decode` are the specification functions;
  - `DecodeTokens` is the token loop, proved against `Decode`;
  - `DecodeStep` is one pass of that loop, proved against `DecodeFrom`;
  - `PlotRun` and `PlotLiteral` are the write loops of one token, proved against `DecodeToken`;
  - `DecodeRle24` creates the raster, runs `DecodeTokens` and moves the cursor to the payload's end.
- `Rle24Tokens` gives a reference encoder for the token grammar and proves that the decoder inverts it.
- `Naming` models the output file names.
- `Splash` models `process_splashimg`:
  - `Record` / `Walk` are the specification;
  - `ProcessSplashImg` and its helpers are the loop over records, proved against `WalkFile`.

Failures that the source raises as Python exceptions are values of
`Outcomes.Error`:

- `ShortField`: the length assert of `read_int32`.
- `NotEncoded`: the flag assert.
- `TruncatedPayload`: `read(1)[0]` on an empty read.
- `RasterOverrun`: a pixel write outside the image.

A walk that fails keeps the images saved before the failure.

The model follows the code:

- The reserved region is the fixed 1024 bytes of `logo_gen_decoder.py:83`.
- The decoder is given the whole stream, with no window bounded by the payload size. Tokens may read past the payload. Only afterwards does the cursor move to the payload's end (`logo_gen_decoder.py:57-58`).
- A stream that ends where a control byte is due is not an error. The raster is kept with its remaining pixels black (`logo_gen_decoder.py:33`).
- A first position without the tag ends the walk as unsupported, and a later one ends it normally (`logo_gen_decoder.py:89-91`).

## Model

| member | source | states |
|---|---|---|
| Wire.Slice | logo_gen_decoder.py:87 | `read(n)` yields the next bytes of the stream: all `n` when they are there, fewer near the end, none at or past the end |
| Wire.LittleEndian | logo_gen_decoder.py:73-76 | the definition the field reader is proved against: the value of the bytes read least significant first, b0 + 256 * (value of the rest) |
| Wire.LittleEndianAt | logo_gen_decoder.py:74-76 | the value the loop of `read_int32` holds once it has read byte k: the bytes from k on, accumulated from the most significant byte down |
| Wire.ReadInt32 | logo_gen_decoder.py:71-78 | succeeds exactly when given 4 bytes, failing with ShortField otherwise; the result is their little-endian value and is below 2^32 |
| Wire.LittleEndianAtStart | logo_gen_decoder.py:74-76 | accumulating from the most significant byte down, shifting by 8 bits per byte, gives the little-endian value of the bytes |
| Wire.Le32Value | logo_gen_decoder.py:73-76 | four bytes are worth b0 + 256*b1 + 65536*b2 + 16777216*b3, which is below 2^32 |
| Wire.Le32Bound | logo_gen_decoder.py:71-78 | a 4-byte field holds an unsigned 32-bit value |
| Wire.LittleEndianBound | logo_gen_decoder.py:73-76 | n little-endian bytes are worth less than 256^n |
| Wire.LittleEndianOfEncoding | logo_gen_decoder.py:73-76 | reading back the n-byte little-endian encoding of any v < 256^n gives v |
| Wire.EncodingOfLittleEndian | logo_gen_decoder.py:73-76 | encoding the value read from any bytes gives back those bytes, so the field reader is a bijection |
| Pixels.IntToRgb24 | logo_gen_decoder.py:64-68 | the red, green and blue channels keep exactly the low 24 bits of the value (val mod 2^24), negative values included, as Python's floor shift and `& 0xFF` do |
| Pixels.UnpackPacked | logo_gen_decoder.py:64-68 | unpacking the 0xRRGGBB value of a colour gives back its red, green and blue |
| Raster.Advance | logo_gen_decoder.py:42-43 | one step of (i, j) moves to the next pixel number, keeps i within the row, and wraps to a new row exactly when i returns to 0 |
| Raster.PixelPlacement | logo_gen_decoder.py:41-43 | the k-th pixel written lands at (k mod width, k div width) |
| Raster.RowMajorInjective | logo_gen_decoder.py:41-43 | two fill positions inside the row with the same pixel number are the same position |
| Raster.InsideRaster | logo_gen_decoder.py:19-20 | with i inside the row, row j exists in the image exactly when the pixel number is below width * height |
| Raster.PixelAt | logo_gen_decoder.py:19-23 | the colour of (x, y) after the pixels written so far were placed in row-major order from (0, 0) into a raster created black |
| Raster.Shows | logo_gen_decoder.py:19-22 | the raster `pixelsNew` holds: every (x, y) in the image has the colour PixelAt gives it |
| Raster.PixelPlaced | logo_gen_decoder.py:41-43 | in a raster that shows the pixels written, the k-th pixel written is the colour at (k mod width, k div width), which lies inside the image |
| Raster.Put | logo_gen_decoder.py:41 | writing at the fill position adds the colour as the next pixel in row-major order; the rest of the raster keeps its pixels and stays black where unwritten |
| Streams.Stream.constructor | logo_gen_decoder.py:82 | a newly opened file holds its bytes and its cursor is at 0 |
| Streams.Stream.Read | logo_gen_decoder.py:87 | returns what `read(n)` yields at the cursor and moves the cursor past exactly those bytes |
| Streams.Stream.SeekTo | logo_gen_decoder.py:83 | an absolute seek puts the cursor at the target |
| Streams.Stream.SeekBy | logo_gen_decoder.py:113 | a relative seek moves the cursor by the offset |
| Rle24.ColorAt | logo_gen_decoder.py:36-39 | the colour of the triple at q is (r, g, b), the wire giving blue, green, red |
| Rle24.Colors | logo_gen_decoder.py:45-49 | the colours of a literal's n triples: exactly n of them, one per triple (ColorsIndex gives each one) |
| Rle24.ColorsIndex | logo_gen_decoder.py:45-49 | the k-th colour of a literal comes from the k-th triple after the control byte, with the wire giving blue, green, red |
| Rle24.Repeat | logo_gen_decoder.py:40-41 | the pixels of a run: exactly n of them (RepeatIndex shows each is the run's colour) |
| Rle24.RepeatIndex | logo_gen_decoder.py:40-41 | every pixel of a run is the run's colour |
| Rle24.DecodeToken | logo_gen_decoder.py:34-51 | a token that decodes moves past its control byte but not past the end of the stream, and writes at least one pixel and no more than fit |
| Rle24.TokenPixels | logo_gen_decoder.py:34-51 | a run succeeds exactly when its 3 colour bytes are there and its b + 1 - 128 pixels fit; it consumes 4 bytes and writes that many copies of (r, g, b) read as b, g, r. A literal succeeds exactly when its 3(b + 1) colour bytes are there and its b + 1 pixels fit; it consumes 1 + 3(b + 1) bytes and writes the triples in stream order |
| Rle24.TokenError | logo_gen_decoder.py:36-51 | which error a failing token reports: a run whose colour is cut short gives TruncatedPayload, and one whose colour is there but whose copies do not fit gives RasterOverrun. A literal reads colour k, then writes it, so with `whole` triples left it fails at colour min(whole, room): TruncatedPayload when whole <= room, RasterOverrun when room < whole |
| Rle24.DecodeFrom | logo_gen_decoder.py:32-55 | never writes more pixels than the raster holds; a raster left short means the stream ended where a control byte was due, and the cursor is then at the end of the stream, or still at the start when decoding started past the end; after any pixels, the cursor is within the stream |
| Rle24.DecodeFromStep | logo_gen_decoder.py:33-55 | a token that leaves the raster short is followed by decoding the rest from its end, with the remaining room |
| Rle24.Decode | logo_gen_decoder.py:18-55 | the decoding of a width x height payload: DecodeFrom from its first control byte with width * height pixels of room |
| Rle24.ReadByte | logo_gen_decoder.py:55 | `read(1)` gives the byte at the cursor and moves past it, or nothing at the end of the stream |
| Rle24.ReadColor | logo_gen_decoder.py:36-38 | three one-byte reads give the colour of the triple at the cursor (blue, green, red on the wire) and move past it, or fail when the stream ends within it |
| Rle24.FillPosition | logo_gen_decoder.py:23 | the counters (i, j) after `count` pixels: count == j * width + i with i inside the row, or both 0 before any pixel |
| Rle24.OutsideMeansFull | logo_gen_decoder.py:41 | a write at the fill position is out of the image exactly when width * height pixels have already been written |
| Rle24.StopMeansFull | logo_gen_decoder.py:52-54 | the stop test `j == columns and i == 0` holds exactly when the raster is complete |
| Rle24.PlotRun | logo_gen_decoder.py:35-43 | a run either fails as DecodeToken says or adds its pixels to the raster in row-major order, leaving the cursor after its colour |
| Rle24.PlotLiteral | logo_gen_decoder.py:44-51 | a literal either fails as DecodeToken says or adds its pixels to the raster in row-major order, leaving the cursor after its last colour |
| Rle24.PlotToken | logo_gen_decoder.py:34-51 | a token either fails as DecodeToken says or adds its pixels to the raster in row-major order |
| Rle24.TokenFails | logo_gen_decoder.py:36-49 | a failing token ends the whole decoding with its error |
| Rle24.TokenCompletes | logo_gen_decoder.py:52-54 | a token that completes the raster ends the decoding right after it |
| Rle24.TokenContinues | logo_gen_decoder.py:55 | a token that leaves room hands over to the decoding from the next control byte |
| Rle24.StreamEnds | logo_gen_decoder.py:33 | an empty read where a control byte is due ends the decoding with the pixels written so far |
| Rle24.DecodeStep | logo_gen_decoder.py:34-54 | one pass of the loop either fails as the decoding does, completes it, or leaves the rest of the decoding to the next control byte |
| Rle24.DecodeTokens | logo_gen_decoder.py:32-55 | the loop fails exactly when the decoding does; otherwise the raster shows the decoded pixels in row-major order and black elsewhere, and the cursor is after the last token |
| Rle24.DecodeRle24 | logo_gen_decoder.py:18-61 | returns a width x height raster showing the decoded pixels and black elsewhere, or the decoding's failure; with payload bounds given, the cursor ends at start + size however many bytes the tokens used |
| Rle24Tokens.EncodeColorsAt | logo_gen_decoder.py:46-48 | the reference encoding puts colour k at bytes 3k, 3k + 1 and 3k + 2 as blue, green, red |
| Rle24Tokens.TokenInStream | logo_gen_decoder.py:34-51 | the encoding of a token, between any other bytes, is that token at its position |
| Rle24Tokens.EncodingLaidOut | logo_gen_decoder.py:32-55 | the encoding of a token list, between any other bytes, holds its tokens one after another |
| Rle24Tokens.DecodeEncodedRun | logo_gen_decoder.py:35-43 | an encoded run of n copies (1 to 128) that fits decodes to n copies of its colour and consumes 4 bytes |
| Rle24Tokens.DecodeEncodedLiteral | logo_gen_decoder.py:44-51 | an encoded literal of 1 to 128 colours that fits decodes to exactly those colours and consumes 1 + 3 bytes per colour |
| Rle24Tokens.DecodeEncodedToken | logo_gen_decoder.py:34-51 | any encoded token whose pixels fit decodes to its pixels and ends where its encoding ends, whatever follows it |
| Rle24Tokens.DecodeFromFull | logo_gen_decoder.py:52-54 | a token that fills the raster ends the decoding with its pixels |
| Rle24Tokens.ConsThenRest | logo_gen_decoder.py:33-55 | a first token that leaves room, followed by the decoding of the rest, decodes the whole list |
| Rle24Tokens.ConsFills | logo_gen_decoder.py:52-54 | a list whose only token fills the raster decodes to that token |
| Rle24Tokens.DecodeEncodedAt | logo_gen_decoder.py:32-55 | tokens laid out from p decode to their pixels in order and stop right after them, when they fill the raster or the stream ends there |
| Rle24Tokens.HeadFillsRoom | logo_gen_decoder.py:52-54 | a list whose first token fills the raster decodes to that token alone |
| Rle24Tokens.HeadLeavesRoom | logo_gen_decoder.py:33-55 | a list whose first token leaves room decodes to that token's pixels, followed by the rest's |
| Rle24Tokens.DecodeEncoded | logo_gen_decoder.py:32-55 | decoding inverts encoding: in a stream holding the encoding of any token list between any bytes before it and either any bytes after it (when its pixels fill the raster) or nothing (when they fit), decoding from its first byte yields the list's pixels in order and ends right after its encoding |
| Naming.LastDot | logo_gen_decoder.py:102 | `rfind('.')`: the position of a '.' with none after it, or none when the name has no '.' |
| Naming.LastDotIs | logo_gen_decoder.py:102 | the last '.' is unique: any position meeting that description is the one found |
| Naming.Decimal | logo_gen_decoder.py:104 | `str(i)` is a non-empty string of decimal digits without leading zeros |
| Naming.DecimalRoundTrip | logo_gen_decoder.py:104 | the digits of `str(i)` denote i |
| Naming.DecimalInjective | logo_gen_decoder.py:104 | different numbers have different decimal forms |
| Naming.OutputName | logo_gen_decoder.py:102-106 | the name is the template lengthened by the number's digits |
| Naming.NameKeepsExtension | logo_gen_decoder.py:102-106 | the number goes before the last '.', so the name keeps the template's extension; without a '.', the number is appended and the name still has none |
| Naming.NamesDistinct | logo_gen_decoder.py:102-106 | two record numbers that give the same name are the same number |
| Splash.Field | logo_gen_decoder.py:92 | a field read from the stream is below 2^32 |
| Splash.U32At | logo_gen_decoder.py:92-96 | the value of the 4-byte field at q: b0 + 256*b1 + 65536*b2 + 16777216*b3 |
| Splash.ParseHeader | logo_gen_decoder.py:92-95 | the fields are read in the order width, height, flag, blocks: a stream that ends within the first three fields gives ShortField; a flag other than 1 gives NotEncoded with that flag, before the block count is read; a flag of 1 succeeds exactly when the block count is also there, and otherwise gives ShortField |
| Splash.FieldHolds | logo_gen_decoder.py:92-96 | a field at q holds the 32-bit v exactly when its four bytes are v's little-endian encoding |
| Splash.HeaderRoundTrip | logo_gen_decoder.py:92-96 | a header parses to (width, height, blocks) exactly when its 16 bytes are width, height, the flag 1 and blocks, in that order, each little-endian |
| Splash.NextBoundary | logo_gen_decoder.py:98 | the padding ends at a multiple of 512 strictly after the position and at most 512 bytes on |
| Splash.NextBoundaryLeast | logo_gen_decoder.py:98 | no multiple of 512 lies strictly after the position and before where the padding ends |
| Splash.Resume | logo_gen_decoder.py:110-113 | where the zero skip leaves the cursor: within the stream and not before q when q is within it, one byte before q otherwise |
| Splash.ResumeLands | logo_gen_decoder.py:110-113 | the zero skip leaves the cursor on the first non-zero byte; when only zeros follow, on the last byte; at or past the end of the stream, one byte back |
| Splash.TagAt | logo_gen_decoder.py:87-89 | the 8 bytes at the position are ASCII "SPLASH!!"; a read cut short by the end of the stream is a mismatch |
| Splash.Record | logo_gen_decoder.py:86-113 | a record ends the walk as unsupported exactly when it is record 1 and the tag is missing; a record that decodes has its tag inside the stream, is numbered as given, has no more pixels than width * height, and the walk moves forward |
| Splash.Walk | logo_gen_decoder.py:84-113 | the images are numbered index, index + 1, ... and each has no more pixels than its size; the walk is unsupported exactly when it starts at record 1 without a tag, and then it saves nothing |
| Splash.WalkFile | logo_gen_decoder.py:83-85 | the walk from byte 1024 numbers its images 1, 2, ...; it is unsupported exactly when byte 1024 does not hold the tag, and then it saves nothing |
| Splash.WalkNamesDistinct | logo_gen_decoder.py:102-109 | no two images of a walk are saved under the same name |
| Splash.RecordUntagged | logo_gen_decoder.py:87-91 | a position without the tag ends the walk: unsupported at record 1, a normal end afterwards |
| Splash.RecordHeaderFails | logo_gen_decoder.py:92-95 | a record whose header does not parse ends the walk with the header's failure |
| Splash.RecordPayloadFails | logo_gen_decoder.py:98-100 | a record whose payload does not decode ends the walk with the decoder's failure |
| Splash.RecordDecodes | logo_gen_decoder.py:87-113 | a record with the tag, a valid header and a payload that decodes saves its pixels under its number, and the walk goes on from where the zero skip after its payload blocks lands |
| Splash.WalkContinues | logo_gen_decoder.py:85-113 | a record that decodes saves its image, and the walk goes on with the next number |
| Splash.WalkStops | logo_gen_decoder.py:87-95 | a record that ends the walk saves nothing more |
| Splash.MatchTag | logo_gen_decoder.py:87-89 | reading 8 bytes matches exactly when the tag is at the cursor, and then moves past it |
| Splash.ReadField | logo_gen_decoder.py:92 | `read_int32(f.read(4))` is the field at the cursor, and moves past it when it succeeds |
| Splash.ReadHeader | logo_gen_decoder.py:92-96 | the four reads give the parsed header (width, height, flag checked to be 1, blocks) and move 16 bytes on |
| Splash.SkipZeros | logo_gen_decoder.py:110-113 | the loop and the step back leave the cursor where ResumeLands says |
| Splash.ProcessPayload | logo_gen_decoder.py:96-113 | after the header, the record's payload is decoded from the next 512-byte boundary into a width x height raster; on success the cursor lands where the zero skip after the payload's blocks leaves it |
| Splash.ProcessRecord | logo_gen_decoder.py:86-113 | one pass of the loop ends the walk as Record says, or returns the record's raster and leaves the cursor where Record says the walk goes on |
| Splash.Saved | logo_gen_decoder.py:102-108 | each image handed to `save`, in order, under the output name of its number, as a raster of its size showing its pixels |
| Splash.SavedAppend | logo_gen_decoder.py:102-108 | saving the next image under its name extends the images saved, in order |
| Splash.SaveNext | logo_gen_decoder.py:86-113 | one pass saves what the walk saves at the cursor, then either ends the walk or moves the cursor forward to the next record |
| Splash.ProcessSplashImg | logo_gen_decoder.py:81-115 | the images saved, in order, are those of the walk from byte 1024, numbered from 1, each under its output name as a raster of its size showing its pixels; the walk's status is returned |

## Left out

- Image library calls (`Image.new`, `load`, `save`) are modelled as a fresh `array2` of black pixels, and saving is modelled as the list of names and rasters returned. File formats, encodings and I/O errors on save are not modelled.
- Opening and closing the file, `print`, `main` and command-line handling (`logo_gen_decoder.py:82`, `90`, `107`, `115`, `118` onward) are I/O and are not modelled. The input is the file's bytes.
- Splash.Record: compares the tag as bytes. A tag that is not valid UTF-8 ends the walk like any mismatch. In the source, `decode("utf-8")` raises an exception for it instead.
- Exceptions are `Outcomes.Error` values, and a failed walk reports its error. The message texts of the asserts are not modelled.
- The image library's limits on image size, and the memory a very large raster needs, are not modelled. Width and height are unbounded naturals.
- Streams.Stream.SeekBy: requires a target at or after the start of the file. Python raises an error for any other target; no caller in the source asks for one, since the cursor is at least 1024 there.
- Rle24Tokens: the reference encoder is not part of the source. No encoder for the container exists in this file, so the round trip is only stated for the RLE24 payload and the header fields.
