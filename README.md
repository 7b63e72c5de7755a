# smb_tex texture containers, modelled in Dafny

This project models the core of `smb_tex`, a tool that unpacks texture
packages into PNG images plus JSON metadata and packs them back. It covers
three parts of `src/texture.rs`:

- the container reader (`read_texture_package`, the binrw layout of
  `TexturePackage`, `Texture` and `TextureHeader`, and `read_texture_data`);
- the container writer (`write_texture_package`);
- the pixel codec both of them use, for the four formats R5G5B5A1, R4G4B4A4,
  R5G6B5 and R8G8B8A8.

A container starts with an 8-byte prologue: the texture count, then the
table pointer 0x20. From 0x20 on comes one 36-byte record per texture: its
32-byte header (id, width, height, four opaque i32 fields and the format
discriminant, all little-endian) followed by the absolute offset of its
payload. The payloads follow the table in texture order. A payload holds
the image's rows from the bottom up, each pixel encoded in the texture's
format.

Modules, from the bottom up:

- `Bytes`: little-endian integers, `Or` on naturals, and sequence lemmas.
- `Formats`: the format enum, its discriminants and `data_size`.
- `Headers`: the header record, its metadata and its 32 bytes.
- `IoCursor`: `std::io::Cursor` over a growing vector, as a class.
- `PixelCodec`: pixel decoding and encoding, and what a pixel becomes after a write then a read.
- `Rasters`: `RgbaImage` as a width, a height and a pixel sequence, plus the vertical flip.
- `Package`: the in-memory package.
- `Reader`: reading, as functions returning `Result`, with `read_texture_data` also as a method with its loop.
- `Layout`: where everything lies in a container.
- `Writer`: the writer as methods over a `Cursor`, proved to produce `Layout`'s bytes.
- `RoundTrip`: reading back what the writer wrote.

The main results:

- **Read after write.** `RoundTrip.ReadWritten` shows that reading what the
  writer wrote gives back the package with every pixel requantised by its
  format. Metadata, dimensions, order and count are exact
  (`RoundTrip.MetadataRoundTrip`). R8G8B8A8 packages come back unchanged
  (`RoundTrip.R8G8B8A8RoundTrip`).
- **Write after read.** Writing a package read from a container that this
  writer produced reproduces the container's bytes for R4G4B4A4 and
  R8G8B8A8 (`RoundTrip.RewriteWritten`). Other containers the reader accepts
  need not come back byte for byte (`RoundTrip.RewriteOtherContainer`).
- **Where byte-exact rewriting fails.** It does not hold for R5G5B5A1 or
  R5G6B5 (see the notes below).

## Model

| member | source | states |
|---|---|---|
| Formats.FormatFromDiscriminant | src/texture.rs:57-64 | a u32 names a format exactly when it is 0 to 3, the format read back has that discriminant, any other value fails with UnknownFormat carrying the value |
| Formats.DiscriminantRoundTrip | src/texture.rs:57-64 | every format's discriminant reads back as that format |
| Formats.DataSizeIsProduct | src/texture.rs:105-113 | `data_size` is width times height times 2 for the 16-bit formats, 4 for R8G8B8A8 |
| Headers.TextureHeader.Meta | src/texture.rs:78-88 | `meta()` drops only the dimensions: with the header's width and height it rebuilds the header |
| Headers.HeaderOfMeta | src/texture.rs:211-222 | the header the writer builds for a texture gives back that texture's metadata |
| Headers.DecodeHeader | src/texture.rs:66-76 | 32 header bytes decode exactly when the format field holds a known discriminant; otherwise the error is UnknownFormat with that field's value |
| Headers.FieldsOfHeaderBytes | src/texture.rs:66-76 | field `k` of a header's bytes is its `k`-th field in declaration order, four little-endian bytes |
| Headers.DecodeHeaderBytes | src/texture.rs:66-76 | a written header reads back as the same header |
| Headers.HeaderBytesOfDecode | src/texture.rs:66-76 | 32 bytes that decode are exactly the bytes of the header they decode to |
| Bytes.DecodeEncodeU32 | src/texture.rs:224-225 | a u32 written little-endian reads back unchanged |
| Bytes.EncodeDecodeU32 | src/texture.rs:51-55 | any four bytes are the little-endian encoding of the u32 they read as |
| Bytes.DecodeEncodeI32 | src/texture.rs:71-74 | an i32 written as four two's-complement little-endian bytes reads back unchanged |
| Bytes.EncodeDecodeI32 | src/texture.rs:71-74 | any four bytes are the encoding of the i32 they read as |
| Bytes.DecodeEncodeU16 | src/texture.rs:244 | a u16 written little-endian reads back unchanged |
| Bytes.EncodeDecodeU16 | src/texture.rs:148 | any two bytes are the encoding of the u16 they read as |
| Bytes.OrDisjoint | src/texture.rs:243 | OR-ing a value shifted left by `k` with a value below `2^k` is their sum |
| IoCursor.Cursor.constructor | src/texture.rs:200-208 | a cursor starts at position 0 over an empty vector |
| IoCursor.Cursor.Seek | src/texture.rs:210 | a seek moves the position and leaves the bytes alone, even past the end |
| IoCursor.Cursor.Write | src/texture.rs:209 | a write pads with zeros up to the position, overwrites, extends the vector, and advances the position by the length written |
| IoCursor.OverwriteAt | src/texture.rs:209-210 | each byte after a write is the written byte, else the old byte, else 0 |
| IoCursor.OverwriteAtEnd | src/texture.rs:244 | writing at the end appends |
| IoCursor.OverwritePastEnd | src/texture.rs:210 | writing past the end leaves zero padding before the bytes written |
| IoCursor.OverwriteConcat | src/texture.rs:224-225 | two consecutive writes are one write of both |
| PixelCodec.DecodeR5G5B5A1 | src/texture.rs:155-160 | a decoded R5G5B5A1 pixel is fully transparent or fully opaque |
| PixelCodec.DecodeR4G4B4A4 | src/texture.rs:161-166 | every decoded R4G4B4A4 channel is a multiple of 17 |
| PixelCodec.DecodeR5G6B5 | src/texture.rs:172-179 | a decoded R5G6B5 pixel is opaque (RGB converted to RGBA) |
| PixelCodec.Expand4 | src/texture.rs:162-165 | a 4-bit field scaled by 0xFF / 0xF is the field times 17 |
| PixelCodec.UnpackR5G5B5A1 | src/texture.rs:155-160 | shifting and masking a word built from 5/5/5/1-bit fields gives back each field |
| PixelCodec.UnpackR4G4B4A4 | src/texture.rs:161-166 | shifting and masking a word built from four nibbles gives back each nibble |
| PixelCodec.UnpackR5G6B5 | src/texture.rs:175-177 | shifting and masking a word built from 5/6/5-bit fields gives back each field |
| PixelCodec.NibblesOfWord | src/texture.rs:161-166 | every 16-bit word is the sum of its four nibbles at their shifts |
| PixelCodec.DecodeR5G5B5A1Fields | src/texture.rs:155-160 | a word assembled from fields decodes to the expanded fields, alpha 0 or 255 |
| PixelCodec.PackR5G5B5A1Disjoint | src/texture.rs:239-243 | the R5G5B5A1 fields at shifts 11/6/1/0 do not overlap: their OR is their sum and fits 16 bits |
| PixelCodec.PackR4G4B4A4Disjoint | src/texture.rs:247-251 | the nibbles at shifts 12/8/4/0 do not overlap: their OR is their sum and fits 16 bits |
| PixelCodec.PackR5G6B5Disjoint | src/texture.rs:261-264 | the R5G6B5 fields at shifts 11/5/0 do not overlap: their OR is their sum and fits 16 bits |
| PixelCodec.EncodeR5G5B5A1IsOr | src/texture.rs:238-245 | the model's R5G5B5A1 word equals the writer's OR of the narrowed channels at their shifts |
| PixelCodec.EncodeR4G4B4A4IsOr | src/texture.rs:246-253 | the model's R4G4B4A4 word equals the writer's OR of the narrowed channels at their shifts |
| PixelCodec.EncodeR5G6B5IsOr | src/texture.rs:260-266 | the model's R5G6B5 word equals the writer's OR of the narrowed channels; alpha is dropped |
| PixelCodec.NarrowAlpha | src/texture.rs:242 | the 1-bit alpha is set exactly for channel 255 |
| PixelCodec.Requantise4 | src/texture.rs:247-250 | a channel narrowed to a nibble is the channel divided by 17, and it comes back as 17 times that |
| PixelCodec.DecodeEncodeR5G5B5A1 | src/texture.rs:238-245 | decoding the encoded pixel gives the pixel with each channel narrowed to 5 bits and expanded back, alpha 255 only if it was 255 |
| PixelCodec.DecodeEncodeR4G4B4A4 | src/texture.rs:246-253 | decoding the encoded pixel rounds every channel down to a multiple of 17 |
| PixelCodec.DecodeEncodeR5G6B5 | src/texture.rs:260-266 | decoding the encoded pixel requantises R and B to 5 bits and G to 6 bits, and makes it opaque |
| PixelCodec.DecodeEncodeWord | src/texture.rs:237-266 | for each 16-bit format, decode after encode is that format's quantisation |
| PixelCodec.EncodeDecodeR4G4B4A4 | src/texture.rs:161-166 | every R4G4B4A4 word survives a decode followed by an encode |
| PixelCodec.R5G5B5A1RewriteDrift | src/texture.rs:155-160 | the R5G5B5A1 word 0x0800 decodes to red 8, which encodes to word 0 |
| PixelCodec.R5G6B5RewriteDrift | src/texture.rs:175-177 | the R5G6B5 word 0x0800 decodes to red 8, which encodes to word 0 |
| PixelCodec.R5G5B5A1RedDrift | src/texture.rs:239 | a red channel of 9 gets the red field 1, but after one read it gets field 0 |
| PixelCodec.R5G5B5A1PixelDrift | src/texture.rs:238-245 | such a pixel's bytes differ before and after one read |
| PixelCodec.R5G5B5A1PayloadDrift | src/texture.rs:235-245 | a run of pixels holding such a pixel encodes differently before and after requantisation |
| PixelCodec.RequantiseError | src/texture.rs:239-241 | a requantised channel never exceeds the original and is at most 9 below it for 5-bit fields, 4 for 6-bit, 16 for 4-bit |
| PixelCodec.RequantiseErrorAttained | src/texture.rs:239 | channel 41 comes back as 32, so the 5-bit bound 9 is reached |
| PixelCodec.EncodePixel | src/texture.rs:237-266 | a pixel takes 2 bytes in the 16-bit formats, 4 in R8G8B8A8 |
| PixelCodec.DecodeEncodePixel | src/texture.rs:237-266 | decoding an encoded pixel gives the pixel quantised by its format, for all four formats |
| PixelCodec.EncodeDecodePixel | src/texture.rs:146-186 | in R4G4B4A4 and R8G8B8A8 any pixel's bytes survive a decode followed by an encode |
| PixelCodec.DecodePixelChannels | src/texture.rs:155-186 | every decoded pixel has its format's channel properties (1-bit alpha 0 or 255, nibble channels multiples of 17, R5G6B5 opaque) |
| PixelCodec.DataSizeIsOffset | src/texture.rs:142 | `data_size` is a whole number of pixels: the offset of pixel width times height |
| PixelCodec.DecodePixels | src/texture.rs:146-186 | a payload decodes to one pixel per word, or per four bytes for R8G8B8A8 |
| PixelCodec.EncodePixels | src/texture.rs:236-266 | a pixel run encodes to its length times the bytes per pixel |
| PixelCodec.DecodePixelsAt | src/texture.rs:153-169 | pixel `i` of a payload is decoded from its own bytes alone |
| PixelCodec.EncodePixelsAt | src/texture.rs:236-266 | the bytes at pixel `i` of an encoded run are the encoding of pixel `i` |
| PixelCodec.EncodePixelsConcat | src/texture.rs:235-236 | encoding two runs one after the other is encoding their concatenation |
| PixelCodec.PixelCount | src/texture.rs:142-148 | a payload as long as `n` pixels decodes to `n` pixels |
| PixelCodec.DecodeEncodePixels | src/texture.rs:146-186 | decoding an encoded run gives the run with every pixel quantised |
| PixelCodec.EncodeDecodePixels | src/texture.rs:232-270 | in R4G4B4A4 and R8G8B8A8 any payload survives a decode followed by an encode |
| PixelCodec.EncodeQuantised | src/texture.rs:246-259 | in R4G4B4A4 and R8G8B8A8 a quantised pixel encodes to the same bytes as the pixel |
| PixelCodec.EncodeQuantiseAll | src/texture.rs:246-259 | the same for a whole run of pixels |
| PixelCodec.DecodePixelsChannels | src/texture.rs:146-186 | every pixel of a decoded payload has its format's channel properties |
| PixelCodec.R8G8B8A8Copy | src/texture.rs:184-186 | R8G8B8A8 pixels are copied through unchanged |
| Rasters.FlipV | src/texture.rs:190 | the flip keeps the dimensions and one pixel per cell |
| Rasters.FlipRowsNext | src/texture.rs:235 | proof step (one unfolding of the flip): the next row the writer visits is the next one from the bottom |
| Rasters.FlipRowsAt | src/texture.rs:235-236 | pixel `x` of row `j` in bottom-up order is pixel `x` of row `height - 1 - j` |
| Rasters.FlipVAt | src/texture.rs:190 | pixel (x, y) of the flipped image is pixel (x, height - 1 - y) of the original |
| Rasters.FlipVPixel | src/texture.rs:190 | the same, stated on the flipped image's pixel sequence |
| Rasters.FlipVInvolution | src/texture.rs:190 | flipping twice gives back the image |
| Rasters.QuantiseRasterAt | src/texture.rs:146-186 | every pixel of a requantised image is the original pixel quantised |
| Rasters.FlipVQuantise | src/texture.rs:190 | flipping commutes with quantisation |
| Package.RequantisedTexture | src/texture.rs:121-130 | what a reader sees of a written texture keeps its metadata and dimensions |
| Package.Requantised | src/texture.rs:9-16 | a package read back has as many textures, each requantised in place |
| Reader.ReadU32 | src/texture.rs:13 | a u32 reads exactly when four bytes remain; its encoding is those bytes; otherwise the buffer is too short |
| Reader.ReadHeader | src/texture.rs:125 | a header reads from the 32 bytes at its offset, and fails when they are not all there |
| Reader.ReadPayload | src/texture.rs:142-144 | `read_exact` succeeds exactly for a size of 0 or a payload inside the buffer, giving exactly those bytes |
| Reader.TextureData | src/texture.rs:139-193 | the image reads exactly when its payload does; it has the header's dimensions and one pixel per cell |
| Reader.DecodeWordPixels | src/texture.rs:151-178 | the pixel loop over the u16 words produces the specified decoding of the payload |
| Reader.ReadTextureData | src/texture.rs:139-193 | `read_texture_data` returns exactly the specified result, error or flipped image |
| Reader.FlipRowsPixels | src/texture.rs:190 | every pixel of the flipped image is a pixel of the original |
| Reader.FlippedAt | src/texture.rs:190 | pixel (x, y) of the flipped image is the pixel stored at column x of row height - 1 - y |
| Reader.FlippedPayloadAt | src/texture.rs:146-190 | pixel (x, y) of the flipped image of a payload is the decoding of the bytes of the pixel stored at column x of row height - 1 - y |
| Reader.TextureDataAt | src/texture.rs:139-193 | for any container, pixel (x, y) of the image read is the decoding of the payload bytes stored at column x of row height - 1 - y |
| Reader.TextureDataChannels | src/texture.rs:146-190 | every pixel of an image read in a format has that format's channel properties |
| Reader.ReadTexture | src/texture.rs:121-130 | a record reads exactly when its header, its pointer and its payload do; the texture has the header's metadata and the image at the pointer; a header error is passed on, every other failure is a short buffer |
| Reader.ReadItems | src/texture.rs:14-15 | a table read that succeeds has exactly `count` items; its errors are given by `Reader.ReadItemsErr` and `Reader.ReadItemsFails` |
| Reader.ReadItemsErr | src/texture.rs:14-15 | a table read that fails stops at its first failing item: every item before it reads, and the error is that item's error |
| Reader.ReadItemsFails | src/texture.rs:14-15 | conversely, a table read whose first failing item is within `count` returns that item's error |
| Reader.ReadItemsOk | src/texture.rs:14-15 | item `i` of a table read is the record read 36 bytes times `i` after the first |
| Reader.ReadItemsOf | src/texture.rs:14-15 | records that each read give a table of exactly those records |
| Reader.ReadTextures | src/texture.rs:14-15 | a texture table that reads holds `count` textures; its errors are given by `Reader.ReadTexturesErr` and `Reader.ReadTexturesFails` |
| Reader.ReadTexturesErr | src/texture.rs:9-16 | a texture table that fails stops at its first failing record: every earlier record reads, and the error is that record's error |
| Reader.ReadTexturesFails | src/texture.rs:9-16 | conversely, a table whose first failing record is within `count` fails with that record's error |
| Reader.ReadTexturesOk | src/texture.rs:14-15 | texture `i` of a table that reads is the record at 0x20 + 36 `i` |
| Reader.ReadTexturesOfRecords | src/texture.rs:14-15 | records that each read make a table that reads as them |
| Reader.ReadPackage | src/texture.rs:195-197 | a package reads exactly when the table its prologue names does; it holds `count` textures; fewer than 8 bytes is a short buffer |
| Reader.ReadPackageErr | src/texture.rs:9-16 | a package of at least 8 bytes that fails to read has a first failing record: every earlier record reads, and the package's error is that record's error (by `Reader.ReadTexture`, UnknownFormat from its header or otherwise MalformedContainer) |
| Reader.ReadPackageFails | src/texture.rs:9-16 | conversely, a package whose first failing record is within the count fails with that record's error |
| Reader.ShortBuffer | src/texture.rs:195-197 | a buffer of fewer than 8 bytes fails as too short |
| Reader.EmptyTable | src/texture.rs:9-16 | a count of 0 gives an empty package, whatever the pointer |
| Reader.TruncatedRecord | src/texture.rs:125 | a first header past the end of the buffer fails as too short |
| Reader.UnknownFirstFormat | src/texture.rs:75 | a first record whose format field is above 3 fails with UnknownFormat and that value |
| Reader.UnknownFormatAt | src/texture.rs:66-76 | when every record before record `i` reads and record `i`'s format field is above 3, the package fails with UnknownFormat carrying that value |
| Layout.Prologue | src/texture.rs:201-204 | the prologue is 8 bytes |
| Layout.Table | src/texture.rs:211-228 | `i` records take 36 `i` bytes |
| Layout.TableSoFar | src/texture.rs:208-228 | after `i` records the vector ends at 0x20 + 36 `i` (8 bytes before the first) |
| Layout.Container | src/texture.rs:199-273 | the container ends where the last payload ends, or after the prologue when there are no textures |
| Layout.PayloadPointerNext | src/texture.rs:227 | proof step (one unfolding of the pointer sum): the next payload starts where this one ends |
| Layout.TableGrows | src/texture.rs:224-225 | one more record extends the table by that record, which names an offset that fits a u32 |
| Layout.TableWritten | src/texture.rs:224-225 | writing record `i` at 0x20 + 36 `i` turns the table of `i` records into the table of `i + 1` |
| Layout.TableSoFarGrows | src/texture.rs:210-225 | the first record also leaves 24 zero bytes of padding before it |
| Layout.PayloadsGrow | src/texture.rs:232-270 | proof step (one unfolding of the payload area): one more payload is appended after the others |
| Layout.EmptyContainer | src/texture.rs:199-210 | with no textures the container is the 8 bytes 0, 0, 0, 0, 0x20, 0, 0, 0 |
| Layout.PrologueAt | src/texture.rs:201-204 | bytes 0 to 3 hold the count and bytes 4 to 7 hold 0x20 |
| Layout.PaddingAt | src/texture.rs:210 | with at least one texture, bytes 8 to 31 are zero |
| Layout.RecordInTable | src/texture.rs:211-228 | record `i` of the table is entry `i`'s header followed by its payload offset |
| Layout.RecordAt | src/texture.rs:211-228 | record `i` lies at 0x20 + 36 `i` in the container |
| Layout.PayloadAt | src/texture.rs:232-270 | payload `i` lies in the container at the offset its record names |
| Layout.TableStateStart | src/texture.rs:206-210 | the record loop starts at the table pointer, with `data_offset` just past the table |
| Layout.TableStateEnd | src/texture.rs:230 | when the record loop ends, the position is 0x20 + 36 times the count, as the assertion checks |
| Writer.PayloadSize | src/texture.rs:212 | a texture's payload is `data_size` bytes long |
| Writer.EntryOf | src/texture.rs:211-270 | a texture contributes a 32-byte header and a payload of `data_size` bytes |
| Writer.Entries | src/texture.rs:211 | one entry per texture, in order |
| Writer.PointerOfSizes | src/texture.rs:206-227 | `data_offset` at record `i` is 0x20 + 36 times the count plus the sizes of the payloads before |
| Writer.PointerOfTextures | src/texture.rs:206-227 | the same for a package's own entries |
| Writer.WritePixel | src/texture.rs:237-266 | writing a pixel appends its encoding |
| Writer.WriteRow | src/texture.rs:236-268 | writing a row appends the encoding of its pixels in order |
| Writer.RowCount | src/texture.rs:235 | `rows()` yields no row for an image zero pixels wide, and otherwise one per line |
| Writer.RowsSoFarNext | src/texture.rs:235-268 | each row the loop writes appends the next row from the bottom |
| Writer.RowsSoFarAll | src/texture.rs:235-269 | all the rows written bottom-up make the payload |
| Writer.WriteTextureData | src/texture.rs:233-269 | writing a texture's pixels appends its payload |
| Writer.WriteRecord | src/texture.rs:213-225 | the record loop body overwrites 36 bytes at the position with the header and `data_offset` |
| Writer.WriteTableEntry | src/texture.rs:211-228 | one turn of the record loop keeps its invariant: the records so far, the position after them, `data_offset` at the next payload |
| Writer.WriteTable | src/texture.rs:211-230 | the record loop leaves the prologue, padding and table, with the position at the table's end |
| Writer.WriteEntryPayload | src/texture.rs:232-270 | one turn of the payload loop appends that texture's payload |
| Writer.WritePayloads | src/texture.rs:232-270 | the payload loop appends every payload in order |
| Writer.WritePrologue | src/texture.rs:201-209 | the header writes the count and 0x20 |
| Writer.WriteTexturePackage | src/texture.rs:199-273 | `write_texture_package` returns exactly the container of the package's entries |
| Writer.EmptyPackage | src/texture.rs:199-273 | an empty package is written as 8 bytes |
| Writer.PayloadPixel | src/texture.rs:235-266 | payload pixel `i` is the encoding of pixel `i` of the flipped image |
| Writer.PayloadRows | src/texture.rs:235-266 | pixel `x` of payload row `k` is the encoding of pixel (x, height - 1 - k) |
| Writer.EntriesOf | src/texture.rs:211-270 | each entry holds its texture's header bytes and payload |
| Writer.RecordFields | src/texture.rs:211-228 | record `i` holds id, width, height, the four opaque fields, the format's discriminant and the payload offset, 4 bytes each |
| RoundTrip.PayloadDecodes | src/texture.rs:139-193 | a written payload reads back as the texture's image quantised by its format |
| RoundTrip.RecordReads | src/texture.rs:121-130 | a stored record and payload read back as the texture, requantised |
| RoundTrip.StoredAt | src/texture.rs:211-270 | each written record and payload lie where the table says |
| RoundTrip.ContainerLaid | src/texture.rs:199-273 | the writer's container has the layout the reader expects |
| RoundTrip.LaidPrologue | src/texture.rs:9-16 | the reader finds the count and the table pointer that were written |
| RoundTrip.LaidEntryReads | src/texture.rs:121-130 | record `i` reads back as texture `i`, requantised |
| RoundTrip.LaidTableReads | src/texture.rs:14-15 | the table reads back as the textures, requantised, in order |
| RoundTrip.ContainerReads | src/texture.rs:195-197 | bytes with that layout read back as the package, requantised |
| RoundTrip.ReadWritten | src/texture.rs:199-273 | reading what was written gives back every texture in order, requantised |
| RoundTrip.MetadataRoundTrip | src/texture.rs:199-273 | reading what was written gives the same count and order, and per texture the same metadata, width and height |
| RoundTrip.RequantisedR8G8B8A8 | src/texture.rs:184-186 | R8G8B8A8 textures are unchanged by quantisation |
| RoundTrip.R8G8B8A8RoundTrip | src/texture.rs:254-259 | an R8G8B8A8 package reads back exactly as written |
| RoundTrip.PayloadRequantised | src/texture.rs:246-259 | in R4G4B4A4 and R8G8B8A8 a texture read back has the same payload as the original |
| RoundTrip.EntriesRequantised | src/texture.rs:211-270 | such textures read back give the same entries |
| RoundTrip.RewriteWritten | src/texture.rs:199-273 | writing an R4G4B4A4 or R8G8B8A8 package read back from a container this writer produced reproduces the same bytes |
| RoundTrip.RewriteOtherContainer | src/texture.rs:9-16 | the 8-byte container with count 0 and table pointer 0x40 reads as the empty package, which is written back with pointer 0x20, so other bytes |
| RoundTrip.R5G5B5A1RewriteChanges | src/texture.rs:238-245 | an R5G5B5A1 texture with a red channel of 9 does not: rewriting it changes its payload |

## Notes on behaviour

These statements follow the code.

- **Floor scaling both ways.** The 5-bit and 6-bit fields are scaled with
  truncating divisions in both directions. So a read followed by a write is
  not byte-exact for R5G5B5A1 or R5G6B5. The word 0x0800 decodes to red 8,
  and red 8 encodes to field 0 (`PixelCodec.R5G5B5A1RewriteDrift`,
  `PixelCodec.R5G6B5RewriteDrift`). A texture with such a pixel changes
  payload when rewritten (`RoundTrip.R5G5B5A1RewriteChanges`). For
  R4G4B4A4 and R8G8B8A8, rewriting this writer's own output is byte-exact
  (`RoundTrip.RewriteWritten`).
- **Worst-case 5-bit error.** A 5-bit channel comes back up to 9 below the
  original, not 8: channel 41 becomes 32 (`PixelCodec.RequantiseError`,
  `PixelCodec.RequantiseErrorAttained`).
- **No dimension check.** The writer never rejects dimensions. Its u32
  arithmetic (`width * height * bpp` and the running `data_offset`) is
  assumed not to overflow. The model states this as the precondition
  `Writer.Writable`; on the reader side, `Reader.RecordFits` requires it for
  each record read.
- **Empty packages.** A package with no textures is written as the 8
  prologue bytes alone, with no padding (`Writer.EmptyPackage`).
- **R5G5B5A1 red field.** The red field starts at bit 11, the green at bit
  6, the blue at bit 1, and alpha is bit 0.
- **Zero-length payloads.** A payload of size 0 reads successfully wherever
  its pointer points, because `read_exact` of no bytes succeeds.

## Left out

- `TexturePackage::from_directory` and `src/main.rs`: directory listing,
  PNG and JSON I/O, and the command line, which are outside the container
  format. The order in which `read_dir` lists files is not modelled.
- binrw, the image crate and bytemuck are modelled only by their visible
  effect: little-endian fields, `FilePtr32` as an absolute offset, `count`
  as a table of consecutive 36-byte records, `flipv`, and RGB-to-RGBA
  conversion with alpha 255. `cast_slice` is modelled as little-endian u16
  words; its alignment panic and the host's endianness are not modelled.
- `std::io` errors. The writer writes to a vector, so its `?` branches
  cannot fail; they are not modelled. The reader's failures are two values:
  MalformedContainer for a buffer that ends early, and UnknownFormat for a
  bad discriminant. UnknownFormat carries the bad value, where binrw's
  `NoVariantMatch` for the `repr = u32` enum carries the stream position
  instead; the error's payload is not modelled.
- Rewriting a container the writer did not produce is not byte-exact, and
  the model does not promise it. A different table pointer, gaps between
  payloads, payloads out of order and non-zero padding are all read without
  complaint and written back in the writer's own layout
  (`RoundTrip.RewriteOtherContainer` exhibits the first).
- Writer.Writable: u32 overflow of `data_size` and `data_offset` (which
  panics in debug builds and wraps in release builds) is excluded by this
  precondition, not modelled.
- Reader.RecordFits: a record whose declared payload size overflows u32 is
  excluded rather than modelled with wrap-around.
- PixelCodec.EncodeR5G5B5A1, PixelCodec.EncodeR4G4B4A4,
  PixelCodec.EncodeR5G6B5: the words are defined as sums of the shifted
  fields. The OR the source computes is linked to them by the `IsOr` lemmas.
- The `unwrap` calls on `RgbaImage::from_vec` cannot fail when the
  payload has `data_size` bytes, so their panics are not modelled.
