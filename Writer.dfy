/**
 * `write_texture_package`: the container a package is written to.
 *
 * The writer puts down the prologue, seeks to the table pointer 0x20 (so
 * bytes 8 to 31 become zero padding once the first record is written),
 * writes one record per texture naming the offset its payload will have,
 * then the payloads in texture order. Each payload holds the image's rows
 * from the bottom one up, every pixel encoded in the texture's format.
 * Where all of that lies is the business of `Layout`; this module says
 * which header and which payload each texture contributes.
 */
module Writer {
  import opened Bytes
  import opened Formats
  import opened Headers
  import opened PixelCodec
  import opened Rasters
  import opened Package
  import opened IoCursor
  import opened Layout

  /** Every image is well formed: one pixel per cell. */
  predicate AllValid(ts: seq<Texture>)
  {
    forall i | 0 <= i < |ts| :: ts[i].data.Valid()
  }

  /** A texture's payload: the rows bottom first, each pixel in the texture's format. */
  function Payload(t: Texture): seq<byte>
    requires t.data.Valid()
  {
    EncodePixels(t.meta.format, FlipV(t.data).pixels)
  }

  /** The payload is as long as `data_size` says. */
  lemma {:induction false} PayloadSize(t: Texture)
    requires t.data.Valid()
    ensures |Payload(t)| == t.Size()
  {
    DataSizeIsOffset(t.meta.format, t.data.width, t.data.height);
  }

  /** What a texture contributes to the container: its header's bytes and its payload. */
  function EntryOf(t: Texture): (e: Entry)
    requires t.data.Valid()
    ensures |e.header| == 32 && |e.payload| == t.Size()
  {
    PayloadSize(t);
    Entry(HeaderBytes(HeaderOf(t.meta, t.data.width, t.data.height)), Payload(t))
  }

  /**
   * The entries of a package, texture by texture: the reference definition
   * of the records and payloads that the writer's loops are proved to lay
   * out.
   */
  function Entries(ts: seq<Texture>): (es: seq<Entry>)
    requires AllValid(ts)
    ensures |es| == |ts| && forall j | 0 <= j < |ts| :: es[j] == EntryOf(ts[j])
  {
    seq(|ts|, j requires 0 <= j < |ts| => EntryOf(ts[j]))
  }

  /** The payload sizes of the first `i` textures, added up. */
  function SizesBefore(ts: seq<Texture>, i: nat): nat
    requires i <= |ts|
  {
    if i == 0 then 0 else SizesBefore(ts, i - 1) + ts[i - 1].Size()
  }

  /** Entries whose payloads have the sizes of the textures' payloads. */
  predicate SizedAs(es: seq<Entry>, ts: seq<Texture>)
  {
    |es| == |ts| && forall j | 0 <= j < |ts| :: |es[j].payload| == ts[j].Size()
  }

  /**
   * The offset the writer's `data_offset` holds at record `i`: the end of
   * the table plus the sizes of the payloads before, as the texture sizes
   * give them.
   */
  lemma {:induction false} PointerOfSizes(es: seq<Entry>, ts: seq<Texture>, i: nat)
    requires SizedAs(es, ts) && i <= |ts|
    ensures PayloadPointer(es, i) == TableEnd(|ts|) + SizesBefore(ts, i)
    decreases i
  {
    if i > 0 {
      PointerOfSizes(es, ts, i - 1);
      PayloadPointerNext(es, i - 1);
    }
  }

  lemma {:induction false} PointerOfTextures(ts: seq<Texture>, i: nat)
    requires AllValid(ts) && i <= |ts|
    ensures PayloadPointer(Entries(ts), i) == TableEnd(|ts|) + SizesBefore(ts, i)
  {
    PointerOfSizes(Entries(ts), ts, i);
  }

  /** What the writer needs: every image is well formed and no offset overflows u32. */
  predicate Writable(pkg: TexturePackage)
  {
    AllValid(pkg.textures) && OffsetsFit(Entries(pkg.textures))
  }

  lemma {:induction false} EntriesWellFormed(ts: seq<Texture>)
    requires AllValid(ts) && OffsetsFit(Entries(ts))
    ensures WellFormed(Entries(ts))
  {
  }

  /** The container `write_texture_package` produces. */
  function PackageBytes(pkg: TexturePackage): (b: seq<byte>)
    requires Writable(pkg)
  {
    EntriesWellFormed(pkg.textures);
    Container(Entries(pkg.textures))
  }

  // ---------------------------------------------------------------------------
  // The writer
  // ---------------------------------------------------------------------------

  /** One pixel, as the `match` on the format in the pixel loop writes it. */
  method WritePixel(cur: Cursor, f: TextureFormat, p: Rgba)
    requires cur.pos == |cur.buf|
    modifies cur
    ensures cur.buf == old(cur.buf) + EncodePixel(f, p) && cur.pos == |cur.buf|
  {
    if f == R8G8B8A8 {
      OverwriteAtEnd(cur.buf, [p.r]);
      cur.Write([p.r]);
      OverwriteAtEnd(cur.buf, [p.g]);
      cur.Write([p.g]);
      OverwriteAtEnd(cur.buf, [p.b]);
      cur.Write([p.b]);
      OverwriteAtEnd(cur.buf, [p.a]);
      cur.Write([p.a]);
    } else {
      var short := EncodeWord(f, p);
      OverwriteAtEnd(cur.buf, EncodeU16(short));
      cur.Write(EncodeU16(short));
    }
  }

  /** The pixels of one row, left to right. */
  method WriteRow(cur: Cursor, f: TextureFormat, row: seq<Rgba>)
    requires cur.pos == |cur.buf|
    modifies cur
    ensures cur.buf == old(cur.buf) + EncodePixels(f, row) && cur.pos == |cur.buf|
  {
    var x := 0;
    while x < |row|
      invariant 0 <= x <= |row|
      invariant cur.buf == old(cur.buf) + EncodePixels(f, row[..x]) && cur.pos == |cur.buf|
    {
      WritePixel(cur, f, row[x]);
      EncodePixelsNext(f, row, x);
      AppendAssoc(old(cur.buf), EncodePixels(f, row[..x]), EncodePixel(f, row[x]));
      x := x + 1;
    }
    TakeAll(row);
  }

  /** How many rows `rows()` yields: none for an image zero pixels wide. */
  function RowCount(r: Raster): (n: nat)
    ensures n <= r.height as int
    ensures n == 0 <==> r.width == 0 || r.height == 0
  {
    if r.width == 0 then 0 else r.height as nat
  }

  /** What the row loop has written after `k` rows: the bottom `k` rows, encoded. */
  function RowsSoFar(t: Texture, k: nat): seq<byte>
    requires t.data.Valid() && k <= t.data.height as int
  {
    EncodePixels(t.meta.format, FlipRows(t.data, k))
  }

  /** One more row appends that row's encoding. */
  lemma {:induction false} RowsSoFarNext(t: Texture, k: nat)
    requires t.data.Valid() && k < t.data.height as int
    ensures RowsSoFar(t, k + 1) == RowsSoFar(t, k) + EncodePixels(t.meta.format, Row(t.data, t.data.height as int - 1 - k))
  {
    FlipRowsNext(t.data, k);
    EncodePixelsConcat(t.meta.format, FlipRows(t.data, k), Row(t.data, t.data.height as int - 1 - k));
  }

  /** Once every row has been visited the payload is complete. */
  lemma {:induction false} RowsSoFarAll(t: Texture)
    requires t.data.Valid()
    ensures RowsSoFar(t, RowCount(t.data)) == Payload(t)
  {
    var r := t.data;
    if r.width == 0 {
      RowStartIsProduct(0, r.height as int);
      assert FlipRows(r, r.height as int) == [] == FlipRows(r, 0);
    }
  }

  /** The state of the row loop after `k` rows: the cursor sits at the end of what was written. */
  predicate RowsWritten(buf: seq<byte>, pos: int, start: seq<byte>, t: Texture, k: nat)
  {
    t.data.Valid() && k <= RowCount(t.data) && pos == |buf| && buf == start + RowsSoFar(t, k)
  }

  /** Writing the next row from the bottom keeps the row loop's state. */
  lemma {:induction false} RowsWrittenNext(buf: seq<byte>, start: seq<byte>, t: Texture, k: nat)
    requires RowsWritten(buf, |buf|, start, t, k) && k < RowCount(t.data)
    ensures RowsWritten(buf + EncodePixels(t.meta.format, Row(t.data, t.data.height as int - 1 - k)),
                        |buf| + |EncodePixels(t.meta.format, Row(t.data, t.data.height as int - 1 - k))|, start, t, k + 1)
  {
    var row := EncodePixels(t.meta.format, Row(t.data, t.data.height as int - 1 - k));
    RowsSoFarNext(t, k);
    AppendAssoc(start, RowsSoFar(t, k), row);
  }

  lemma {:induction false} RowsWrittenStart(buf: seq<byte>, t: Texture)
    requires t.data.Valid()
    ensures RowsWritten(buf, |buf|, buf, t, 0)
  {
    assert RowsSoFar(t, 0) == [];
  }

  lemma {:induction false} RowsWrittenEnd(buf: seq<byte>, pos: int, start: seq<byte>, t: Texture, k: nat)
    requires RowsWritten(buf, pos, start, t, k) && k >= RowCount(t.data)
    ensures buf == start + Payload(t) && pos == |buf|
  {
    RowsSoFarAll(t);
  }

  /** Row `height - 1 - k` is the next one the row loop visits, and the cursor is at the end. */
  lemma {:induction false} RowsReady(buf: seq<byte>, pos: int, start: seq<byte>, t: Texture, k: nat)
    requires RowsWritten(buf, pos, start, t, k) && k < RowCount(t.data)
    ensures t.data.Valid() && 0 <= t.data.height as int - 1 - k < t.data.height as int && pos == |buf|
  {
  }

  /**
   * The pixel loop for one texture: `rows().rev()`, then every pixel of
   * the row. An image zero pixels wide has no rows to visit.
   */
  method WriteTextureData(cur: Cursor, t: Texture)
    requires t.data.Valid() && cur.pos == |cur.buf|
    modifies cur
    ensures cur.buf == old(cur.buf) + Payload(t) && cur.pos == |cur.buf|
  {
    var rows := RowCount(t.data);
    var k := 0;
    RowsWrittenStart(cur.buf, t);
    while k < rows
      invariant RowsWritten(cur.buf, cur.pos, old(cur.buf), t, k)
      decreases rows - k
    {
      ghost var before := cur.buf;
      RowsReady(cur.buf, cur.pos, old(cur.buf), t, k);
      WriteRow(cur, t.meta.format, Row(t.data, t.data.height as int - 1 - k));
      RowsWrittenNext(before, old(cur.buf), t, k);
      k := k + 1;
    }
    RowsWrittenEnd(cur.buf, cur.pos, old(cur.buf), t, k);
  }

  /** The headers of the entries are those of the textures, and the payloads have their sizes. */
  predicate HeadersOf(es: seq<Entry>, ts: seq<Texture>)
  {
    SizedAs(es, ts) &&
    forall j {:trigger HeaderOf(ts[j].meta, ts[j].data.width, ts[j].data.height)} | 0 <= j < |ts| ::
      es[j].header == HeaderBytes(HeaderOf(ts[j].meta, ts[j].data.width, ts[j].data.height))
  }

  /** The payloads of the entries are those of the well-formed textures. */
  predicate PayloadsOf(es: seq<Entry>, ts: seq<Texture>)
    requires AllValid(ts)
  {
    |es| == |ts| && forall j {:trigger Payload(ts[j])} | 0 <= j < |ts| :: es[j].payload == Payload(ts[j])
  }

  /** A record: `header.write_le`, then `data_offset.write_le`. */
  method WriteRecord(cur: Cursor, t: Texture, ghost e: Entry, ptr: u32)
    requires e.header == HeaderBytes(HeaderOf(t.meta, t.data.width, t.data.height))
    modifies cur
    ensures cur.buf == Overwrite(old(cur.buf), old(cur.pos), Record(e, ptr))
    ensures cur.pos == old(cur.pos) + TexHeaderSize
  {
    var header := HeaderOf(t.meta, t.data.width, t.data.height);
    cur.Write(HeaderBytes(header));
    cur.Write(EncodeU32(ptr));
    OverwriteConcat(old(cur.buf), old(cur.pos), HeaderBytes(header), EncodeU32(ptr));
  }

  /** One turn of the record loop: write record `i` and move `data_offset` past its payload. */
  method WriteTableEntry(cur: Cursor, ts: seq<Texture>, ghost es: seq<Entry>, i: nat, dataOffset: u32) returns (next: u32)
    requires TableState(cur.buf, cur.pos, dataOffset, es, i) && HeadersOf(es, ts) && i < |ts|
    modifies cur
    ensures TableState(cur.buf, cur.pos, next, es, i + 1)
  {
    var t := ts[i];
    var dataSize := t.meta.DataSize(t.data.width, t.data.height);
    TableWritten(es, i);
    WriteRecord(cur, t, es[i], dataOffset);
    PayloadPointerNext(es, i);
    PayloadPointerFits(es, i + 1);
    next := dataOffset + dataSize;
  }

  /**
   * The record loop, started at the table pointer: each record names the
   * offset its payload will have, and `data_offset` moves on by the
   * payload's size.
   */
  method WriteTable(cur: Cursor, ts: seq<Texture>, ghost es: seq<Entry>)
    requires HeadersOf(es, ts) && WellFormed(es)
    requires cur.buf == Prologue(|ts|) && cur.pos == TableStart
    modifies cur
    ensures cur.buf == Head(es) && cur.pos == TableEnd(|ts|)
  {
    assert |es| == |ts|;
    TableStateStart(es);
    var dataOffset: u32 := TableStart + |ts| * TexHeaderSize;
    var i := 0;
    while i < |ts|
      invariant TableState(cur.buf, cur.pos, dataOffset, es, i)
    {
      dataOffset := WriteTableEntry(cur, ts, es, i, dataOffset);
      i := i + 1;
    }
    TableStateEnd(cur.buf, cur.pos, dataOffset, es, i);
  }

  /** One turn of the payload loop: texture `i`'s payload, which is entry `i`'s. */
  method WriteEntryPayload(cur: Cursor, ts: seq<Texture>, ghost es: seq<Entry>, i: nat)
    requires AllValid(ts) && PayloadsOf(es, ts) && i < |ts| && cur.pos == |cur.buf|
    modifies cur
    ensures cur.buf == old(cur.buf) + es[i].payload && cur.pos == |cur.buf|
  {
    WriteTextureData(cur, ts[i]);
  }

  /** The state of the payload loop after `i` textures: their payloads follow what was there before. */
  predicate PayloadsWritten(buf: seq<byte>, pos: int, start: seq<byte>, es: seq<Entry>, i: nat)
  {
    i <= |es| && buf == start + Payloads(es, i) && (|es| > 0 ==> pos == |buf|)
  }

  /** The cursor is at the end of what was written, and one more payload keeps the loop's state. */
  lemma {:induction false} PayloadNext(buf: seq<byte>, pos: int, start: seq<byte>, es: seq<Entry>, i: nat)
    requires PayloadsWritten(buf, pos, start, es, i) && i < |es|
    ensures pos == |buf|
    ensures PayloadsWritten(buf + es[i].payload, |buf + es[i].payload|, start, es, i + 1)
  {
    PayloadsGrow(es, i);
    AppendAssoc(start, Payloads(es, i), es[i].payload);
  }

  /** The payload loop: every texture's pixels, in texture order, after the table. */
  method WritePayloads(cur: Cursor, ts: seq<Texture>, ghost es: seq<Entry>)
    requires AllValid(ts) && PayloadsOf(es, ts) && (|ts| > 0 ==> cur.pos == |cur.buf|)
    modifies cur
    ensures cur.buf == old(cur.buf) + Payloads(es, |es|)
  {
    var i := 0;
    while i < |ts|
      invariant PayloadsWritten(cur.buf, cur.pos, old(cur.buf), es, i)
      decreases |ts| - i
    {
      PayloadNext(cur.buf, cur.pos, old(cur.buf), es, i);
      WriteEntryPayload(cur, ts, es, i);
      i := i + 1;
    }
  }

  /** `TexturePackageHeaderRaw::write_le` into the empty vector. */
  method WritePrologue(cur: Cursor, n: u32)
    requires cur.buf == [] && cur.pos == 0
    modifies cur
    ensures cur.buf == Prologue(n) && cur.pos == 8
  {
    cur.Write(EncodeU32(n));
    cur.Write(EncodeU32(TableStart));
    OverwriteConcat([], 0, EncodeU32(n), EncodeU32(TableStart));
    OverwriteAtEnd([], Prologue(n));
  }

  /** `write_texture_package`: the prologue, the record table, then the payloads. */
  method WriteTexturePackage(pkg: TexturePackage) returns (out: seq<byte>)
    requires Writable(pkg)
    ensures out == PackageBytes(pkg)
  {
    var ts := pkg.textures;
    ghost var es := Entries(ts);
    EntriesWellFormed(ts);
    PayloadPointerFits(es, 0);
    var cur := new Cursor();
    WritePrologue(cur, |ts|);
    cur.Seek(TableStart);
    WriteTable(cur, ts, es);
    WritePayloads(cur, ts, es);
    out := cur.buf;
  }

  // ---------------------------------------------------------------------------
  // What the container holds
  // ---------------------------------------------------------------------------

  /** An empty package is the eight bytes of its prologue and nothing more. */
  lemma {:induction false} EmptyPackage(pkg: TexturePackage)
    requires pkg.textures == []
    ensures Writable(pkg) && PackageBytes(pkg) == [0, 0, 0, 0, 0x20, 0, 0, 0]
  {
    assert Entries(pkg.textures) == [];
    EmptyContainer([]);
  }

  /** The bytes of pixel `i` of the payload encode pixel `i` of the flipped raster. */
  lemma {:induction false} PayloadPixel(t: Texture, i: nat, p: Rgba)
    requires t.data.Valid() && i < |FlipV(t.data).pixels| && FlipV(t.data).pixels[i] == p
    ensures Offset(t.meta.format, i + 1) <= |Payload(t)|
    ensures PixelBytes(t.meta.format, Payload(t), i) == EncodePixel(t.meta.format, p)
  {
    EncodedPixel(t.meta.format, FlipV(t.data).pixels, i, p);
  }

  /** The payload holds the bottom row first: pixel `x` of stored row `k` is pixel `x` of row `height - 1 - k`. */
  lemma {:induction false} PayloadRows(t: Texture, k: nat, x: nat)
    requires t.data.Valid() && k < t.data.height && x < t.data.width
    ensures Offset(t.meta.format, RowStart(t.data.width, k) + x + 1) <= |Payload(t)|
    ensures PixelBytes(t.meta.format, Payload(t), RowStart(t.data.width, k) + x) ==
            EncodePixel(t.meta.format, PixelAt(t.data, x, t.data.height - 1 - k))
  {
    FlipVPixel(t.data, x, k);
    PayloadPixel(t, RowStart(t.data.width, k) + x, PixelAt(t.data, x, t.data.height - 1 - k));
  }

  /** The entries the writer builds carry the textures' headers and payloads. */
  lemma {:induction false} EntriesOf(ts: seq<Texture>)
    requires AllValid(ts)
    ensures HeadersOf(Entries(ts), ts) && PayloadsOf(Entries(ts), ts)
  {
    var es := Entries(ts);
    forall j | 0 <= j < |ts|
      ensures |es[j].payload| == ts[j].Size()
      ensures es[j].header == HeaderBytes(HeaderOf(ts[j].meta, ts[j].data.width, ts[j].data.height))
      ensures es[j].payload == Payload(ts[j])
    {
      assert es[j] == EntryOf(ts[j]);
    }
  }

  /**
   * Record `at` of `b` as the writer lays it out for `t`: id, the raster's
   * width and height, the four unknown fields, the format's discriminant,
   * each in four little-endian bytes, then the payload pointer `ptr`.
   */
  predicate RecordOf(b: seq<byte>, at: nat, t: Texture, ptr: nat)
  {
    at + TexHeaderSize <= |b| &&
    b[at .. at + 4] == EncodeU32(t.meta.id) &&
    b[at + 4 .. at + 8] == EncodeU32(t.data.width) &&
    b[at + 8 .. at + 12] == EncodeU32(t.data.height) &&
    b[at + 12 .. at + 16] == EncodeI32(t.meta.unkC) &&
    b[at + 16 .. at + 20] == EncodeI32(t.meta.unk10) &&
    b[at + 20 .. at + 24] == EncodeI32(t.meta.unk14) &&
    b[at + 24 .. at + 28] == EncodeI32(t.meta.unk18) &&
    b[at + 28 .. at + 32] == EncodeU32(Discriminant(t.meta.format)) &&
    DecodeU32(b[at + 32 .. at + 36]) == ptr
  }

  /** Field `k` of a record that starts with `h`'s bytes. */
  lemma {:induction false} FieldAt(b: seq<byte>, at: nat, h: TextureHeader, ptr: u32, k: nat)
    requires at + TexHeaderSize <= |b| && b[at .. at + TexHeaderSize] == HeaderBytes(h) + EncodeU32(ptr) && k < 8
    ensures b[at + 4 * k .. at + 4 * k + 4] == HeaderFields(h)[k]
  {
    SliceWithin(b, at, HeaderBytes(h) + EncodeU32(ptr), 4 * k, 4 * k + 4);
    SliceLeft(HeaderBytes(h), EncodeU32(ptr), 4 * k, 4 * k + 4);
    FieldsOfHeaderBytes(h);
  }

  /** A header's bytes followed by a pointer are the record of the texture the header was made from. */
  lemma {:induction false} RecordOfHeader(b: seq<byte>, at: nat, t: Texture, ptr: u32)
    requires at + TexHeaderSize <= |b|
    requires b[at .. at + TexHeaderSize] == HeaderBytes(HeaderOf(t.meta, t.data.width, t.data.height)) + EncodeU32(ptr)
    ensures RecordOf(b, at, t, ptr)
  {
    var h := HeaderOf(t.meta, t.data.width, t.data.height);
    FieldAt(b, at, h, ptr, 0);
    FieldAt(b, at, h, ptr, 1);
    FieldAt(b, at, h, ptr, 2);
    FieldAt(b, at, h, ptr, 3);
    FieldAt(b, at, h, ptr, 4);
    FieldAt(b, at, h, ptr, 5);
    FieldAt(b, at, h, ptr, 6);
    FieldAt(b, at, h, ptr, 7);
    SliceWithin(b, at, HeaderBytes(h) + EncodeU32(ptr), 32, 36);
    SliceRightAll(HeaderBytes(h), EncodeU32(ptr));
    DecodeEncodeU32(ptr);
  }

  /** Record `i` of a container of the textures' entries points past the table and the payloads before it. */
  lemma {:induction false} RecordFieldsIn(es: seq<Entry>, ts: seq<Texture>, i: nat)
    requires WellFormed(es) && HeadersOf(es, ts) && i < |ts|
    ensures RecordOf(Container(es), TableStart + TexHeaderSize * i, ts[i], TableEnd(|ts|) + SizesBefore(ts, i))
  {
    var t := ts[i];
    assert es[i].header == HeaderBytes(HeaderOf(t.meta, t.data.width, t.data.height));
    RecordAt(es, i);
    PointerOfSizes(es, ts, i);
    RecordOfHeader(Container(es), TableStart + TexHeaderSize * i, t, PayloadPointer(es, i) as u32);
  }

  /**
   * The writer's record `i`: at 0x20 + 36 * i, the fields of texture `i` in
   * declaration order, with the width and height of its raster, and a
   * pointer that starts at the end of the table and grows by each earlier
   * texture's `data_size`.
   */
  lemma {:induction false} RecordFields(pkg: TexturePackage, i: nat)
    requires Writable(pkg) && i < |pkg.textures|
    ensures RecordOf(PackageBytes(pkg), TableStart + TexHeaderSize * i, pkg.textures[i],
                     TableEnd(|pkg.textures|) + SizesBefore(pkg.textures, i))
  {
    EntriesWellFormed(pkg.textures);
    EntriesOf(pkg.textures);
    RecordFieldsIn(Entries(pkg.textures), pkg.textures, i);
  }
}
