/**
 * Reading back what `write_texture_package` wrote: the reader finds the
 * same number of textures in the same order, each with the metadata and
 * dimensions it was written with and with the pixels its format keeps.
 */
module RoundTrip {
  import opened Bytes
  import opened Formats
  import opened Headers
  import opened Layout
  import opened Package
  import opened PixelCodec
  import opened Rasters
  import opened Reader
  import opened Results
  import opened Writer

  /** A payload stored at `ptr` decodes to the image its format keeps. */
  lemma {:induction false} PayloadDecodes(buf: seq<byte>, ptr: nat, t: Texture)
    requires t.data.Valid() && FitsU32(t.Size())
    requires ptr + |Payload(t)| <= |buf| && buf[ptr .. ptr + |Payload(t)|] == Payload(t)
    ensures TextureData(buf, ptr, t.data.width, t.data.height, t.meta.format) == Ok(QuantiseRaster(t.meta.format, t.data))
  {
    var f, r := t.meta.format, t.data;
    PayloadSize(t);
    assert ReadPayload(buf, ptr, DataSize(f, r.width, r.height)) == Ok(Payload(t));
    DecodeEncodePixels(f, FlipV(r).pixels);
    FlipVQuantise(f, r);
    FlipVInvolution(QuantiseRaster(f, r));
  }

  /** `buf` holds entry `e`'s record at `at`, its header followed by `ptr`, and its payload at `ptr`. */
  predicate Stored(buf: seq<byte>, at: nat, e: Entry, ptr: nat)
  {
    FitsU32(ptr) && at + RecordSize <= |buf| && buf[at .. at + RecordSize] == e.header + EncodeU32(ptr as u32) &&
    ptr + |e.payload| <= |buf| && buf[ptr .. ptr + |e.payload|] == e.payload
  }

  /**
   * `buf` is laid out as a container of `es`: the count and the table
   * pointer, then each entry's record in the table and its payload where
   * that record points.
   */
  predicate Laid(buf: seq<byte>, es: seq<Entry>)
  {
    WellFormed(es) && FitsU32(|es|) && 8 <= |buf| &&
    buf[0 .. 4] == EncodeU32(|es| as u32) && buf[4 .. 8] == EncodeU32(TableStart) &&
    forall i {:trigger PayloadPointer(es, i)} | 0 <= i < |es| ::
      FitsU32(|es[i].payload|) && Stored(buf, TableStart + 36 * i, es[i], PayloadPointer(es, i))
  }

  /** The record of a stored entry: its header bytes, then `ptr` as the reader decodes it. */
  lemma {:induction false} RecordParts(buf: seq<byte>, at: nat, e: Entry, ptr: nat)
    requires |e.header| == HeaderSize && Stored(buf, at, e, ptr)
    ensures at + HeaderSize <= |buf| && buf[at .. at + HeaderSize] == e.header
    ensures ReadU32(buf, at + HeaderSize) == Ok(ptr as u32)
  {
    var rec := buf[at .. at + RecordSize];
    assert buf[at .. at + HeaderSize] == rec[.. HeaderSize];
    assert buf[at + HeaderSize .. at + RecordSize] == rec[HeaderSize ..] == EncodeU32(ptr as u32);
    DecodeEncodeU32(ptr as u32);
  }

  /** Header bytes at `at` read back as the header. */
  lemma {:induction false} HeaderAt(buf: seq<byte>, at: nat, h: TextureHeader)
    requires at + HeaderSize <= |buf| && buf[at .. at + HeaderSize] == HeaderBytes(h)
    ensures ReadHeader(buf, at) == Ok(h)
  {
    DecodeHeaderBytes(h);
  }

  /** A record reads as a texture once its header, its pointer and the image at that pointer do. */
  lemma {:induction false} TextureOfParts(buf: seq<byte>, at: nat, h: TextureHeader, ptr: u32, img: Raster)
    requires ReadHeader(buf, at) == Ok(h) && ReadU32(buf, at + HeaderSize) == Ok(ptr)
    requires FitsU32(h.DataSize()) && TextureData(buf, ptr as nat, h.width, h.height, h.format) == Ok(img)
    ensures RecordFits(buf, at) && ReadTexture(buf, at) == Ok(Texture(h.Meta(), img))
  {
  }

  /** A stored record of `t`'s header and payload reads back as `t`, requantised. */
  lemma {:induction false} RecordReads(buf: seq<byte>, at: nat, e: Entry, ptr: nat, t: Texture)
    requires t.data.Valid() && FitsU32(t.Size()) && Stored(buf, at, e, ptr)
    requires e.header == HeaderBytes(HeaderOf(t.meta, t.data.width, t.data.height)) && e.payload == Payload(t)
    ensures RecordFits(buf, at) && ReadTexture(buf, at) == Ok(RequantisedTexture(t))
  {
    var h := HeaderOf(t.meta, t.data.width, t.data.height);
    RecordParts(buf, at, e, ptr);
    HeaderAt(buf, at, h);
    HeaderOfMeta(t.meta, t.data.width, t.data.height);
    PayloadDecodes(buf, ptr, t);
    TextureOfParts(buf, at, h, ptr as u32, QuantiseRaster(t.meta.format, t.data));
  }

  /** Record `i` of a container and its payload are where the table says, and the payload's size fits a u32. */
  lemma {:induction false} StoredAt(es: seq<Entry>, i: nat)
    requires WellFormed(es) && i < |es|
    ensures FitsU32(|es[i].payload|) && Stored(Container(es), TableStart + 36 * i, es[i], PayloadPointer(es, i))
  {
    RecordAt(es, i);
    PayloadAt(es, i);
    PayloadPointerNext(es, i);
    PayloadPointerFits(es, i + 1);
  }

  /** The container of any well-formed entries is laid out as their container. */
  lemma {:induction false} ContainerLaid(es: seq<Entry>)
    requires WellFormed(es)
    ensures Laid(Container(es), es)
  {
    PrologueAt(es);
    forall i | 0 <= i < |es|
      ensures FitsU32(|es[i].payload|) && Stored(Container(es), TableStart + 36 * i, es[i], PayloadPointer(es, i))
    {
      StoredAt(es, i);
    }
  }

  /** A stored entry of the textures' entries reads back as its texture, requantised. */
  lemma {:induction false} StoredEntryReads(buf: seq<byte>, at: nat, ptr: nat, es: seq<Entry>, ts: seq<Texture>, i: nat)
    requires AllValid(ts) && HeadersOf(es, ts) && PayloadsOf(es, ts) && i < |ts|
    requires FitsU32(|es[i].payload|) && Stored(buf, at, es[i], ptr)
    ensures RecordFits(buf, at) && ReadTexture(buf, at) == Ok(RequantisedTexture(ts[i]))
  {
    var t := ts[i];
    assert es[i].header == HeaderBytes(HeaderOf(t.meta, t.data.width, t.data.height));
    assert es[i].payload == Payload(t);
    RecordReads(buf, at, es[i], ptr, t);
  }

  /** The prologue of a laid-out container gives the entry count and the table's place. */
  lemma {:induction false} LaidPrologue(buf: seq<byte>, es: seq<Entry>)
    requires Laid(buf, es)
    ensures 8 <= |buf| && Count(buf) as nat == |es| && TablePointer(buf) == TableStart
  {
    DecodeEncodeU32(|es| as u32);
    DecodeEncodeU32(TableStart);
  }

  /** Record `i` of a laid-out container of the textures' entries reads back as texture `i`, requantised. */
  lemma {:induction false} LaidEntryReads(buf: seq<byte>, es: seq<Entry>, ts: seq<Texture>, i: nat)
    requires AllValid(ts) && Laid(buf, es) && HeadersOf(es, ts) && PayloadsOf(es, ts) && i < |ts|
    ensures RecordFits(buf, TableStart + 36 * i) && ReadTexture(buf, TableStart + 36 * i) == Ok(RequantisedTexture(ts[i]))
  {
    StoredEntryReads(buf, TableStart + 36 * i, PayloadPointer(es, i), es, ts, i);
  }

  /** The table of a laid-out container of the textures' entries reads back as the textures, requantised, in order. */
  lemma {:induction false} LaidTableReads(buf: seq<byte>, es: seq<Entry>, ts: seq<Texture>, qs: seq<Texture>)
    requires AllValid(ts) && Laid(buf, es) && HeadersOf(es, ts) && PayloadsOf(es, ts)
    requires |qs| == |ts| && forall i | 0 <= i < |ts| :: qs[i] == RequantisedTexture(ts[i])
    ensures TableFits(buf, TableStart, |qs|) && ReadTextures(buf, TableStart, |qs|) == Ok(qs)
  {
    forall i | 0 <= i < |qs|
      ensures RecordFits(buf, TableStart + 36 * i) && ReadTexture(buf, TableStart + 36 * i) == Ok(qs[i])
    {
      LaidEntryReads(buf, es, ts, i);
    }
    ReadTexturesOfRecords(buf, TableStart, qs);
  }

  /** Bytes laid out as a container of the textures' entries read back as the textures, requantised, in order. */
  lemma {:induction false} ContainerReads(buf: seq<byte>, es: seq<Entry>, ts: seq<Texture>, qs: seq<Texture>)
    requires AllValid(ts) && Laid(buf, es) && HeadersOf(es, ts) && PayloadsOf(es, ts)
    requires |qs| == |ts| && forall i | 0 <= i < |ts| :: qs[i] == RequantisedTexture(ts[i])
    ensures PackageFits(buf) && ReadPackage(buf) == Ok(TexturePackage(qs))
  {
    LaidPrologue(buf, es);
    LaidTableReads(buf, es, ts, qs);
  }

  /**
   * Reading the bytes `write_texture_package` produces gives back every
   * texture in order, with its metadata and dimensions, and with the pixels
   * that survive its format's quantisation.
   */
  lemma {:induction false} ReadWritten(pkg: TexturePackage)
    requires Writable(pkg)
    ensures PackageFits(PackageBytes(pkg))
    ensures ReadPackage(PackageBytes(pkg)) == Ok(Requantised(pkg))
  {
    EntriesWellFormed(pkg.textures);
    EntriesOf(pkg.textures);
    ContainerLaid(Entries(pkg.textures));
    ContainerReads(Container(Entries(pkg.textures)), Entries(pkg.textures), pkg.textures, Requantised(pkg).textures);
  }

  /** The metadata round trip: same count, same order, same metadata and dimensions. */
  lemma {:induction false} MetadataRoundTrip(pkg: TexturePackage)
    requires Writable(pkg)
    ensures PackageFits(PackageBytes(pkg)) && ReadPackage(PackageBytes(pkg)).Ok?
    ensures var back := ReadPackage(PackageBytes(pkg)).value.textures;
            |back| == |pkg.textures| &&
            forall i | 0 <= i < |back| ::
              back[i].meta == pkg.textures[i].meta &&
              back[i].data.width == pkg.textures[i].data.width &&
              back[i].data.height == pkg.textures[i].data.height
  {
    ReadWritten(pkg);
    assert ReadPackage(PackageBytes(pkg)).value.textures == Requantised(pkg).textures;
  }

  /** R8G8B8A8 keeps every pixel, so requantising changes nothing. */
  lemma {:induction false} RequantisedR8G8B8A8(pkg: TexturePackage)
    requires forall t | t in pkg.textures :: t.meta.format == R8G8B8A8
    ensures Requantised(pkg) == pkg
  {
    var ts, qs := pkg.textures, Requantised(pkg).textures;
    forall i | 0 <= i < |ts|
      ensures qs[i] == ts[i]
    {
      var r := ts[i].data;
      assert ts[i] in ts;
      assert QuantiseAll(R8G8B8A8, r.pixels) == r.pixels;
    }
  }

  /** A package whose textures are all R8G8B8A8 reads back unchanged. */
  lemma {:induction false} R8G8B8A8RoundTrip(pkg: TexturePackage)
    requires Writable(pkg)
    requires forall t | t in pkg.textures :: t.meta.format == R8G8B8A8
    ensures PackageFits(PackageBytes(pkg)) && ReadPackage(PackageBytes(pkg)) == Ok(pkg)
  {
    ReadWritten(pkg);
    RequantisedR8G8B8A8(pkg);
  }

  // ---------------------------------------------------------------------------
  // Writing back what was read
  // ---------------------------------------------------------------------------

  /** In R4G4B4A4 and R8G8B8A8 the read-back texture has the payload the texture had. */
  lemma {:induction false} PayloadRequantised(t: Texture)
    requires t.data.Valid() && RewriteStable(t.meta.format)
    ensures RequantisedTexture(t).data.Valid()
    ensures Payload(RequantisedTexture(t)) == Payload(t)
  {
    var f, r := t.meta.format, t.data;
    FlipVQuantise(f, r);
    EncodeQuantiseAll(f, FlipV(r).pixels);
  }

  /** ... so the read-back package has the writer's entries. */
  lemma {:induction false} EntriesRequantised(pkg: TexturePackage)
    requires AllValid(pkg.textures)
    requires forall t | t in pkg.textures :: RewriteStable(t.meta.format)
    ensures AllValid(Requantised(pkg).textures)
    ensures Entries(Requantised(pkg).textures) == Entries(pkg.textures)
  {
    var ts, qs := pkg.textures, Requantised(pkg).textures;
    forall i | 0 <= i < |ts|
      ensures qs[i].data.Valid() && EntryOf(qs[i]) == EntryOf(ts[i])
    {
      assert ts[i] in ts;
      PayloadRequantised(ts[i]);
    }
  }

  /**
   * Writing a package in R4G4B4A4 and R8G8B8A8 only, reading it back and
   * writing the result again reproduces the first output byte for byte.
   */
  lemma {:induction false} RewriteWritten(pkg: TexturePackage)
    requires Writable(pkg)
    requires forall t | t in pkg.textures :: RewriteStable(t.meta.format)
    ensures PackageFits(PackageBytes(pkg)) && ReadPackage(PackageBytes(pkg)).Ok?
    ensures var back := ReadPackage(PackageBytes(pkg)).value;
            Writable(back) && PackageBytes(back) == PackageBytes(pkg)
  {
    ReadWritten(pkg);
    EntriesRequantised(pkg);
  }

  /**
   * Rewriting is byte-exact only for this writer's own output. A container
   * with a count of zero and a table pointer of 0x40 reads as the empty
   * package, which is written back with the pointer 0x20.
   */
  lemma {:induction false} RewriteOtherContainer()
    ensures var buf: seq<byte> := [0, 0, 0, 0, 0x40, 0, 0, 0];
            PackageFits(buf) && ReadPackage(buf) == Ok(TexturePackage([])) &&
            Writable(TexturePackage([])) && PackageBytes(TexturePackage([])) != buf
  {
    var buf: seq<byte> := [0, 0, 0, 0, 0x40, 0, 0, 0];
    assert buf[0 .. 4] == EncodeU32(0);
    DecodeEncodeU32(0);
    EmptyTable(buf);
    EmptyPackage(TexturePackage([]));
    assert PackageBytes(TexturePackage([]))[4] != buf[4];
  }

  /**
   * In R5G5B5A1 the same fails: a red channel of 9 is written as the 5-bit
   * field 1, read back as 8 and written again as 0, so writing the texture
   * read back gives another payload.
   */
  lemma {:induction false} R5G5B5A1RewriteChanges(t: Texture, x: nat, y: nat)
    requires t.data.Valid() && t.meta.format == R5G5B5A1 && x < t.data.width && y < t.data.height
    requires PixelAt(t.data, x, y).r == 9
    ensures RequantisedTexture(t).data.Valid()
    ensures Payload(RequantisedTexture(t)) != Payload(t)
  {
    var r := t.data;
    FlipVQuantise(R5G5B5A1, r);
    FlipVPixel(r, x, r.height - 1 - y);
    R5G5B5A1PayloadDrift(FlipV(r).pixels, RowStart(r.width, r.height - 1 - y) + x);
  }
}
