/**
 * `read_texture_package`: the layout the binrw attributes on `TexturePackage`,
 * `TextureHeader` and `Texture` declare, as an explicit parser over the
 * whole container.
 *
 * Offset 0 holds the texture count and offset 4 an absolute pointer to the
 * record table. A record is a 32-byte header followed by an absolute
 * pointer to its payload; a `FilePtr32` returns to just after the pointer
 * once the payload is read, so records follow each other every 36 bytes.
 */
module Reader {
  import opened Bytes
  import opened Results
  import opened Formats
  import opened Headers
  import opened PixelCodec
  import opened Rasters
  import opened Package

  /** A header followed by its payload pointer. */
  const RecordSize: nat := 36

  /** `u32::read_le` at `at`: fails when fewer than four bytes remain. */
  function ReadU32(buf: seq<byte>, at: nat): (r: Result<u32, ReadError>)
    ensures r.Ok? <==> at + 4 <= |buf|
    ensures r.Ok? ==> EncodeU32(r.value) == buf[at .. at + 4]
    ensures r.Err? ==> r.error == MalformedContainer
  {
    if at + 4 <= |buf| then
      EncodeDecodeU32(buf[at .. at + 4]);
      Ok(DecodeU32(buf[at .. at + 4]))
    else Err(MalformedContainer)
  }

  /** `TextureHeader::read_le` at `at`: the eight fields in order, the format last. */
  function ReadHeader(buf: seq<byte>, at: nat): (r: Result<TextureHeader, ReadError>)
    ensures at + HeaderSize > |buf| ==> r == Err(MalformedContainer)
    ensures at + HeaderSize <= |buf| ==> r == DecodeHeader(buf[at .. at + HeaderSize])
  {
    if at + HeaderSize <= |buf| then DecodeHeader(buf[at .. at + HeaderSize]) else Err(MalformedContainer)
  }

  /**
   * `read_exact` of `size` bytes at `ptr`. Reading nothing succeeds wherever
   * the cursor stands, even past the end of the buffer.
   */
  function ReadPayload(buf: seq<byte>, ptr: nat, size: nat): (r: Result<seq<byte>, ReadError>)
    ensures r.Ok? <==> size == 0 || ptr + size <= |buf|
    ensures r.Ok? ==> |r.value| == size
    ensures r.Ok? && size > 0 ==> r.value == buf[ptr .. ptr + size]
    ensures r.Err? ==> r.error == MalformedContainer
  {
    if size == 0 then Ok([])
    else if ptr + size <= |buf| then Ok(buf[ptr .. ptr + size])
    else Err(MalformedContainer)
  }

  /**
   * What `read_texture_data` computes from the payload at `ptr`: the pixels
   * in storage order, flipped vertically. The u32 `data_size` must not
   * overflow.
   */
  function TextureData(buf: seq<byte>, ptr: nat, width: u32, height: u32, format: TextureFormat): (r: Result<Raster, ReadError>)
    requires FitsU32(DataSize(format, width, height))
    ensures r.Ok? <==> ReadPayload(buf, ptr, DataSize(format, width, height)).Ok?
    ensures r.Err? ==> r.error == MalformedContainer
    ensures r.Ok? ==> r.value.width == width && r.value.height == height && r.value.Valid()
  {
    var data :- ReadPayload(buf, ptr, DataSize(format, width, height));
    DataSizeIsOffset(format, width, height);
    var pixels := DecodePixels(format, data);
    assert |pixels| == RowStart(width, height) by {
      if format == R8G8B8A8 {
        assert 4 * |pixels| == 4 * RowStart(width, height);
      }
    }
    Ok(FlipV(Raster(width, height, pixels)))
  }

  /** The 16-bit formats' pixel loop: one pixel per word, in order. */
  method DecodeWordPixels(format: TextureFormat, data: seq<byte>) returns (pixels: seq<Rgba>)
    requires format != R8G8B8A8 && WholePixels(format, |data|)
    ensures pixels == DecodePixels(format, data)
  {
    var shorts := Words(data);
    pixels := [];
    var i := 0;
    while i < |shorts|
      invariant 0 <= i <= |shorts| && |pixels| == i
      invariant forall j | 0 <= j < i :: pixels[j] == DecodeWord(format, shorts[j])
    {
      pixels := pixels + [DecodeWord(format, shorts[i])];
      i := i + 1;
    }
    var ps := DecodePixels(format, data);
    assert |ps| == |shorts|;
    forall j | 0 <= j < |ps|
      ensures pixels[j] == ps[j]
    {
      assert ps[j] == DecodeWord(format, shorts[j]);
    }
  }

  /**
   * `read_texture_data`: read the payload, turn every 16-bit word (or every
   * four bytes) into a pixel, then flip the image vertically.
   */
  method ReadTextureData(buf: seq<byte>, ptr: nat, width: u32, height: u32, format: TextureFormat)
    returns (r: Result<Raster, ReadError>)
    requires FitsU32(DataSize(format, width, height))
    ensures r == TextureData(buf, ptr, width, height, format)
  {
    var size := DataSize(format, width, height);
    var read := ReadPayload(buf, ptr, size);
    if read.Err? {
      return Err(read.error);
    }
    var data := read.value;
    DataSizeIsOffset(format, width, height);
    var pixels: seq<Rgba>;
    if format == R8G8B8A8 {
      pixels := Quads(data);
    } else {
      pixels := DecodeWordPixels(format, data);
    }
    assert pixels == DecodePixels(format, data);
    r := Ok(FlipV(Raster(width, height, pixels)));
  }

  /** Every pixel of the flipped image is a pixel of the original. */
  lemma {:induction false} FlipRowsPixels(r: Raster, k: nat)
    requires r.Valid() && k <= r.height
    ensures forall p | p in FlipRows(r, k) :: p in r.pixels
  {
    if k > 0 {
      FlipRowsPixels(r, k - 1);
      RowInside(r, r.height - k);
      assert FlipRows(r, k) == FlipRows(r, k - 1) + Row(r, r.height - k);
    }
  }

  /** Every pixel read has the channel properties its format guarantees. */
  lemma {:induction false} TextureDataChannels(buf: seq<byte>, ptr: nat, width: u32, height: u32, format: TextureFormat)
    requires FitsU32(DataSize(format, width, height))
    requires TextureData(buf, ptr, width, height, format).Ok?
    ensures forall p | p in TextureData(buf, ptr, width, height, format).value.pixels :: DecodedChannels(format, p)
  {
    var data := ReadPayload(buf, ptr, DataSize(format, width, height)).value;
    DataSizeIsOffset(format, width, height);
    var unflipped := Raster(width, height, DecodePixels(format, data));
    DecodePixelsChannels(format, data);
    FlipRowsPixels(unflipped, height);
  }

  /** Pixel `(x, y)` of a flipped image is the pixel stored in row `height - 1 - y`. */
  lemma {:induction false} FlippedAt(pixels: seq<Rgba>, width: u32, height: u32, x: nat, y: nat)
    requires |pixels| == RowStart(width as nat, height as nat)
    requires x < width as nat && y < height as nat
    ensures RowStart(width as nat, height as nat - 1 - y) + x < |pixels|
    ensures PixelAt(FlipV(Raster(width, height, pixels)), x, y)
              == pixels[RowStart(width as nat, height as nat - 1 - y) + x]
  {
    var unflipped := Raster(width, height, pixels);
    RowInside(unflipped, height as nat - 1 - y);
    FlipVAt(unflipped, x, y);
  }

  /** Where pixel `(x, y)` of an image is stored: rows are stored bottom-up. */
  function StoredIndex(width: nat, height: nat, x: nat, y: nat): nat
    requires y < height
  {
    RowStart(width, height - 1 - y) + x
  }

  /** Pixel `(x, y)` of the flipped image of a payload is decoded from stored row `height - 1 - y`. */
  lemma {:induction false} FlippedPayloadAt(format: TextureFormat, data: seq<byte>, width: u32, height: u32, x: nat, y: nat)
    requires |data| == Offset(format, RowStart(width as nat, height as nat))
    requires x < width as nat && y < height as nat
    ensures WholePixels(format, |data|) && |DecodePixels(format, data)| == RowStart(width as nat, height as nat)
    ensures Offset(format, StoredIndex(width as nat, height as nat, x, y) + 1) <= |data|
    ensures PixelAt(FlipV(Raster(width, height, DecodePixels(format, data))), x, y)
              == DecodePixel(format, PixelBytes(format, data, StoredIndex(width as nat, height as nat, x, y)))
  {
    PixelCount(format, data, RowStart(width as nat, height as nat));
    var pixels := DecodePixels(format, data);
    var i := StoredIndex(width as nat, height as nat, x, y);
    assert PixelAt(FlipV(Raster(width, height, pixels)), x, y) == pixels[i] by {
      FlippedAt(pixels, width, height, x, y);
    }
    assert Offset(format, i + 1) <= |data| && pixels[i] == DecodePixel(format, PixelBytes(format, data, i)) by {
      FlippedAt(pixels, width, height, x, y);
      DecodePixelsAt(format, data, i);
    }
  }

  /**
   * Pixel `(x, y)` of an image read from any container is decoded from the
   * payload bytes of stored row `height - 1 - y`: rows are stored bottom-up
   * and flipped on reading.
   */
  lemma {:induction false} TextureDataAt(buf: seq<byte>, ptr: nat, width: u32, height: u32, format: TextureFormat, x: nat, y: nat)
    requires FitsU32(DataSize(format, width, height))
    requires TextureData(buf, ptr, width, height, format).Ok?
    requires x < width as nat && y < height as nat
    ensures Offset(format, StoredIndex(width as nat, height as nat, x, y) + 1)
              <= |ReadPayload(buf, ptr, DataSize(format, width, height)).value|
    ensures PixelAt(TextureData(buf, ptr, width, height, format).value, x, y)
              == DecodePixel(format, PixelBytes(format, ReadPayload(buf, ptr, DataSize(format, width, height)).value,
                                                StoredIndex(width as nat, height as nat, x, y)))
  {
    DataSizeIsOffset(format, width, height);
    FlippedPayloadAt(format, ReadPayload(buf, ptr, DataSize(format, width, height)).value, width, height, x, y);
  }

  /** The records the reader reaches have payload sizes that fit the u32 `data_size`. */
  predicate RecordFits(buf: seq<byte>, at: nat)
  {
    ReadHeader(buf, at).Ok? ==> FitsU32(ReadHeader(buf, at).value.DataSize())
  }

  /** The payload pointer stored after the header of the record at `at`. */
  function RecordPointer(buf: seq<byte>, at: nat): u32
    requires at + RecordSize <= |buf|
  {
    DecodeU32(buf[at + HeaderSize .. at + RecordSize])
  }

  /**
   * `Texture::read_le` at `at`: the header, then the payload its pointer
   * names. A header error is passed on; every other failure is a buffer
   * that ends too early.
   */
  function ReadTexture(buf: seq<byte>, at: nat): (r: Result<Texture, ReadError>)
    requires RecordFits(buf, at)
    ensures r.Ok? <==>
              ReadHeader(buf, at).Ok? && at + RecordSize <= |buf| &&
              ReadPayload(buf, RecordPointer(buf, at), ReadHeader(buf, at).value.DataSize()).Ok?
    ensures r.Ok? ==>
              var h := ReadHeader(buf, at).value;
              r.value.meta == h.Meta() &&
              r.value.data == TextureData(buf, RecordPointer(buf, at), h.width, h.height, h.format).value
    ensures r.Err? ==> r.error == if ReadHeader(buf, at).Err? then ReadHeader(buf, at).error else MalformedContainer
  {
    var header :- ReadHeader(buf, at);
    var ptr :- ReadU32(buf, at + HeaderSize);
    var data :- TextureData(buf, ptr, header.width, header.height, header.format);
    Ok(Texture(header.Meta(), data))
  }

  /**
   * binrw's `Vec<T>` read with a count: `count` items, each read by `read`
   * where the previous one ended. Every item of the table is a fixed-size
   * record, so the `i`-th one starts `36 * i` bytes after the first.
   */
  function ReadItems<T>(read: nat -> Result<T, ReadError>, at: nat, count: nat): (r: Result<seq<T>, ReadError>)
    ensures r.Ok? ==> |r.value| == count
    decreases count
  {
    if count == 0 then Ok([])
    else
      var t :- read(at);
      var rest :- ReadItems(read, at + RecordSize, count - 1);
      Ok([t] + rest)
  }

  /** Conversely, a counted read that reaches a first failing item returns that item's error. */
  lemma {:induction false} ReadItemsFails<T>(read: nat -> Result<T, ReadError>, at: nat, count: nat, i: nat, e: ReadError)
    requires i < count && FailsFirst(read, at, i, e)
    ensures ReadItems(read, at, count) == Err(e)
    decreases i
  {
    if i > 0 {
      assert read(at + 36 * 0).Ok?;
      assert at + RecordSize + 36 * (i - 1) == at + 36 * i;
      forall j | 0 <= j < i - 1
        ensures read(at + RecordSize + 36 * j).Ok?
      {
        assert at + RecordSize + 36 * j == at + 36 * (j + 1);
      }
      ReadItemsFails(read, at + RecordSize, count - 1, i - 1, e);
    } else {
      assert read(at + 36 * 0) == Err(e);
    }
  }

  /** `fits` holds at every item a counted read reaches before the first failure. */
  predicate ItemsFit<T>(fits: nat -> bool, read: nat -> Result<T, ReadError>, at: nat, count: nat)
    decreases count
  {
    count == 0 || (fits(at) && (read(at).Ok? ==> ItemsFit(fits, read, at + RecordSize, count - 1)))
  }

  /** A successful counted read read every item, each 36 bytes after the last. */
  lemma {:induction false} ReadItemsOk<T>(read: nat -> Result<T, ReadError>, at: nat, count: nat)
    requires ReadItems(read, at, count).Ok?
    ensures forall i | 0 <= i < count :: read(at + 36 * i) == Ok(ReadItems(read, at, count).value[i])
    decreases count
  {
    if count > 0 {
      var ts := ReadItems(read, at, count).value;
      var rest := ReadItems(read, at + RecordSize, count - 1);
      assert read(at).Ok? && rest.Ok? && ts == [read(at).value] + rest.value;
      ReadItemsOk(read, at + RecordSize, count - 1);
      forall i | 0 <= i < count
        ensures read(at + 36 * i) == Ok(ts[i])
      {
        if i > 0 {
          assert at + 36 * i == at + RecordSize + 36 * (i - 1);
          assert ts[i] == rest.value[i - 1];
        }
      }
    }
  }

  /** Conversely, items that all read successfully make a successful counted read. */
  lemma {:induction false} ReadItemsOf<T>(read: nat -> Result<T, ReadError>, at: nat, ts: seq<T>)
    requires forall i | 0 <= i < |ts| :: read(at + 36 * i) == Ok(ts[i])
    ensures ReadItems(read, at, |ts|) == Ok(ts)
    decreases |ts|
  {
    if |ts| > 0 {
      assert read(at + 36 * 0) == Ok(ts[0]);
      forall i | 0 <= i < |ts| - 1
        ensures read(at + RecordSize + 36 * i) == Ok(ts[1..][i])
      {
        assert at + RecordSize + 36 * i == at + 36 * (i + 1);
        assert read(at + 36 * (i + 1)) == Ok(ts[i + 1]);
      }
      ReadItemsOf(read, at + RecordSize, ts[1..]);
      assert [ts[0]] + ts[1..] == ts;
    }
  }

  /** The first `i` items from `at` all read. */
  predicate ReadsBefore<T>(read: nat -> Result<T, ReadError>, at: nat, i: nat)
  {
    forall j | 0 <= j < i :: read(at + 36 * j).Ok?
  }

  /** Item `i` from `at` is the first that fails, with error `e`. */
  predicate FailsFirst<T>(read: nat -> Result<T, ReadError>, at: nat, i: nat, e: ReadError)
  {
    ReadsBefore(read, at, i) && read(at + 36 * i) == Err(e)
  }

  /** An item that reads, followed by items whose first failure is `i`, puts the first failure at `i + 1`. */
  lemma {:induction false} FailsFirstNext<T>(read: nat -> Result<T, ReadError>, at: nat, i: nat, e: ReadError)
    requires read(at).Ok? && FailsFirst(read, at + RecordSize, i, e)
    ensures FailsFirst(read, at, i + 1, e)
  {
    assert at + 36 * (i + 1) == at + RecordSize + 36 * i;
    forall j | 0 <= j < i + 1
      ensures read(at + 36 * j).Ok?
    {
      if j > 0 {
        assert at + 36 * j == at + RecordSize + 36 * (j - 1);
      }
    }
  }

  /**
   * A failed counted read fails at its first failing item: every item
   * before it reads, and the error is that item's error.
   */
  lemma {:induction false} ReadItemsErr<T>(read: nat -> Result<T, ReadError>, at: nat, count: nat)
    requires ReadItems(read, at, count).Err?
    ensures exists i | 0 <= i < count :: FailsFirst(read, at, i, ReadItems(read, at, count).error)
    decreases count
  {
    var e := ReadItems(read, at, count).error;
    if read(at).Err? {
      assert read(at + 36 * 0) == Err(e);
      assert FailsFirst(read, at, 0, e);
    } else {
      var rest := ReadItems(read, at + RecordSize, count - 1);
      assert rest.Err? && rest.error == e;
      ReadItemsErr(read, at + RecordSize, count - 1);
      var i :| 0 <= i < count - 1 && FailsFirst(read, at + RecordSize, i, e);
      FailsFirstNext(read, at, i, e);
    }
  }

  /** `fits` holds at every item a counted read reaches: those whose predecessors all read. */
  lemma {:induction false} ItemsFitReached<T>(fits: nat -> bool, read: nat -> Result<T, ReadError>, at: nat, count: nat, i: nat)
    requires ItemsFit(fits, read, at, count) && i < count && ReadsBefore(read, at, i)
    ensures fits(at + 36 * i)
    decreases i
  {
    if i > 0 {
      assert read(at + 36 * 0).Ok?;
      forall j | 0 <= j < i - 1
        ensures read(at + RecordSize + 36 * j).Ok?
      {
        assert at + RecordSize + 36 * j == at + 36 * (j + 1);
      }
      ItemsFitReached(fits, read, at + RecordSize, count - 1, i - 1);
      assert at + RecordSize + 36 * (i - 1) == at + 36 * i;
    }
  }

  /** When `fits` holds at every item position, it holds at every item the read reaches. */
  lemma {:induction false} ItemsFitOf<T>(fits: nat -> bool, read: nat -> Result<T, ReadError>, at: nat, count: nat)
    requires forall i | 0 <= i < count :: fits(at + 36 * i)
    ensures ItemsFit(fits, read, at, count)
    decreases count
  {
    if count > 0 {
      assert fits(at + 36 * 0);
      forall i | 0 <= i < count - 1
        ensures fits(at + RecordSize + 36 * i)
      {
        assert at + RecordSize + 36 * i == at + 36 * (i + 1);
      }
      ItemsFitOf(fits, read, at + RecordSize, count - 1);
    }
  }

  /**
   * The record reader for `buf` as a total reader of the table. A record
   * whose `data_size` overflows is outside the model; `TableFits` keeps
   * the reader away from such records, so the error here is never reached.
   */
  function ReadRecord(buf: seq<byte>, at: nat): Result<Texture, ReadError>
  {
    if RecordFits(buf, at) then ReadTexture(buf, at) else Err(MalformedContainer)
  }

  function Records(buf: seq<byte>): nat -> Result<Texture, ReadError>
  {
    (at: nat) => ReadRecord(buf, at)
  }

  function Fits(buf: seq<byte>): nat -> bool
  {
    (at: nat) => RecordFits(buf, at)
  }

  /** Every record the reader reaches before the first failure fits the u32 `data_size`. */
  predicate TableFits(buf: seq<byte>, at: nat, count: nat)
  {
    ItemsFit(Fits(buf), Records(buf), at, count)
  }

  /** `count` records one after the other from `at`. */
  function ReadTextures(buf: seq<byte>, at: nat, count: nat): (r: Result<seq<Texture>, ReadError>)
    requires TableFits(buf, at, count)
    ensures r.Ok? ==> |r.value| == count
  {
    ReadItems(Records(buf), at, count)
  }

  /** The texture count and the table pointer, when the buffer holds them. */
  function Count(buf: seq<byte>): u32
    requires 8 <= |buf|
  {
    DecodeU32(buf[0 .. 4])
  }

  function TablePointer(buf: seq<byte>): u32
    requires 8 <= |buf|
  {
    DecodeU32(buf[4 .. 8])
  }

  predicate PackageFits(buf: seq<byte>)
  {
    8 <= |buf| ==> TableFits(buf, TablePointer(buf), Count(buf))
  }

  /**
   * `read_texture_package`: the count, the table pointer, then that many
   * records read from the table.
   */
  function ReadPackage(buf: seq<byte>): (r: Result<TexturePackage, ReadError>)
    requires PackageFits(buf)
    ensures |buf| < 8 ==> r == Err(MalformedContainer)
    ensures 8 <= |buf| ==> r.Ok? == ReadTextures(buf, TablePointer(buf), Count(buf)).Ok?
    ensures r.Ok? ==> r.value.textures == ReadTextures(buf, TablePointer(buf), Count(buf)).value
    ensures r.Ok? ==> |r.value.textures| == Count(buf)
  {
    var count :- ReadU32(buf, 0);
    var ptr :- ReadU32(buf, 4);
    var textures :- ReadTextures(buf, ptr, count);
    Ok(TexturePackage(textures))
  }

  // ---------------------------------------------------------------------------
  // Properties of the reader
  // ---------------------------------------------------------------------------

  /** A successful read of the table read every record, each 36 bytes after the last. */
  lemma {:induction false} ReadTexturesOk(buf: seq<byte>, at: nat, count: nat)
    requires TableFits(buf, at, count) && ReadTextures(buf, at, count).Ok?
    ensures forall i | 0 <= i < count ::
              RecordFits(buf, at + 36 * i) &&
              ReadTexture(buf, at + 36 * i) == Ok(ReadTextures(buf, at, count).value[i])
  {
    var ts := ReadTextures(buf, at, count).value;
    ReadItemsOk(Records(buf), at, count);
    forall i | 0 <= i < count
      ensures RecordFits(buf, at + 36 * i) && ReadTexture(buf, at + 36 * i) == Ok(ts[i])
    {
      assert ReadRecord(buf, at + 36 * i) == Ok(ts[i]);
    }
  }

  /**
   * Record `i` of the table at `at` is the first that fails, with error `e`:
   * every earlier record reads, and record `i` does not.
   */
  predicate FirstFailure(buf: seq<byte>, at: nat, i: nat, e: ReadError)
  {
    (forall j | 0 <= j < i :: RecordFits(buf, at + 36 * j) && ReadTexture(buf, at + 36 * j).Ok?) &&
    RecordFits(buf, at + 36 * i) && ReadTexture(buf, at + 36 * i) == Err(e)
  }

  /** A failed read of the table fails at its first failing record, with that record's error. */
  lemma {:induction false} ReadTexturesErr(buf: seq<byte>, at: nat, count: nat)
    requires TableFits(buf, at, count) && ReadTextures(buf, at, count).Err?
    ensures exists i | 0 <= i < count :: FirstFailure(buf, at, i, ReadTextures(buf, at, count).error)
  {
    var e := ReadTextures(buf, at, count).error;
    ReadItemsErr(Records(buf), at, count);
    var i :| 0 <= i < count && FailsFirst(Records(buf), at, i, e);
    forall j | 0 <= j < i
      ensures RecordFits(buf, at + 36 * j) && ReadTexture(buf, at + 36 * j).Ok?
    {
      assert ReadRecord(buf, at + 36 * j).Ok?;
    }
    ItemsFitReached(Fits(buf), Records(buf), at, count, i);
    assert ReadRecord(buf, at + 36 * i) == Err(e);
    assert FirstFailure(buf, at, i, e);
  }

  /** Conversely, a table whose first failing record is `i < count` fails with that record's error. */
  lemma {:induction false} ReadTexturesFails(buf: seq<byte>, at: nat, count: nat, i: nat, e: ReadError)
    requires TableFits(buf, at, count) && i < count && FirstFailure(buf, at, i, e)
    ensures ReadTextures(buf, at, count) == Err(e)
  {
    forall j | 0 <= j < i
      ensures Records(buf)(at + 36 * j).Ok?
    {
      assert ReadRecord(buf, at + 36 * j).Ok?;
    }
    assert ReadRecord(buf, at + 36 * i) == Err(e);
    assert FailsFirst(Records(buf), at, i, e);
    ReadItemsFails(Records(buf), at, count, i, e);
  }

  /**
   * A package read that fails past the prologue fails at its first failing
   * record; by `ReadTexture`, the error is UnknownFormat from that record's
   * header, or otherwise MalformedContainer.
   */
  lemma {:induction false} ReadPackageErr(buf: seq<byte>)
    requires 8 <= |buf| && PackageFits(buf) && ReadPackage(buf).Err?
    ensures exists i | 0 <= i < Count(buf) :: FirstFailure(buf, TablePointer(buf), i, ReadPackage(buf).error)
  {
    assert ReadPackage(buf).error == ReadTextures(buf, TablePointer(buf), Count(buf)).error;
    ReadTexturesErr(buf, TablePointer(buf), Count(buf));
  }

  /** Conversely, a package whose first failing record is `i < count` fails with that record's error. */
  lemma {:induction false} ReadPackageFails(buf: seq<byte>, i: nat, e: ReadError)
    requires 8 <= |buf| && PackageFits(buf) && i < Count(buf) as nat && FirstFailure(buf, TablePointer(buf), i, e)
    ensures ReadPackage(buf) == Err(e)
  {
    ReadTexturesFails(buf, TablePointer(buf), Count(buf), i, e);
  }

  /** Conversely, records that all read successfully make a successful read of the table. */
  lemma {:induction false} ReadTexturesOfRecords(buf: seq<byte>, at: nat, ts: seq<Texture>)
    requires forall i | 0 <= i < |ts| ::
               RecordFits(buf, at + 36 * i) && ReadTexture(buf, at + 36 * i) == Ok(ts[i])
    ensures TableFits(buf, at, |ts|)
    ensures ReadTextures(buf, at, |ts|) == Ok(ts)
  {
    forall i | 0 <= i < |ts|
      ensures Fits(buf)(at + 36 * i) && Records(buf)(at + 36 * i) == Ok(ts[i])
    {
      assert ReadRecord(buf, at + 36 * i) == Ok(ts[i]);
    }
    ItemsFitOf(Fits(buf), Records(buf), at, |ts|);
    ReadItemsOf(Records(buf), at, ts);
  }

  /** A buffer too short for the count and the table pointer is rejected. */
  lemma {:induction false} ShortBuffer(buf: seq<byte>)
    requires |buf| < 8
    ensures PackageFits(buf) && ReadPackage(buf) == Err(MalformedContainer)
  {
  }

  /** With a count of zero nothing else is read: any table pointer gives an empty package. */
  lemma {:induction false} EmptyTable(buf: seq<byte>)
    requires 8 <= |buf| && Count(buf) == 0
    ensures PackageFits(buf) && ReadPackage(buf) == Ok(TexturePackage([]))
  {
  }

  /** A table that starts too close to the end for a whole header is malformed. */
  lemma {:induction false} TruncatedRecord(buf: seq<byte>)
    requires 8 <= |buf| && 0 < Count(buf) && TablePointer(buf) + HeaderSize > |buf|
    ensures PackageFits(buf) && ReadPackage(buf) == Err(MalformedContainer)
  {
    var at := TablePointer(buf);
    assert ReadHeader(buf, at) == Err(MalformedContainer);
    assert ReadTexture(buf, at) == Err(MalformedContainer);
  }

  /** A first record whose format field holds no known discriminant is rejected with that value. */
  lemma {:induction false} UnknownFirstFormat(buf: seq<byte>)
    requires 8 <= |buf| && 0 < Count(buf) && TablePointer(buf) + HeaderSize <= |buf|
    requires 3 < DecodeU32(Field(buf[TablePointer(buf) .. TablePointer(buf) + HeaderSize], 7))
    ensures PackageFits(buf)
    ensures ReadPackage(buf) == Err(UnknownFormat(DecodeU32(Field(buf[TablePointer(buf) .. TablePointer(buf) + HeaderSize], 7))))
  {
    var at := TablePointer(buf);
    assert ReadHeader(buf, at).Err?;
    assert ReadTexture(buf, at) == Err(ReadHeader(buf, at).error);
  }

  /**
   * The same for a later record: when every record before record `i` reads
   * and record `i`'s format field holds no known discriminant, the package
   * is rejected with that value.
   */
  lemma {:induction false} UnknownFormatAt(buf: seq<byte>, i: nat)
    requires 8 <= |buf| && PackageFits(buf) && i < Count(buf) as nat
    requires forall j | 0 <= j < i ::
               RecordFits(buf, TablePointer(buf) + 36 * j) && ReadTexture(buf, TablePointer(buf) + 36 * j).Ok?
    requires TablePointer(buf) + 36 * i + HeaderSize <= |buf|
    requires 3 < DecodeU32(Field(buf[TablePointer(buf) + 36 * i .. TablePointer(buf) + 36 * i + HeaderSize], 7))
    ensures ReadPackage(buf) == Err(UnknownFormat(DecodeU32(Field(buf[TablePointer(buf) + 36 * i .. TablePointer(buf) + 36 * i + HeaderSize], 7))))
  {
    var at := TablePointer(buf) + 36 * i;
    var e := UnknownFormat(DecodeU32(Field(buf[at .. at + HeaderSize], 7)));
    assert ReadHeader(buf, at) == Err(e);
    assert RecordFits(buf, at) && ReadTexture(buf, at) == Err(e);
    assert FirstFailure(buf, TablePointer(buf), i, e);
    ReadPackageFails(buf, i, e);
  }
}
