/**
 * The 32-byte texture header record, the metadata extracted from it, and the
 * byte layout binrw reads and writes for it (eight little-endian 32-bit
 * fields).
 */
module Headers {
  import opened Bytes
  import opened Results
  import opened Formats

  /** Size of the fixed part of a header record. */
  const HeaderSize: nat := 32

  datatype TextureHeader = TextureHeader(
    id: u32,
    width: u32,
    height: u32,
    unkC: i32,
    unk10: i32,
    unk14: i32,
    unk18: i32,
    format: TextureFormat)
  {
    /**
     * `meta()`: everything but the dimensions, copied unchanged; together with
     * the dimensions it gives back the header.
     */
    function Meta(): (m: TextureMeta)
      ensures HeaderOf(m, width, height) == this
    {
      TextureMeta(id, unkC, unk10, unk14, unk18, format)
    }

    /** `TextureHeader::data_size`: the payload length this header declares. */
    function DataSize(): nat
    {
      Meta().DataSize(width, height)
    }
  }

  datatype TextureMeta = TextureMeta(
    id: u32,
    unkC: i32,
    unk10: i32,
    unk14: i32,
    unk18: i32,
    format: TextureFormat)
  {
    /** `TextureMeta::data_size`. */
    function DataSize(width: nat, height: nat): nat
    {
      Formats.DataSize(format, width, height)
    }
  }

  /** The header the writer builds from a texture's metadata and its raster's dimensions. */
  function HeaderOf(m: TextureMeta, width: u32, height: u32): TextureHeader
  {
    TextureHeader(m.id, width, height, m.unkC, m.unk10, m.unk14, m.unk18, m.format)
  }

  lemma {:induction false} HeaderOfMeta(m: TextureMeta, width: u32, height: u32)
    ensures HeaderOf(m, width, height).Meta() == m
  {
  }

  /** The eight fields of a record in declaration order, each as four little-endian bytes. */
  function HeaderFields(h: TextureHeader): (f: seq<seq<byte>>)
    ensures |f| == 8 && forall k | 0 <= k < 8 :: |f[k]| == 4
  {
    [EncodeU32(h.id), EncodeU32(h.width), EncodeU32(h.height),
     EncodeI32(h.unkC), EncodeI32(h.unk10), EncodeI32(h.unk14), EncodeI32(h.unk18),
     EncodeU32(Discriminant(h.format))]
  }

  /** The record as `write_le` emits it: its fields one after the other. */
  function HeaderBytes(h: TextureHeader): (b: seq<byte>)
    ensures |b| == HeaderSize
  {
    var f := HeaderFields(h);
    seq(HeaderSize, i requires 0 <= i < HeaderSize => f[i / 4][i % 4])
  }

  /** The 32-bit field at index `k` of a record. */
  function Field(b: seq<byte>, k: nat): seq<byte>
    requires |b| == HeaderSize && k < 8
  {
    b[4 * k .. 4 * k + 4]
  }

  /** The record as `read_le` parses it; only the format field can be rejected. */
  function DecodeHeader(b: seq<byte>): (r: Result<TextureHeader, ReadError>)
    requires |b| == HeaderSize
    ensures r.Ok? <==> DecodeU32(Field(b, 7)) <= 3
    ensures r.Err? ==> r.error == UnknownFormat(DecodeU32(Field(b, 7)))
    ensures r.Ok? ==> Discriminant(r.value.format) == DecodeU32(Field(b, 7))
  {
    var format :- FormatFromDiscriminant(DecodeU32(Field(b, 7)));
    Ok(TextureHeader(
         DecodeU32(Field(b, 0)), DecodeU32(Field(b, 1)), DecodeU32(Field(b, 2)),
         DecodeI32(Field(b, 3)), DecodeI32(Field(b, 4)), DecodeI32(Field(b, 5)), DecodeI32(Field(b, 6)),
         format))
  }

  lemma {:induction false} FieldsOfHeaderBytes(h: TextureHeader)
    ensures forall k | 0 <= k < 8 :: Field(HeaderBytes(h), k) == HeaderFields(h)[k]
  {
    var b, f := HeaderBytes(h), HeaderFields(h);
    forall k | 0 <= k < 8
      ensures Field(b, k) == f[k]
    {
      forall i | 0 <= i < 4
        ensures Field(b, k)[i] == f[k][i]
      {
        assert (4 * k + i) / 4 == k && (4 * k + i) % 4 == i;
      }
    }
  }

  /** Reading back a written record gives the header that was written. */
  lemma {:induction false} DecodeHeaderBytes(h: TextureHeader)
    ensures DecodeHeader(HeaderBytes(h)) == Ok(h)
  {
    FieldsOfHeaderBytes(h);
    var b, f := HeaderBytes(h), HeaderFields(h);
    assert Field(b, 0) == f[0] && Field(b, 1) == f[1] && Field(b, 2) == f[2] && Field(b, 7) == f[7];
    assert Field(b, 3) == f[3] && Field(b, 4) == f[4] && Field(b, 5) == f[5] && Field(b, 6) == f[6];
    DecodeEncodeU32(h.id);
    DecodeEncodeU32(h.width);
    DecodeEncodeU32(h.height);
    DecodeEncodeI32(h.unkC);
    DecodeEncodeI32(h.unk10);
    DecodeEncodeI32(h.unk14);
    DecodeEncodeI32(h.unk18);
    DecodeEncodeU32(Discriminant(h.format));
    DiscriminantRoundTrip(h.format);
  }

  /** A record that reads successfully is written back byte for byte. */
  lemma {:induction false} HeaderBytesOfDecode(b: seq<byte>)
    requires |b| == HeaderSize && DecodeHeader(b).Ok?
    ensures HeaderBytes(DecodeHeader(b).value) == b
  {
    var h := DecodeHeader(b).value;
    FieldsOfHeaderBytes(h);
    forall k | 0 <= k < 8
      ensures Field(HeaderBytes(h), k) == Field(b, k)
    {
      FieldsOfDecode(b, k);
    }
    SameFields(HeaderBytes(h), b);
  }

  /** Each field of a record that reads successfully is the encoding of the value read from it. */
  lemma {:induction false} FieldsOfDecode(b: seq<byte>, k: nat)
    requires |b| == HeaderSize && DecodeHeader(b).Ok? && k < 8
    ensures HeaderFields(DecodeHeader(b).value)[k] == Field(b, k)
  {
    if k <= 2 || k == 7 {
      EncodeDecodeU32(Field(b, k));
    } else {
      EncodeDecodeI32(Field(b, k));
    }
  }

  /** Records with the same eight fields are the same bytes. */
  lemma {:induction false} SameFields(b: seq<byte>, c: seq<byte>)
    requires |b| == HeaderSize && |c| == HeaderSize
    requires forall k | 0 <= k < 8 :: Field(b, k) == Field(c, k)
    ensures b == c
  {
    forall i | 0 <= i < HeaderSize
      ensures b[i] == c[i]
    {
      var k := i / 4;
      assert b[i] == Field(b, k)[i % 4] && c[i] == Field(c, k)[i % 4];
    }
  }
}
