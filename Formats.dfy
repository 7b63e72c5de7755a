/**
 * The four on-disk pixel formats, their u32 discriminants, their bytes per
 * pixel and the payload size of a texture (`data_size`).
 */
module Formats {
  import opened Bytes
  import opened Results

  /** Why reading a container fails. */
  datatype ReadError =
    | MalformedContainer                // the buffer ends before a field or a payload does
    | UnknownFormat(discriminant: u32)  // a format field holds none of the four discriminants

  datatype TextureFormat = R5G5B5A1 | R4G4B4A4 | R5G6B5 | R8G8B8A8

  /** The u32 the format is stored as. */
  function Discriminant(f: TextureFormat): u32
  {
    match f
    case R5G5B5A1 => 0
    case R4G4B4A4 => 1
    case R5G6B5 => 2
    case R8G8B8A8 => 3
  }

  /** Reading a format field: exactly the four discriminants name a format. */
  function FormatFromDiscriminant(d: u32): (r: Result<TextureFormat, ReadError>)
    ensures r.Ok? <==> d <= 3
    ensures r.Ok? ==> Discriminant(r.value) == d
    ensures r.Err? ==> r.error == UnknownFormat(d)
  {
    if d == 0 then Ok(R5G5B5A1)
    else if d == 1 then Ok(R4G4B4A4)
    else if d == 2 then Ok(R5G6B5)
    else if d == 3 then Ok(R8G8B8A8)
    else Err(UnknownFormat(d))
  }

  lemma {:induction false} DiscriminantRoundTrip(f: TextureFormat)
    ensures FormatFromDiscriminant(Discriminant(f)) == Ok(f)
  {
  }

  /** Bytes per pixel of the on-disk encoding. */
  function Bpp(f: TextureFormat): nat
  {
    if f == R8G8B8A8 then 4 else 2
  }

  /** Whether the format is stored as one 16-bit word per pixel. */
  predicate IsPacked16(f: TextureFormat)
  {
    f != R8G8B8A8
  }

  /**
   * Where row `y` of a `w`-wide grid starts in storage order, which is also
   * the number of cells in its first `y` rows: `y * w`, written as repeated
   * addition so that sizes and indices stay linear.
   */
  function RowStart(w: nat, y: nat): nat
  {
    if y == 0 then 0 else RowStart(w, y - 1) + w
  }

  lemma {:induction false} RowStartIsProduct(w: nat, y: nat)
    ensures RowStart(w, y) == y * w
  {
    if y > 0 {
      RowStartIsProduct(w, y - 1);
    }
  }

  /** Rows do not overlap: a row ends no later than the next one starts. */
  lemma {:induction false} RowStartMonotone(w: nat, y: nat, z: nat)
    requires y < z
    ensures RowStart(w, y) + w <= RowStart(w, z)
  {
    if y < z - 1 {
      RowStartMonotone(w, y, z - 1);
    }
  }

  /**
   * `data_size`: the payload length of a `width` by `height` texture. The
   * source computes it in u32 arithmetic without an overflow check; every
   * caller here requires the product to fit (see FitsU32).
   */
  function DataSize(f: TextureFormat, width: nat, height: nat): nat
  {
    if f == R8G8B8A8 then 4 * RowStart(width, height) else 2 * RowStart(width, height)
  }

  /** `width * height * bpp`, as the source writes it. */
  lemma {:induction false} DataSizeIsProduct(f: TextureFormat, width: nat, height: nat)
    ensures DataSize(f, width, height) == width * height * Bpp(f)
  {
    RowStartIsProduct(width, height);
  }

  predicate FitsU32(n: int)
  {
    0 <= n < 0x1_0000_0000
  }
}
