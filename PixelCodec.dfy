/**
 * Conversion between the on-disk pixel encodings and 8-bit RGBA.
 *
 * The three packed formats keep one 16-bit word per pixel. A field of `n`
 * bits is expanded to a channel by `field * 0xFF / max` and a channel is
 * narrowed to a field by `channel * max / 0xFF`, where `max` is `2^n - 1`
 * and both divisions truncate. Shifts are written as divisions and
 * multiplications by powers of two and masks as remainders: `(w >> 11) & 0x1F`
 * is `(w / 0x800) % 0x20`. None of the intermediate u16 products can
 * overflow (the largest is 0xFF * 0x3F).
 */
module PixelCodec {
  import opened Bytes
  import opened Formats

  datatype Rgba = Rgba(r: byte, g: byte, b: byte, a: byte)

  /** A field of at most `max` expanded to a channel. */
  function Expand(field: nat, max: nat): (c: byte)
    requires 0 < max && field <= max
  {
    MulDivLe(field, 0xFF, max);
    field * 0xFF / max
  }

  /** A channel narrowed to a field of at most `max`. */
  function Narrow(c: byte, max: nat): (field: nat)
    requires 0 < max
    ensures field <= max
  {
    c * max / 0xFF
  }

  // ---------------------------------------------------------------------------
  // Unpacking a 16-bit word
  // ---------------------------------------------------------------------------

  /** R = bits 15..11, G = bits 10..6, B = bits 5..1, A = bit 0. */
  function DecodeR5G5B5A1(w: u16): (p: Rgba)
    ensures p.a == 0 || p.a == 0xFF
  {
    Rgba(Expand((w / 0x800) % 0x20, 0x1F),
         Expand((w / 0x40) % 0x20, 0x1F),
         Expand((w / 0x2) % 0x20, 0x1F),
         (w % 0x2) * 0xFF)
  }

  /** Four 4-bit fields from the top down; each channel is the field times 17. */
  function DecodeR4G4B4A4(w: u16): (p: Rgba)
    ensures p.r % 17 == 0 && p.g % 17 == 0 && p.b % 17 == 0 && p.a % 17 == 0
  {
    Expand4((w / 0x1000) % 0x10);
    Expand4((w / 0x100) % 0x10);
    Expand4((w / 0x10) % 0x10);
    Expand4(w % 0x10);
    Rgba(Expand((w / 0x1000) % 0x10, 0xF),
         Expand((w / 0x100) % 0x10, 0xF),
         Expand((w / 0x10) % 0x10, 0xF),
         Expand(w % 0x10, 0xF))
  }

  lemma {:induction false} Expand4(field: nat)
    requires field <= 0xF
    ensures Expand(field, 0xF) == 17 * field
  {
    DivModOf(field * 0xFF, 0xF, 17 * field, 0);
  }

  /**
   * R = bits 15..11, G = bits 10..5, B = bits 4..0. The word carries no alpha;
   * converting the RGB image to RGBA makes every pixel opaque.
   */
  function DecodeR5G6B5(w: u16): (p: Rgba)
    ensures p.a == 0xFF
  {
    Rgba(Expand((w / 0x800) % 0x20, 0x1F),
         Expand((w / 0x20) % 0x40, 0x3F),
         Expand(w % 0x20, 0x1F),
         0xFF)
  }

  function DecodeWord(f: TextureFormat, w: u16): Rgba
    requires IsPacked16(f)
  {
    match f
    case R5G5B5A1 => DecodeR5G5B5A1(w)
    case R4G4B4A4 => DecodeR4G4B4A4(w)
    case R5G6B5 => DecodeR5G6B5(w)
  }

  // ---------------------------------------------------------------------------
  // Packing a 16-bit word: `r << s1 | g << s2 | b << s3 | a`
  // ---------------------------------------------------------------------------

  function PackR5G5B5A1(r: nat, g: nat, b: nat, a: nat): nat
  {
    Or(Or(Or(r * 0x800, g * 0x40), b * 0x2), a)
  }

  function PackR4G4B4A4(r: nat, g: nat, b: nat, a: nat): nat
  {
    Or(Or(Or(r * 0x1000, g * 0x100), b * 0x10), a)
  }

  function PackR5G6B5(r: nat, g: nat, b: nat): nat
  {
    Or(Or(r * 0x800, g * 0x20), b)
  }

  /**
   * Fields of widths 5/5/5/1 at shifts 11/6/1/0 do not overlap: OR-ing them
   * is adding them, and the word fits in 16 bits.
   */
  lemma {:induction false} PackR5G5B5A1Disjoint(r: nat, g: nat, b: nat, a: nat)
    requires r < 0x20 && g < 0x20 && b < 0x20 && a < 0x2
    ensures PackR5G5B5A1(r, g, b, a) == r * 0x800 + g * 0x40 + b * 0x2 + a < 0x1_0000
  {
    Pow2Shifts();
    var rg, rgb := r * 0x20 + g, r * 0x400 + g * 0x20 + b;
    OrDisjoint(r, g * 0x40, 11, 0x800);
    var s1 := Or(r * 0x800, g * 0x40);
    assert s1 == rg * 0x40;
    OrDisjoint(rg, b * 0x2, 6, 0x40);
    var s2 := Or(s1, b * 0x2);
    assert s2 == rgb * 0x2;
    OrDisjoint(rgb, a, 1, 0x2);
    assert Or(s2, a) == rgb * 0x2 + a;
  }

  /** Four 4-bit fields at shifts 12/8/4/0 do not overlap. */
  lemma {:induction false} PackR4G4B4A4Disjoint(r: nat, g: nat, b: nat, a: nat)
    requires r < 0x10 && g < 0x10 && b < 0x10 && a < 0x10
    ensures PackR4G4B4A4(r, g, b, a) == r * 0x1000 + g * 0x100 + b * 0x10 + a < 0x1_0000
  {
    Pow2Shifts();
    var rg, rgb := r * 0x10 + g, r * 0x100 + g * 0x10 + b;
    OrDisjoint(r, g * 0x100, 12, 0x1000);
    var s1 := Or(r * 0x1000, g * 0x100);
    assert s1 == rg * 0x100;
    OrDisjoint(rg, b * 0x10, 8, 0x100);
    var s2 := Or(s1, b * 0x10);
    assert s2 == rgb * 0x10;
    OrDisjoint(rgb, a, 4, 0x10);
    assert Or(s2, a) == rgb * 0x10 + a;
  }

  /** Fields of widths 5/6/5 at shifts 11/5/0 do not overlap. */
  lemma {:induction false} PackR5G6B5Disjoint(r: nat, g: nat, b: nat)
    requires r < 0x20 && g < 0x40 && b < 0x20
    ensures PackR5G6B5(r, g, b) == r * 0x800 + g * 0x20 + b < 0x1_0000
  {
    Pow2Shifts();
    var rg := r * 0x40 + g;
    OrDisjoint(r, g * 0x20, 11, 0x800);
    var s1 := Or(r * 0x800, g * 0x20);
    assert s1 == rg * 0x20;
    OrDisjoint(rg, b, 5, 0x20);
    assert Or(s1, b) == rg * 0x20 + b;
  }

  /**
   * The narrowed fields placed at their shifts. The fields do not overlap, so
   * the sum is the OR the writer computes (`EncodeR5G5B5A1IsOr`).
   */
  function EncodeR5G5B5A1(p: Rgba): u16
  {
    Narrow(p.r, 0x1F) * 0x800 + Narrow(p.g, 0x1F) * 0x40 + Narrow(p.b, 0x1F) * 0x2 + Narrow(p.a, 0x1)
  }

  function EncodeR4G4B4A4(p: Rgba): u16
  {
    Narrow(p.r, 0xF) * 0x1000 + Narrow(p.g, 0xF) * 0x100 + Narrow(p.b, 0xF) * 0x10 + Narrow(p.a, 0xF)
  }

  /** The alpha channel is dropped. */
  function EncodeR5G6B5(p: Rgba): u16
  {
    Narrow(p.r, 0x1F) * 0x800 + Narrow(p.g, 0x3F) * 0x20 + Narrow(p.b, 0x1F)
  }

  /** The writer's `(r << 11) | (g << 6) | (b << 1) | a` is the sum of the shifted fields. */
  lemma {:induction false} EncodeR5G5B5A1IsOr(p: Rgba)
    ensures EncodeR5G5B5A1(p) == PackR5G5B5A1(Narrow(p.r, 0x1F), Narrow(p.g, 0x1F), Narrow(p.b, 0x1F), Narrow(p.a, 0x1))
  {
    PackR5G5B5A1Disjoint(Narrow(p.r, 0x1F), Narrow(p.g, 0x1F), Narrow(p.b, 0x1F), Narrow(p.a, 0x1));
  }

  /** The writer's `(r << 12) | (g << 8) | (b << 4) | a` is the sum of the shifted fields. */
  lemma {:induction false} EncodeR4G4B4A4IsOr(p: Rgba)
    ensures EncodeR4G4B4A4(p) == PackR4G4B4A4(Narrow(p.r, 0xF), Narrow(p.g, 0xF), Narrow(p.b, 0xF), Narrow(p.a, 0xF))
  {
    PackR4G4B4A4Disjoint(Narrow(p.r, 0xF), Narrow(p.g, 0xF), Narrow(p.b, 0xF), Narrow(p.a, 0xF));
  }

  /** The writer's `(r << 11) | (g << 5) | b` is the sum of the shifted fields. */
  lemma {:induction false} EncodeR5G6B5IsOr(p: Rgba)
    ensures EncodeR5G6B5(p) == PackR5G6B5(Narrow(p.r, 0x1F), Narrow(p.g, 0x3F), Narrow(p.b, 0x1F))
  {
    PackR5G6B5Disjoint(Narrow(p.r, 0x1F), Narrow(p.g, 0x3F), Narrow(p.b, 0x1F));
  }

  function EncodeWord(f: TextureFormat, p: Rgba): u16
    requires IsPacked16(f)
  {
    match f
    case R5G5B5A1 => EncodeR5G5B5A1(p)
    case R4G4B4A4 => EncodeR4G4B4A4(p)
    case R5G6B5 => EncodeR5G6B5(p)
  }

  // ---------------------------------------------------------------------------
  // What a pixel looks like after a write and a read
  // ---------------------------------------------------------------------------

  /** A channel narrowed to `max` and expanded back. */
  function Requantise(c: byte, max: nat): byte
    requires 0 < max
  {
    Expand(Narrow(c, max), max)
  }

  /**
   * The pixel a reader sees after a writer stored `p` in format `f`: each
   * channel narrowed to its field and expanded back; a 1-bit alpha survives
   * only as fully opaque (255) or fully transparent (0), R5G6B5 is opaque.
   */
  function Quantise(f: TextureFormat, p: Rgba): Rgba
  {
    match f
    case R5G5B5A1 =>
      Rgba(Requantise(p.r, 0x1F), Requantise(p.g, 0x1F), Requantise(p.b, 0x1F),
           if p.a == 0xFF then 0xFF else 0)
    case R4G4B4A4 =>
      Rgba(17 * (p.r / 17), 17 * (p.g / 17), 17 * (p.b / 17), 17 * (p.a / 17))
    case R5G6B5 =>
      Rgba(Requantise(p.r, 0x1F), Requantise(p.g, 0x3F), Requantise(p.b, 0x1F), 0xFF)
    case R8G8B8A8 => p
  }

  /** Shifting and masking a packed R5G5B5A1 word gives back its fields. */
  lemma {:induction false} UnpackR5G5B5A1(r: nat, g: nat, b: nat, a: nat)
    requires r < 0x20 && g < 0x20 && b < 0x20 && a < 0x2
    ensures var w := r * 0x800 + g * 0x40 + b * 0x2 + a;
            (w / 0x800) % 0x20 == r && (w / 0x40) % 0x20 == g && (w / 0x2) % 0x20 == b && w % 0x2 == a
  {
    var w := r * 0x800 + g * 0x40 + b * 0x2 + a;
    DivModOf(w, 0x800, r, g * 0x40 + b * 0x2 + a);
    DivModOf(r, 0x20, 0, r);
    DivModOf(w, 0x40, r * 0x20 + g, b * 0x2 + a);
    DivModOf(r * 0x20 + g, 0x20, r, g);
    DivModOf(w, 0x2, r * 0x400 + g * 0x20 + b, a);
    DivModOf(r * 0x400 + g * 0x20 + b, 0x20, r * 0x20 + g, b);
  }

  lemma {:induction false} UnpackR4G4B4A4(r: nat, g: nat, b: nat, a: nat)
    requires r < 0x10 && g < 0x10 && b < 0x10 && a < 0x10
    ensures var w := r * 0x1000 + g * 0x100 + b * 0x10 + a;
            (w / 0x1000) % 0x10 == r && (w / 0x100) % 0x10 == g && (w / 0x10) % 0x10 == b && w % 0x10 == a
  {
    var w := r * 0x1000 + g * 0x100 + b * 0x10 + a;
    DivModOf(w, 0x1000, r, g * 0x100 + b * 0x10 + a);
    DivModOf(r, 0x10, 0, r);
    DivModOf(w, 0x100, r * 0x10 + g, b * 0x10 + a);
    DivModOf(r * 0x10 + g, 0x10, r, g);
    DivModOf(w, 0x10, r * 0x100 + g * 0x10 + b, a);
    DivModOf(r * 0x100 + g * 0x10 + b, 0x10, r * 0x10 + g, b);
  }

  lemma {:induction false} UnpackR5G6B5(r: nat, g: nat, b: nat)
    requires r < 0x20 && g < 0x40 && b < 0x20
    ensures var w := r * 0x800 + g * 0x20 + b;
            (w / 0x800) % 0x20 == r && (w / 0x20) % 0x40 == g && w % 0x20 == b
  {
    var w := r * 0x800 + g * 0x20 + b;
    DivModOf(w, 0x800, r, g * 0x20 + b);
    DivModOf(r, 0x20, 0, r);
    DivModOf(w, 0x20, r * 0x40 + g, b);
    DivModOf(r * 0x40 + g, 0x40, r, g);
  }

  /** A 16-bit word is the sum of its four 4-bit digits. */
  lemma {:induction false} NibblesOfWord(w: u16)
    ensures w == ((w / 0x1000) % 0x10) * 0x1000 + ((w / 0x100) % 0x10) * 0x100 + ((w / 0x10) % 0x10) * 0x10 + w % 0x10
  {
    var q1 := w / 0x10;
    var q2 := q1 / 0x10;
    var q3 := q2 / 0x10;
    DivModOf(w, 0x10, q1, w % 0x10);
    DivModOf(q1, 0x10, q2, q1 % 0x10);
    DivModOf(q2, 0x10, q3, q2 % 0x10);
    DivModOf(w, 0x100, q2, (q1 % 0x10) * 0x10 + w % 0x10);
    DivModOf(w, 0x1000, q3, (q2 % 0x10) * 0x100 + (q1 % 0x10) * 0x10 + w % 0x10);
    DivModOf(q3, 0x10, 0, q3);
  }

  /** Narrowing to four bits is dividing by 17, and expanding is multiplying by 17. */
  lemma {:induction false} Requantise4(c: byte)
    ensures Narrow(c, 0xF) == c / 17 && Requantise(c, 0xF) == 17 * (c / 17)
  {
  }

  /** Unpacking fields placed at their R5G5B5A1 shifts expands each of them. */
  lemma {:induction false} DecodeR5G5B5A1Fields(r: nat, g: nat, b: nat, a: nat)
    requires r < 0x20 && g < 0x20 && b < 0x20 && a < 0x2
    ensures r * 0x800 + g * 0x40 + b * 0x2 + a < 0x1_0000
    ensures DecodeR5G5B5A1(r * 0x800 + g * 0x40 + b * 0x2 + a) == Rgba(Expand(r, 0x1F), Expand(g, 0x1F), Expand(b, 0x1F), a * 0xFF)
  {
    UnpackR5G5B5A1(r, g, b, a);
  }

  /** A channel narrowed to one bit is set only when it is fully on. */
  lemma {:induction false} NarrowAlpha(c: byte)
    ensures Narrow(c, 0x1) * 0xFF == if c == 0xFF then 0xFF else 0
  {
  }

  lemma {:induction false} DecodeEncodeR5G5B5A1(p: Rgba)
    ensures DecodeR5G5B5A1(EncodeR5G5B5A1(p)) == Quantise(R5G5B5A1, p)
  {
    DecodeR5G5B5A1Fields(Narrow(p.r, 0x1F), Narrow(p.g, 0x1F), Narrow(p.b, 0x1F), Narrow(p.a, 0x1));
    NarrowAlpha(p.a);
  }

  lemma {:induction false} DecodeEncodeR4G4B4A4(p: Rgba)
    ensures DecodeR4G4B4A4(EncodeR4G4B4A4(p)) == Quantise(R4G4B4A4, p)
  {
    var r, g, b, a := Narrow(p.r, 0xF), Narrow(p.g, 0xF), Narrow(p.b, 0xF), Narrow(p.a, 0xF);
    UnpackR4G4B4A4(r, g, b, a);
    Requantise4(p.r);
    Requantise4(p.g);
    Requantise4(p.b);
    Requantise4(p.a);
  }

  lemma {:induction false} DecodeEncodeR5G6B5(p: Rgba)
    ensures DecodeR5G6B5(EncodeR5G6B5(p)) == Quantise(R5G6B5, p)
  {
    var r, g, b := Narrow(p.r, 0x1F), Narrow(p.g, 0x3F), Narrow(p.b, 0x1F);
    UnpackR5G6B5(r, g, b);
  }

  /** Unpacking a packed word gives back each narrowed field, expanded. */
  lemma {:induction false} DecodeEncodeWord(f: TextureFormat, p: Rgba)
    requires IsPacked16(f)
    ensures DecodeWord(f, EncodeWord(f, p)) == Quantise(f, p)
  {
    match f
    case R5G5B5A1 => DecodeEncodeR5G5B5A1(p);
    case R4G4B4A4 => DecodeEncodeR4G4B4A4(p);
    case R5G6B5 => DecodeEncodeR5G6B5(p);
  }

  /** Every R4G4B4A4 word survives a read followed by a write. */
  lemma {:induction false} EncodeDecodeR4G4B4A4(w: u16)
    ensures EncodeR4G4B4A4(DecodeR4G4B4A4(w)) == w
  {
    var r, g, b, a := (w / 0x1000) % 0x10, (w / 0x100) % 0x10, (w / 0x10) % 0x10, w % 0x10;
    var p := DecodeR4G4B4A4(w);
    assert p == Rgba(17 * r, 17 * g, 17 * b, 17 * a);
    assert Narrow(p.r, 0xF) == r && Narrow(p.g, 0xF) == g && Narrow(p.b, 0xF) == b && Narrow(p.a, 0xF) == a;
    NibblesOfWord(w);
  }

  /**
   * The other packed formats do not have that property: a 5-bit field of 1
   * expands to 8, and 8 narrows to 0. Word 0x0800 (red field 1) is read as
   * red 8 and written back as 0.
   */
  lemma {:induction false} R5G5B5A1RewriteDrift()
    ensures DecodeR5G5B5A1(0x0800) == Rgba(8, 0, 0, 0)
    ensures EncodeR5G5B5A1(DecodeR5G5B5A1(0x0800)) == 0
  {
    assert (0x0800 / 0x800) % 0x20 == 1 && (0x0800 / 0x40) % 0x20 == 0 && (0x0800 / 0x2) % 0x20 == 0 && 0x0800 % 0x2 == 0;
    assert Expand(1, 0x1F) == 8 && Expand(0, 0x1F) == 0;
    assert Narrow(8, 0x1F) == 0 && Narrow(0, 0x1F) == 0 && Narrow(0, 0x1) == 0;
  }

  lemma {:induction false} R5G6B5RewriteDrift()
    ensures DecodeR5G6B5(0x0800) == Rgba(8, 0, 0, 0xFF)
    ensures EncodeR5G6B5(DecodeR5G6B5(0x0800)) == 0
  {
    assert (0x0800 / 0x800) % 0x20 == 1 && (0x0800 / 0x20) % 0x40 == 0 && 0x0800 % 0x20 == 0;
    assert Expand(1, 0x1F) == 8 && Expand(0, 0x3F) == 0 && Expand(0, 0x1F) == 0;
    assert Narrow(8, 0x1F) == 0 && Narrow(0, 0x3F) == 0 && Narrow(0, 0x1F) == 0;
  }

  /** A red channel of 9 does not survive a read and a second write in R5G5B5A1: its word changes. */
  lemma {:induction false} R5G5B5A1RedDrift(p: Rgba)
    requires p.r == 9
    ensures EncodeR5G5B5A1(Quantise(R5G5B5A1, p)) < 0x800 <= EncodeR5G5B5A1(p)
  {
    assert Narrow(9, 0x1F) == 1 && Requantise(9, 0x1F) == 8 && Narrow(8, 0x1F) == 0;
  }

  /** ... and so do the pixel's bytes. */
  lemma {:induction false} R5G5B5A1PixelDrift(p: Rgba)
    requires p.r == 9
    ensures EncodePixel(R5G5B5A1, Quantise(R5G5B5A1, p)) != EncodePixel(R5G5B5A1, p)
  {
    R5G5B5A1RedDrift(p);
    DecodeEncodeU16(EncodeR5G5B5A1(p));
    DecodeEncodeU16(EncodeR5G5B5A1(Quantise(R5G5B5A1, p)));
  }
  /** ... and so does the payload of any run of pixels holding such a pixel. */
  lemma {:induction false} R5G5B5A1PayloadDrift(ps: seq<Rgba>, i: nat)
    requires i < |ps| && ps[i].r == 9
    ensures EncodePixels(R5G5B5A1, QuantiseAll(R5G5B5A1, ps)) != EncodePixels(R5G5B5A1, ps)
  {
    var f, qs := R5G5B5A1, QuantiseAll(R5G5B5A1, ps);
    EncodedPixel(f, qs, i, Quantise(f, ps[i]));
    EncodedPixel(f, ps, i, ps[i]);
    R5G5B5A1PixelDrift(ps[i]);
  }


  /**
   * The largest amount a channel can lose by being narrowed to a field and
   * expanded back: 9 for five bits, 4 for six, 16 for four. A channel never gains.
   */
  lemma {:induction false} RequantiseError(c: byte)
    ensures Requantise(c, 0x1F) <= c <= Requantise(c, 0x1F) + 9
    ensures Requantise(c, 0x3F) <= c <= Requantise(c, 0x3F) + 4
    ensures Requantise(c, 0xF) <= c <= Requantise(c, 0xF) + 16
  {
    RequantiseError5(c);
    RequantiseError6(c);
    Requantise4(c);
  }

  lemma {:induction false} RequantiseError5(c: byte)
    ensures Requantise(c, 0x1F) <= c <= Requantise(c, 0x1F) + 9
  {
    var f := Narrow(c, 0x1F);
    assert f == c * 0x1F / 0xFF && Requantise(c, 0x1F) == f * 0xFF / 0x1F;
  }

  lemma {:induction false} RequantiseError6(c: byte)
    ensures Requantise(c, 0x3F) <= c <= Requantise(c, 0x3F) + 4
  {
    var f := Narrow(c, 0x3F);
    var q: int := Requantise(c, 0x3F);
    assert f == c * 0x3F / 0xFF && q == f * 0xFF / 0x3F;
    // 0xFF is 4 * 0x3F + 3, so the remainder of `f * 0xFF` by 0x3F is a multiple of 3, at most 60.
    var k: int := 85 * f - 21 * q;
    assert f * 0xFF == q * 0x3F + 3 * k;
    assert 0 <= k <= 20;
  }

  /** Red 41 narrows to field 4, which expands to 32: a 5-bit channel can lose 9. */
  lemma {:induction false} RequantiseErrorAttained()
    ensures Requantise(41, 0x1F) == 32
  {
  }

  // ---------------------------------------------------------------------------
  // Pixels as bytes
  // ---------------------------------------------------------------------------

  /** One pixel as the writer emits it: a little-endian word, or the four channels as they are. */
  function EncodePixel(f: TextureFormat, p: Rgba): (b: seq<byte>)
    ensures |b| == Bpp(f)
  {
    if f == R8G8B8A8 then [p.r, p.g, p.b, p.a] else EncodeU16(EncodeWord(f, p))
  }

  /** One pixel as the reader takes it from `Bpp(f)` payload bytes. */
  function DecodePixel(f: TextureFormat, b: seq<byte>): Rgba
    requires |b| == Bpp(f)
  {
    if f == R8G8B8A8 then Rgba(b[0], b[1], b[2], b[3]) else DecodeWord(f, DecodeU16(b[0], b[1]))
  }

  lemma {:induction false} DecodeEncodePixel(f: TextureFormat, p: Rgba)
    ensures DecodePixel(f, EncodePixel(f, p)) == Quantise(f, p)
  {
    if f != R8G8B8A8 {
      DecodeEncodeWord(f, p);
    }
  }

  /** The formats whose every on-disk pixel survives a read followed by a write. */
  predicate RewriteStable(f: TextureFormat)
  {
    f == R4G4B4A4 || f == R8G8B8A8
  }

  lemma {:induction false} EncodeDecodePixel(f: TextureFormat, b: seq<byte>)
    requires RewriteStable(f) && |b| == Bpp(f)
    ensures EncodePixel(f, DecodePixel(f, b)) == b
  {
    if f == R4G4B4A4 {
      EncodeDecodeR4G4B4A4(DecodeU16(b[0], b[1]));
      EncodeDecodeU16(b[0], b[1]);
    }
  }

  /** What the listed channel properties of a decoded pixel are, per format. */
  predicate DecodedChannels(f: TextureFormat, p: Rgba)
  {
    match f
    case R5G5B5A1 => p.a == 0 || p.a == 0xFF
    case R4G4B4A4 => p.r % 17 == 0 && p.g % 17 == 0 && p.b % 17 == 0 && p.a % 17 == 0
    case R5G6B5 => p.a == 0xFF
    case R8G8B8A8 => true
  }

  lemma {:induction false} DecodePixelChannels(f: TextureFormat, b: seq<byte>)
    requires |b| == Bpp(f)
    ensures DecodedChannels(f, DecodePixel(f, b))
  {
  }

  // ---------------------------------------------------------------------------
  // Pixel sequences as payloads
  // ---------------------------------------------------------------------------

  /** Whether `n` payload bytes hold a whole number of pixels of format `f`. */
  predicate WholePixels(f: TextureFormat, n: nat)
  {
    if f == R8G8B8A8 then n % 4 == 0 else n % 2 == 0
  }

  /** Where pixel `i` starts in a payload: `i` times the bytes per pixel, written per format. */
  function Offset(f: TextureFormat, i: nat): nat
  {
    if f == R8G8B8A8 then 4 * i else 2 * i
  }

  /** `data_size` is the byte offset just past the last of `width * height` pixels. */
  lemma {:induction false} DataSizeIsOffset(f: TextureFormat, width: nat, height: nat)
    ensures DataSize(f, width, height) == Offset(f, RowStart(width, height))
    ensures WholePixels(f, DataSize(f, width, height))
  {
    var n := RowStart(width, height);
    if f == R8G8B8A8 {
      assert DataSize(f, width, height) == n * 4;
      DivModOf(n * 4, 4, n, 0);
    } else {
      assert DataSize(f, width, height) == n * 2;
      DivModOf(n * 2, 2, n, 0);
    }
  }

  /** The bytes of pixel `i`. */
  function PixelBytes(f: TextureFormat, data: seq<byte>, i: nat): (b: seq<byte>)
    requires Offset(f, i + 1) <= |data|
    ensures |b| == Bpp(f)
  {
    data[Offset(f, i) .. Offset(f, i + 1)]
  }

  /** `bytemuck::cast_slice::<u8, u16>` on a little-endian host: consecutive byte pairs as words. */
  function Words(data: seq<byte>): (ws: seq<u16>)
    requires |data| % 2 == 0
    ensures 2 * |ws| == |data|
  {
    seq(|data| / 2, i requires 0 <= i < |data| / 2 => DecodeU16(data[2 * i], data[2 * i + 1]))
  }

  /** `RgbaImage::from_vec`: consecutive groups of four bytes as the channels of a pixel. */
  function Quads(data: seq<byte>): (ps: seq<Rgba>)
    requires |data| % 4 == 0
    ensures 4 * |ps| == |data|
  {
    seq(|data| / 4, i requires 0 <= i < |data| / 4 => Rgba(data[4 * i], data[4 * i + 1], data[4 * i + 2], data[4 * i + 3]))
  }

  /** The pixels of a payload in storage order, before the vertical flip. */
  function DecodePixels(f: TextureFormat, data: seq<byte>): (ps: seq<Rgba>)
    requires WholePixels(f, |data|)
    ensures Offset(f, |ps|) == |data|
  {
    if f == R8G8B8A8 then Quads(data)
    else
      var ws := Words(data);
      seq(|ws|, i requires 0 <= i < |ws| => DecodeWord(f, ws[i]))
  }

  /** Pixels encoded one after the other, in order. */
  function EncodePixels(f: TextureFormat, ps: seq<Rgba>): (data: seq<byte>)
    ensures |data| == Offset(f, |ps|)
  {
    if ps == [] then [] else EncodePixels(f, ps[..|ps| - 1]) + EncodePixel(f, ps[|ps| - 1])
  }

  function QuantiseAll(f: TextureFormat, ps: seq<Rgba>): (qs: seq<Rgba>)
  {
    seq(|ps|, i requires 0 <= i < |ps| => Quantise(f, ps[i]))
  }

  /** Each pixel of a payload is decoded from its own bytes. */
  lemma {:induction false} DecodePixelsAt(f: TextureFormat, data: seq<byte>, i: nat)
    requires WholePixels(f, |data|) && i < |DecodePixels(f, data)|
    ensures Offset(f, i + 1) <= |data|
    ensures DecodePixels(f, data)[i] == DecodePixel(f, PixelBytes(f, data, i))
  {
    if f == R8G8B8A8 {
      QuadsAt(data, i);
    } else {
      WordsAt(data, i);
      var ws := Words(data);
      assert DecodePixels(f, data)[i] == DecodeWord(f, ws[i]);
    }
  }

  lemma {:induction false} QuadsAt(data: seq<byte>, i: nat)
    requires |data| % 4 == 0 && i < |data| / 4
    ensures Quads(data)[i] == DecodePixel(R8G8B8A8, PixelBytes(R8G8B8A8, data, i))
  {
    var b := PixelBytes(R8G8B8A8, data, i);
    assert b[0] == data[4 * i] && b[1] == data[4 * i + 1] && b[2] == data[4 * i + 2] && b[3] == data[4 * i + 3];
  }

  lemma {:induction false} WordsAt(data: seq<byte>, i: nat)
    requires |data| % 2 == 0 && i < |data| / 2
    ensures Words(data)[i] == DecodeU16(PixelBytes(R5G6B5, data, i)[0], PixelBytes(R5G6B5, data, i)[1])
  {
    var b := PixelBytes(R5G6B5, data, i);
    assert b[0] == data[2 * i] && b[1] == data[2 * i + 1];
  }

  /** Appending bytes after `n` whole pixels leaves the bytes of those pixels alone. */
  lemma {:induction false} PixelBytesBefore(f: TextureFormat, front: seq<byte>, tail: seq<byte>, i: nat, n: nat)
    requires |front| == Offset(f, n) && i < n
    ensures Offset(f, i + 1) <= |front|
    ensures PixelBytes(f, front + tail, i) == PixelBytes(f, front, i)
  {
    SliceLeft(front, tail, Offset(f, i), Offset(f, i + 1));
  }

  /** The bytes appended after `n` whole pixels are pixel `n`. */
  lemma {:induction false} PixelBytesLast(f: TextureFormat, front: seq<byte>, b: seq<byte>, n: nat)
    requires |front| == Offset(f, n) && |b| == Bpp(f)
    ensures Offset(f, n + 1) == |front + b|
    ensures PixelBytes(f, front + b, n) == b
  {
    SliceRightAll(front, b);
  }

  /** Pixel `i`'s bytes in an encoding are the encoding of pixel `i`. */
  lemma {:induction false} EncodePixelsAt(f: TextureFormat, ps: seq<Rgba>, i: nat)
    requires i < |ps|
    ensures Offset(f, i + 1) <= |EncodePixels(f, ps)|
    ensures PixelBytes(f, EncodePixels(f, ps), i) == EncodePixel(f, ps[i])
    decreases |ps|
  {
    var init, last := ps[..|ps| - 1], ps[|ps| - 1];
    var front := EncodePixels(f, init);
    assert EncodePixels(f, ps) == front + EncodePixel(f, last);
    if i < |init| {
      EncodePixelsAt(f, init, i);
      PixelBytesBefore(f, front, EncodePixel(f, last), i, |init|);
    } else {
      PixelBytesLast(f, front, EncodePixel(f, last), i);
    }
  }

  /** The bytes of pixel `i` of an encoding are the encoding of any pixel equal to `ps[i]`. */
  lemma {:induction false} EncodedPixel(f: TextureFormat, ps: seq<Rgba>, i: nat, p: Rgba)
    requires i < |ps| && ps[i] == p
    ensures Offset(f, i + 1) <= |EncodePixels(f, ps)|
    ensures PixelBytes(f, EncodePixels(f, ps), i) == EncodePixel(f, p)
  {
    EncodePixelsAt(f, ps, i);
  }

  /** Encoding one more pixel appends its bytes, as the writer's pixel loop does. */
  lemma {:induction false} EncodePixelsAppend(f: TextureFormat, ps: seq<Rgba>, p: Rgba)
    ensures EncodePixels(f, ps + [p]) == EncodePixels(f, ps) + EncodePixel(f, p)
  {
    AppendLast(ps, p);
  }

  /** The encoding of the first `k + 1` pixels extends that of the first `k` by pixel `k`. */
  lemma {:induction false} EncodePixelsNext(f: TextureFormat, ps: seq<Rgba>, k: nat)
    requires k < |ps|
    ensures EncodePixels(f, ps[..k + 1]) == EncodePixels(f, ps[..k]) + EncodePixel(f, ps[k])
  {
    TakeNext(ps, k);
    EncodePixelsAppend(f, ps[..k], ps[k]);
  }

  /** Encoding two runs of pixels one after the other concatenates their encodings. */
  lemma {:induction false} EncodePixelsConcat(f: TextureFormat, ps: seq<Rgba>, qs: seq<Rgba>)
    ensures EncodePixels(f, ps + qs) == EncodePixels(f, ps) + EncodePixels(f, qs)
    decreases |qs|
  {
    if qs == [] {
      ConcatEmpty(ps, qs);
      ConcatEmpty(EncodePixels(f, ps), EncodePixels(f, qs));
    } else {
      var init, p := qs[..|qs| - 1], qs[|qs| - 1];
      ConcatLast(ps, qs);
      EncodePixelsConcat(f, ps, init);
      EncodePixelsAppend(f, ps + init, p);
      AppendAssoc(EncodePixels(f, ps), EncodePixels(f, init), EncodePixel(f, p));
    }
  }

  /** A payload whose length is the offset of pixel `n` holds whole pixels, exactly `n` of them. */
  lemma {:induction false} PixelCount(f: TextureFormat, data: seq<byte>, n: nat)
    requires |data| == Offset(f, n)
    ensures WholePixels(f, |data|)
    ensures |DecodePixels(f, data)| == n
  {
    var m := |DecodePixels(f, data)|;
    if f == R8G8B8A8 {
      assert |data| == 4 * n && |data| == 4 * m;
    } else {
      assert |data| == 2 * n && |data| == 2 * m;
    }
  }

  /** An encoding holds whole pixels, as many as were encoded. */
  lemma {:induction false} EncodePixelsCount(f: TextureFormat, ps: seq<Rgba>)
    ensures WholePixels(f, |EncodePixels(f, ps)|)
    ensures |DecodePixels(f, EncodePixels(f, ps))| == |ps|
  {
    PixelCount(f, EncodePixels(f, ps), |ps|);
  }

  lemma {:induction false} DecodeEncodePixelsAt(f: TextureFormat, ps: seq<Rgba>, i: nat)
    requires i < |ps|
    ensures WholePixels(f, |EncodePixels(f, ps)|)
    ensures |DecodePixels(f, EncodePixels(f, ps))| == |ps|
    ensures DecodePixels(f, EncodePixels(f, ps))[i] == QuantiseAll(f, ps)[i]
  {
    var data := EncodePixels(f, ps);
    EncodePixelsCount(f, ps);
    EncodePixelsAt(f, ps, i);
    DecodePixelsAt(f, data, i);
    DecodeEncodePixel(f, ps[i]);
  }

  /** Pixel by pixel, decoding an encoding quantises. */
  lemma {:induction false} DecodeEncodeEach(f: TextureFormat, ps: seq<Rgba>)
    ensures WholePixels(f, |EncodePixels(f, ps)|)
    ensures |DecodePixels(f, EncodePixels(f, ps))| == |ps| && |QuantiseAll(f, ps)| == |ps|
    ensures forall i | 0 <= i < |ps| :: DecodePixels(f, EncodePixels(f, ps))[i] == QuantiseAll(f, ps)[i]
  {
    EncodePixelsCount(f, ps);
    forall i | 0 <= i < |ps|
      ensures DecodePixels(f, EncodePixels(f, ps))[i] == QuantiseAll(f, ps)[i]
    {
      DecodeEncodePixelsAt(f, ps, i);
    }
  }

  /** Two runs of `n` pixels that agree pixel by pixel are equal. */
  lemma {:induction false} SamePixelRun(xs: seq<Rgba>, ys: seq<Rgba>, n: nat)
    requires |xs| == n && |ys| == n
    requires forall i | 0 <= i < n :: xs[i] == ys[i]
    ensures xs == ys
  {
  }

  /** Decoding the encoding of pixels gives each pixel quantised to the format. */
  lemma {:induction false} DecodeEncodePixels(f: TextureFormat, ps: seq<Rgba>)
    ensures WholePixels(f, |EncodePixels(f, ps)|)
    ensures DecodePixels(f, EncodePixels(f, ps)) == QuantiseAll(f, ps)
  {
    DecodeEncodeEach(f, ps);
    SamePixelRun(DecodePixels(f, EncodePixels(f, ps)), QuantiseAll(f, ps), |ps|);
  }

  /** Byte `j` of a payload lies in pixel `j / Bpp(f)`. */
  lemma {:induction false} ByteInPixel(f: TextureFormat, j: nat, n: nat)
    requires j < Offset(f, n)
    ensures var i := if f == R8G8B8A8 then j / 4 else j / 2;
            i < n && Offset(f, i) <= j < Offset(f, i + 1)
  {
  }

  /** Byte `j` of a payload of `n` pixels is a byte of pixel `j / Bpp(f)`. */
  lemma {:induction false} ByteOfPixel(f: TextureFormat, x: seq<byte>, n: nat, j: nat, i: nat)
    requires |x| == Offset(f, n) && j < |x|
    requires i == if f == R8G8B8A8 then j / 4 else j / 2
    ensures i < n && Offset(f, i) <= j < Offset(f, i + 1) <= |x|
    ensures x[j] == PixelBytes(f, x, i)[j - Offset(f, i)]
  {
    ByteInPixel(f, j, n);
  }

  /** Two payloads of `n` pixels are equal when each pixel's bytes are. */
  lemma {:induction false} SamePixelBytes(f: TextureFormat, x: seq<byte>, y: seq<byte>, n: nat)
    requires |x| == Offset(f, n) && |y| == Offset(f, n)
    requires forall i | 0 <= i < n :: PixelBytes(f, x, i) == PixelBytes(f, y, i)
    ensures x == y
  {
    forall j | 0 <= j < |x|
      ensures x[j] == y[j]
    {
      var i := if f == R8G8B8A8 then j / 4 else j / 2;
      ByteOfPixel(f, x, n, j, i);
      ByteOfPixel(f, y, n, j, i);
    }
  }

  /** In the formats that lose nothing on a rewrite, encoding decoded bytes gives the bytes back. */
  lemma {:induction false} EncodeDecodePixels(f: TextureFormat, data: seq<byte>)
    requires RewriteStable(f) && WholePixels(f, |data|)
    ensures EncodePixels(f, DecodePixels(f, data)) == data
  {
    var ps := DecodePixels(f, data);
    var e := EncodePixels(f, ps);
    forall i | 0 <= i < |ps|
      ensures PixelBytes(f, e, i) == PixelBytes(f, data, i)
    {
      EncodePixelsAt(f, ps, i);
      DecodePixelsAt(f, data, i);
      EncodeDecodePixel(f, PixelBytes(f, data, i));
    }
    SamePixelBytes(f, e, data, |ps|);
  }

  /** In the formats that lose nothing on a rewrite, a pixel and its quantised form encode alike. */
  lemma {:induction false} EncodeQuantised(f: TextureFormat, p: Rgba)
    requires RewriteStable(f)
    ensures EncodePixel(f, Quantise(f, p)) == EncodePixel(f, p)
  {
    DecodeEncodePixel(f, p);
    EncodeDecodePixel(f, EncodePixel(f, p));
  }

  /** The same for a whole run of pixels: writing what a reader saw gives the bytes that were written. */
  lemma {:induction false} EncodeQuantiseAll(f: TextureFormat, ps: seq<Rgba>)
    requires RewriteStable(f)
    ensures EncodePixels(f, QuantiseAll(f, ps)) == EncodePixels(f, ps)
  {
    var qs := QuantiseAll(f, ps);
    var x, y := EncodePixels(f, qs), EncodePixels(f, ps);
    forall i | 0 <= i < |ps|
      ensures PixelBytes(f, x, i) == PixelBytes(f, y, i)
    {
      EncodedPixel(f, qs, i, Quantise(f, ps[i]));
      EncodedPixel(f, ps, i, ps[i]);
      EncodeQuantised(f, ps[i]);
    }
    SamePixelBytes(f, x, y, |ps|);
  }

  /** Every decoded pixel has the channel properties its format guarantees. */
  lemma {:induction false} DecodePixelsChannels(f: TextureFormat, data: seq<byte>)
    requires WholePixels(f, |data|)
    ensures forall p | p in DecodePixels(f, data) :: DecodedChannels(f, p)
  {
    var ps := DecodePixels(f, data);
    forall i | 0 <= i < |ps|
      ensures DecodedChannels(f, ps[i])
    {
      DecodePixelsAt(f, data, i);
      DecodePixelChannels(f, PixelBytes(f, data, i));
    }
  }

  /** The R8G8B8A8 payload is the pixels' channels, copied unchanged both ways. */
  lemma {:induction false} R8G8B8A8Copy(ps: seq<Rgba>)
    ensures DecodePixels(R8G8B8A8, EncodePixels(R8G8B8A8, ps)) == ps
  {
    DecodeEncodePixels(R8G8B8A8, ps);
  }
}
