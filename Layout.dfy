/**
 * The container a texture package is stored in, whatever its headers and
 * payloads hold.
 *
 * Offset 0 holds the texture count and offset 4 the table pointer 0x20;
 * bytes 8 to 31 are zero. From 0x20 on, one 36-byte record per texture:
 * its 32 header bytes and the absolute offset of its payload. The payloads
 * follow the table in texture order, each right after the one before.
 */
module Layout {
  import opened Bytes
  import opened Formats
  import opened IoCursor

  /** A texture as the container stores it: its header bytes and its payload. */
  datatype Entry = Entry(header: seq<byte>, payload: seq<byte>)

  /** `TEX_HEADER_SIZE`: a header and its payload pointer. */
  const TexHeaderSize: nat := 36

  /** Where the record table starts, as the prologue's pointer says. */
  const TableStart: nat := 0x20

  /** The first payload byte: the end of a table of `n` records. */
  function TableEnd(n: nat): nat
  {
    0x20 + 36 * n
  }

  /** The payloads of the first `i` entries, one after the other. */
  function Payloads(es: seq<Entry>, i: nat): seq<byte>
    requires i <= |es|
  {
    if i == 0 then [] else Payloads(es, i - 1) + es[i - 1].payload
  }

  /** `data_offset` when record `i` is written: past the table and the payloads before `i`. */
  function PayloadPointer(es: seq<Entry>, i: nat): nat
    requires i <= |es|
  {
    TableEnd(|es|) + |Payloads(es, i)|
  }

  /** Every offset the writer computes, the one after the last payload included, fits in a u32. */
  predicate OffsetsFit(es: seq<Entry>)
  {
    FitsU32(PayloadPointer(es, |es|))
  }

  /** Headers of 32 bytes, so that records are 36 bytes apart, and offsets that fit. */
  predicate WellFormed(es: seq<Entry>)
  {
    (forall j | 0 <= j < |es| :: |es[j].header| == 32) && OffsetsFit(es)
  }

  /** The payloads of fewer entries are a prefix of those of more. */
  lemma {:induction false} PayloadsPrefix(es: seq<Entry>, i: nat, k: nat)
    requires i <= k <= |es|
    ensures Payloads(es, i) <= Payloads(es, k)
    decreases k
  {
    if i < k {
      PayloadsPrefix(es, i, k - 1);
      PrefixAppend(Payloads(es, i), Payloads(es, k - 1), es[k - 1].payload);
    }
  }

  lemma {:induction false} PayloadPointerFits(es: seq<Entry>, i: nat)
    requires OffsetsFit(es) && i <= |es|
    ensures FitsU32(PayloadPointer(es, i))
  {
    PayloadsPrefix(es, i, |es|);
  }

  /** The next payload starts where this one ends. */
  lemma {:induction false} PayloadPointerNext(es: seq<Entry>, i: nat)
    requires i < |es|
    ensures PayloadPointer(es, i + 1) == PayloadPointer(es, i) + |es[i].payload|
  {
    assert Payloads(es, i + 1) == Payloads(es, i) + es[i].payload;
  }

  /** `TexturePackageHeaderRaw`: the count and the table pointer. */
  function Prologue(n: u32): (b: seq<byte>)
    ensures |b| == 8
  {
    EncodeU32(n) + EncodeU32(TableStart)
  }

  /** A record: the header, then the payload pointer. */
  function Record(e: Entry, ptr: u32): (b: seq<byte>)
    ensures |b| == |e.header| + 4
  {
    e.header + EncodeU32(ptr)
  }

  /** The records of the first `i` entries, each naming the offset of its payload. */
  function Table(es: seq<Entry>, i: nat): (b: seq<byte>)
    requires WellFormed(es) && i <= |es|
    ensures |b| == 36 * i
  {
    if i == 0 then []
    else
      PayloadPointerFits(es, i - 1);
      Table(es, i - 1) + Record(es[i - 1], PayloadPointer(es, i - 1))
  }

  /** The records of fewer entries are a prefix of those of more. */
  lemma {:induction false} TablePrefix(es: seq<Entry>, i: nat, k: nat)
    requires WellFormed(es) && i <= k <= |es|
    ensures Table(es, i) <= Table(es, k)
    decreases k
  {
    if i < k {
      TablePrefix(es, i, k - 1);
      PayloadPointerFits(es, k - 1);
      PrefixAppend(Table(es, i), Table(es, k - 1), Record(es[k - 1], PayloadPointer(es, k - 1)));
    }
  }

  /** The container once the records of the first `i` entries are written. */
  function TableSoFar(es: seq<Entry>, i: nat): (b: seq<byte>)
    requires WellFormed(es) && i <= |es|
    ensures |b| == if i == 0 then 8 else TableEnd(i)
  {
    PayloadPointerFits(es, 0);
    if i == 0 then Prologue(|es|) else Prologue(|es|) + Zeros(24) + Table(es, i)
  }

  /** Before any record is written the container is the prologue alone. */
  lemma {:induction false} TableSoFarStart(es: seq<Entry>)
    requires WellFormed(es)
    ensures FitsU32(|es|) && TableSoFar(es, 0) == Prologue(|es|)
  {
    PayloadPointerFits(es, 0);
  }

  /** Everything before the payloads. With no entries, only the prologue. */
  function Head(es: seq<Entry>): (b: seq<byte>)
    requires WellFormed(es)
    ensures |b| == if |es| == 0 then 8 else TableEnd(|es|)
  {
    TableSoFar(es, |es|)
  }

  /** The whole container. */
  function Container(es: seq<Entry>): (b: seq<byte>)
    requires WellFormed(es)
    ensures |b| == if |es| == 0 then 8 else PayloadPointer(es, |es|)
  {
    Head(es) + Payloads(es, |es|)
  }

  // ---------------------------------------------------------------------------
  // Building the container one record and one payload at a time
  // ---------------------------------------------------------------------------

  /** One more record extends the table by that record. */
  lemma {:induction false} TableGrows(es: seq<Entry>, i: nat)
    requires WellFormed(es) && i < |es|
    ensures FitsU32(PayloadPointer(es, i))
    ensures Table(es, i + 1) == Table(es, i) + Record(es[i], PayloadPointer(es, i))
  {
    PayloadPointerFits(es, i);
  }

  /** Writing the next record at its place in the table leaves the table one record longer. */
  lemma {:induction false} TableWritten(es: seq<Entry>, i: nat)
    requires WellFormed(es) && i < |es|
    ensures FitsU32(PayloadPointer(es, i))
    ensures Overwrite(TableSoFar(es, i), TableStart + 36 * i, Record(es[i], PayloadPointer(es, i))) == TableSoFar(es, i + 1)
  {
    PayloadPointerFits(es, i);
    var rec := Record(es[i], PayloadPointer(es, i));
    var buf := TableSoFar(es, i);
    assert TableSoFar(es, i + 1) == (if i == 0 then buf + Zeros(24) else buf) + rec by {
      TableSoFarGrows(es, i);
    }
    assert Overwrite(buf, TableStart + 36 * i, rec) == (if i == 0 then buf + Zeros(24) else buf) + rec by {
      if i == 0 {
        OverwritePastEnd(buf, TableStart, rec);
      } else {
        OverwriteAtEnd(buf, rec);
      }
    }
  }

  /** The table so far, one record longer; the first record comes after the zero padding. */
  lemma {:induction false} TableSoFarGrows(es: seq<Entry>, i: nat)
    requires WellFormed(es) && i < |es|
    ensures FitsU32(PayloadPointer(es, i))
    ensures TableSoFar(es, i + 1) ==
              (if i == 0 then TableSoFar(es, i) + Zeros(24) else TableSoFar(es, i)) + Record(es[i], PayloadPointer(es, i))
  {
    PayloadPointerFits(es, 0);
    PayloadPointerFits(es, i);
    var rec := Record(es[i], PayloadPointer(es, i));
    var pad := Prologue(|es|) + Zeros(24);
    assert Table(es, i + 1) == Table(es, i) + rec by {
      TableGrows(es, i);
    }
    if i == 0 {
      assert Table(es, 0) == [];
    } else {
      AppendAssoc(pad, Table(es, i), rec);
    }
  }

  /** One more payload extends the payload area by that payload. */
  lemma {:induction false} PayloadsGrow(es: seq<Entry>, i: nat)
    requires i < |es|
    ensures Payloads(es, i + 1) == Payloads(es, i) + es[i].payload
  {
  }

  // ---------------------------------------------------------------------------
  // Where everything lies
  // ---------------------------------------------------------------------------

  /** With no entries the container is its prologue alone: count 0 and pointer 0x20. */
  lemma {:induction false} EmptyContainer(es: seq<Entry>)
    requires es == []
    ensures WellFormed(es) && Container(es) == [0, 0, 0, 0, 0x20, 0, 0, 0]
  {
    assert Payloads(es, 0) == [];
    assert EncodeU32(0) == [0, 0, 0, 0];
    assert EncodeU32(0x20) == [0x20, 0, 0, 0];
  }

  /** The prologue: the count, then the table pointer 0x20. */
  lemma {:induction false} PrologueAt(es: seq<Entry>)
    requires WellFormed(es)
    ensures FitsU32(|es|) && 8 <= |Container(es)|
    ensures Container(es)[0 .. 4] == EncodeU32(|es|)
    ensures Container(es)[4 .. 8] == EncodeU32(TableStart)
  {
    PayloadPointerFits(es, 0);
    var u, v, pays := EncodeU32(|es|), EncodeU32(TableStart), Payloads(es, |es|);
    var rest := if |es| == 0 then pays else Zeros(24) + (Table(es, |es|) + pays);
    assert Container(es) == (u + v) + rest by {
      if |es| > 0 {
        AppendAssoc(u + v + Zeros(24), Table(es, |es|), pays);
        AppendAssoc(u + v, Zeros(24), Table(es, |es|) + pays);
      }
    }
    AppendAssoc(u, v, rest);
    SliceLeft(u, v + rest, 0, 4);
    SliceAll(u);
    SliceRight(u, v + rest, 4, 8);
    SliceLeft(v, rest, 0, 4);
    SliceAll(v);
  }

  /** The padding between the prologue and the table is zero. */
  lemma {:induction false} PaddingAt(es: seq<Entry>, j: nat)
    requires WellFormed(es) && |es| > 0 && 8 <= j < TableStart
    ensures Container(es)[j] == 0
  {
    var pro, rest := Prologue(|es|) + Zeros(24), Table(es, |es|) + Payloads(es, |es|);
    AppendAssoc(pro, Table(es, |es|), Payloads(es, |es|));
    assert Container(es) == pro + rest;
    assert pro[j] == Zeros(24)[j - 8];
  }

  /** Record `i` inside the whole table. */
  lemma {:induction false} RecordInTable(es: seq<Entry>, i: nat)
    requires WellFormed(es) && i < |es|
    ensures FitsU32(PayloadPointer(es, i))
    ensures 36 * i + 36 <= |Table(es, |es|)| && Table(es, |es|)[36 * i .. 36 * i + 36] == Record(es[i], PayloadPointer(es, i))
  {
    TableGrows(es, i);
    TablePrefix(es, i + 1, |es|);
    var rec := Record(es[i], PayloadPointer(es, i));
    PrefixSlice(Table(es, i + 1), Table(es, |es|), 36 * i, 36 * i + 36);
    SliceRightAll(Table(es, i), rec);
  }

  /** Record `i` of the table: 36 bytes at `0x20 + 36 * i`. */
  lemma {:induction false} RecordAt(es: seq<Entry>, i: nat)
    requires WellFormed(es) && i < |es|
    ensures FitsU32(PayloadPointer(es, i))
    ensures var at := TableStart + 36 * i;
            at + 36 <= |Container(es)| && Container(es)[at .. at + 36] == Record(es[i], PayloadPointer(es, i))
  {
    RecordInTable(es, i);
    var pro, table, pays := Prologue(|es|) + Zeros(24), Table(es, |es|), Payloads(es, |es|);
    assert Container(es) == pro + table + pays;
    SliceMiddle(pro, table, pays, 36 * i, 36 * i + 36, TableStart + 36 * i, TableStart + 36 * i + 36, Record(es[i], PayloadPointer(es, i)));
  }

  /** Payload `i`: its bytes at the offset its record names. */
  lemma {:induction false} PayloadAt(es: seq<Entry>, i: nat)
    requires WellFormed(es) && i < |es|
    ensures var p := PayloadPointer(es, i);
            p + |es[i].payload| <= |Container(es)| && Container(es)[p .. p + |es[i].payload|] == es[i].payload
  {
    var x := es[i].payload;
    var lo := |Payloads(es, i)|;
    PayloadInArea(es, i);
    ContainerParts(es);
    SliceAfter(Head(es), Payloads(es, |es|), lo, lo + |x|, PayloadPointer(es, i), PayloadPointer(es, i) + |x|, x);
  }

  /** Payload `i` inside the payload area, after the payloads before it. */
  lemma {:induction false} PayloadInArea(es: seq<Entry>, i: nat)
    requires i < |es|
    ensures var lo := |Payloads(es, i)|;
            lo + |es[i].payload| <= |Payloads(es, |es|)| && Payloads(es, |es|)[lo .. lo + |es[i].payload|] == es[i].payload
  {
    PayloadsPrefix(es, i + 1, |es|);
    var x := es[i].payload;
    PrefixSlice(Payloads(es, i + 1), Payloads(es, |es|), |Payloads(es, i)|, |Payloads(es, i)| + |x|);
    SliceRightAll(Payloads(es, i), x);
  }

  /** The container is the part before the payloads, then the payload area. */
  lemma {:induction false} ContainerParts(es: seq<Entry>)
    requires WellFormed(es) && |es| > 0
    ensures Container(es) == Head(es) + Payloads(es, |es|) && |Head(es)| == TableEnd(|es|)
  {
  }

  /**
   * Where the record loop stands before record `i`: the records before it
   * written after the prologue, the cursor just past them, and
   * `data_offset` at the offset payload `i` will have.
   */
  predicate TableState(buf: seq<byte>, pos: nat, dataOffset: int, es: seq<Entry>, i: nat)
  {
    WellFormed(es) && i <= |es| && pos == TableStart + 36 * i &&
    buf == TableSoFar(es, i) && dataOffset == PayloadPointer(es, i)
  }

  /** The record loop starts at the table pointer, with `data_offset` right after the table. */
  lemma {:induction false} TableStateStart(es: seq<Entry>)
    requires WellFormed(es)
    ensures FitsU32(TableStart + |es| * TexHeaderSize)
    ensures TableState(Prologue(|es|), TableStart, TableStart + |es| * TexHeaderSize, es, 0)
  {
    PayloadPointerFits(es, 0);
    TableSoFarStart(es);
  }

  /** After the last record the buffer holds the prologue and the whole table. */
  lemma {:induction false} TableStateEnd(buf: seq<byte>, pos: nat, dataOffset: int, es: seq<Entry>, i: nat)
    requires TableState(buf, pos, dataOffset, es, i) && i >= |es|
    ensures buf == Head(es) && pos == TableEnd(|es|)
  {
  }

}
