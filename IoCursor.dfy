/**
 * `std::io::Cursor<&mut Vec<u8>>`, the in-memory stream the writer
 * serialises into: a byte buffer and a position. Seeking only moves the
 * position, even past the end; a write at a position past the end first
 * fills the gap with zero bytes, then overwrites what is there and
 * extends the buffer with the rest.
 */
module IoCursor {
  import opened Bytes

  function Max(a: nat, b: nat): nat
  {
    if a < b then b else a
  }

  /** The buffer after writing `bytes` at `pos`. */
  function Overwrite(buf: seq<byte>, pos: nat, bytes: seq<byte>): (r: seq<byte>)
    ensures |r| == Max(|buf|, pos + |bytes|)
  {
    var padded := if pos <= |buf| then buf else buf + Zeros(pos - |buf|);
    if pos + |bytes| <= |padded| then padded[..pos] + bytes + padded[pos + |bytes|..]
    else padded[..pos] + bytes
  }

  /**
   * Byte by byte: the written bytes where they were written, the old
   * buffer elsewhere, and zeros in a gap between the old end and `pos`.
   */
  lemma {:induction false} OverwriteAt(buf: seq<byte>, pos: nat, bytes: seq<byte>, j: nat)
    requires j < |Overwrite(buf, pos, bytes)|
    ensures Overwrite(buf, pos, bytes)[j] ==
              if pos <= j < pos + |bytes| then bytes[j - pos]
              else if j < |buf| then buf[j]
              else 0
  {
  }

  /** Writing at the end appends. */
  lemma {:induction false} OverwriteAtEnd(buf: seq<byte>, bytes: seq<byte>)
    ensures Overwrite(buf, |buf|, bytes) == buf + bytes
  {
  }

  /** Writing past the end appends after a run of zeros. */
  lemma {:induction false} OverwritePastEnd(buf: seq<byte>, pos: nat, bytes: seq<byte>)
    requires |buf| <= pos
    ensures Overwrite(buf, pos, bytes) == buf + Zeros(pos - |buf|) + bytes
  {
  }

  /** Two writes one after the other are one write of both. */
  lemma {:induction false} OverwriteConcat(buf: seq<byte>, pos: nat, a: seq<byte>, b: seq<byte>)
    ensures Overwrite(Overwrite(buf, pos, a), pos + |a|, b) == Overwrite(buf, pos, a + b)
  {
    var once, twice, whole := Overwrite(buf, pos, a), Overwrite(Overwrite(buf, pos, a), pos + |a|, b), Overwrite(buf, pos, a + b);
    forall j | 0 <= j < |whole|
      ensures twice[j] == whole[j]
    {
      OverwriteAt(once, pos + |a|, b, j);
      OverwriteAt(buf, pos, a + b, j);
      if j < |once| {
        OverwriteAt(buf, pos, a, j);
      }
    }
  }

  class Cursor {
    var buf: seq<byte>
    var pos: nat

    /** `Cursor::new` over an empty vector. */
    constructor()
      ensures buf == [] && pos == 0
    {
      buf := [];
      pos := 0;
    }

    /** `seek(SeekFrom::Start(p))`: the buffer does not grow until something is written. */
    method Seek(p: nat)
      modifies this
      ensures buf == old(buf) && pos == p
    {
      pos := p;
    }

    /**
     * `write_all`: pad the vector with zeros up to the position, overwrite
     * the bytes already there, then push the rest.
     */
    method Write(bytes: seq<byte>)
      modifies this
      ensures buf == Overwrite(old(buf), old(pos), bytes)
      ensures pos == old(pos) + |bytes|
    {
      ghost var before := buf;
      if pos > |buf| {
        buf := buf + Zeros(pos - |buf|);
      }
      var overlap := if |buf| - pos < |bytes| then |buf| - pos else |bytes|;
      buf := buf[..pos] + bytes[..overlap] + buf[pos + overlap..] + bytes[overlap..];
      pos := pos + |bytes|;
      forall j | 0 <= j < |buf|
        ensures buf[j] == Overwrite(before, old(pos), bytes)[j]
      {
        OverwriteAt(before, old(pos), bytes, j);
      }
    }
  }
}
