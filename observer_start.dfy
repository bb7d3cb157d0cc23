/**
 * ObserverStartPacket (StartObservation): tells a client to enter observer mode. The body is a
 * viewport position and a heading, all written as zero; a client at or after the Goddess of
 * Destruction protocol gets the heading as D followed by a D, an older one gets it as H
 * followed by a C.
 */
module ObserverStart {
  import opened Primitives
  import opened Buffer

  const OPCODE: int := 0xeb

  /** The body writeImpl appends for a client whose protocol version is or is not at least Goddess of Destruction. */
  function Body(atLeastGoddess: bool): seq<byte> {
    Enc(0, READ_D) + Enc(0, READ_D) + Enc(0, READ_D) +
    (if atLeastGoddess then Enc(0, READ_D) + Enc(0, READ_D) else Enc(0, READ_H) + Enc(0, READ_C))
  }

  /** Zero written at any width is that many zero bytes. */
  lemma {:induction false} ZeroBytes(w: nat)
    ensures forall i | 0 <= i < w :: Enc(0, w)[i] == 0
  {
    if w > 0 {
      ZeroBytes(w - 1);
      assert Enc(0, w) == [0] + Enc(0, w - 1);
    }
  }

  /**
   * The body is 20 bytes for a newer client and 15 for an older one, every byte is zero, and
   * the two share the 12-byte viewport.
   */
  lemma BodyLayout(atLeastGoddess: bool)
    ensures |Body(atLeastGoddess)| == if atLeastGoddess then 20 else 15
    ensures forall i | 0 <= i < |Body(atLeastGoddess)| :: Body(atLeastGoddess)[i] == 0
    ensures Body(true)[..12] == Body(false)[..12]
  {
    ZeroBytes(READ_C);
    ZeroBytes(READ_H);
    ZeroBytes(READ_D);
    var b := Body(atLeastGoddess);
    forall i | 0 <= i < |b|
      ensures b[i] == 0
    {
      var d := Enc(0, READ_D);
      var tail := if atLeastGoddess then d + d else Enc(0, READ_H) + Enc(0, READ_C);
      assert b == d + d + d + tail;
      if i < 4 { assert b[i] == d[i]; }
      else if i < 8 { assert b[i] == d[i - 4]; }
      else if i < 12 { assert b[i] == d[i - 8]; }
      else { assert b[i] == tail[i - 12]; }
    }
  }

  /** A field of zero bytes reads as zero, signed or unsigned. */
  lemma ZeroField(b: seq<byte>, pos: nat, w: nat)
    requires 1 <= w && pos + w <= |b| && forall i | pos <= i < pos + w :: b[i] == 0
    ensures TakeUnsigned(b, pos, w) == Success(Read(0, pos + w))
    ensures TakeSigned(b, pos, w) == Success(Read(0, pos + w))
  {
    ZeroBytes(w);
    assert b[pos..pos + w] == Enc(0, w);
    Pow256Half(w);
    TakeUnsignedAt(b, pos, 0, w);
    TakeSignedAt(b, pos, 0, w);
  }

  /** A client reading the body by its own layout reads every field as zero and stops at the end. */
  lemma BodyReadsBack(atLeastGoddess: bool)
    ensures var b := Body(atLeastGoddess);
      TakeD(b, 0) == Success(Read(0, 4)) && TakeD(b, 4) == Success(Read(0, 8)) &&
      TakeD(b, 8) == Success(Read(0, 12))
    ensures atLeastGoddess ==> var b := Body(atLeastGoddess);
      TakeD(b, 12) == Success(Read(0, 16)) && TakeD(b, 16) == Success(Read(0, |b|))
    ensures !atLeastGoddess ==> var b := Body(atLeastGoddess);
      TakeH(b, 12) == Success(Read(0, 14)) && TakeC(b, 14) == Success(Read(0, |b|))
  {
    var b := Body(atLeastGoddess);
    BodyLayout(atLeastGoddess);
    ZeroField(b, 0, READ_D);
    ZeroField(b, 4, READ_D);
    ZeroField(b, 8, READ_D);
    if atLeastGoddess {
      ZeroField(b, 12, READ_D);
      ZeroField(b, 16, READ_D);
    } else {
      ZeroField(b, 12, READ_H);
      ZeroField(b, 14, READ_C);
    }
  }

  /** The three writes of the viewport and the two of the heading make up the body. */
  lemma Appended(start: seq<byte>, viewport: seq<byte>, end: seq<byte>, atLeastGoddess: bool)
    requires viewport == start + Enc(0, READ_D) + Enc(0, READ_D) + Enc(0, READ_D)
    requires atLeastGoddess ==> end == viewport + Enc(0, READ_D) + Enc(0, READ_D)
    requires !atLeastGoddess ==> end == viewport + Enc(0, READ_H) + Enc(0, READ_C)
    ensures end == start + Body(atLeastGoddess)
  {
  }

  /** The packet as sent; it carries no fields of its own. */
  class ObserverStartPacket {
    constructor ()
    {
    }

    function Opcode(): (op: int)
      ensures op == OPCODE
    {
      0xeb
    }

    /** writeImpl: the viewport, then the heading in the client's layout. */
    method WriteImpl(buf: Writer, atLeastGoddess: bool)
      modifies buf
      ensures buf.bytes == old(buf.bytes) + Body(atLeastGoddess)
    {
      ghost var start := buf.bytes;
      buf.WriteD(0);
      buf.WriteD(0);
      buf.WriteD(0);
      ghost var viewport := buf.bytes;
      if atLeastGoddess {
        buf.WriteD(0);
        buf.WriteD(0);
      } else {
        buf.WriteH(0);
        buf.WriteC(0);
      }
      Appended(start, viewport, buf.bytes, atLeastGoddess);
    }
  }
}
