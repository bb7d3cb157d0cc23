/**
 * The packet buffer as a forward-only cursor: C, H, D and Q fields are 1, 2, 4 and 8 bytes,
 * little-endian; C and H read unsigned, D and Q as two's-complement signed values. A text
 * field (S) is a run of little-endian UTF-16 code units closed by a zero unit; a Java String
 * is its sequence of code units. A read that needs more bytes than remain fails with a buffer
 * underflow.
 */
module Buffer {
  import opened Primitives

  const READ_C: nat := 1
  const READ_H: nat := 2
  const READ_D: nat := 4
  const READ_Q: nat := 8

  /** The exceptions a packet read can end with. */
  datatype Error = BufferUnderflow | NegativeArraySize

  /** One UTF-16 code unit, and a Java String as its code units. */
  type unit16 = x: int | 0 <= x < 0x10000
  type JString = seq<unit16>

  /** The code units of an ASCII literal. */
  function Units(s: string): (u: JString)
    requires forall i | 0 <= i < |s| :: s[i] as int < 0x80
    ensures |u| == |s| && forall i | 0 <= i < |s| :: u[i] == s[i] as int
  {
    seq(|s|, i requires 0 <= i < |s| => s[i] as int)
  }

  /** A decoded value and the cursor position just after it. */
  datatype Read<T> = Read(value: T, next: nat)

  // ----- Little-endian integers -----

  function Pow256(w: nat): (p: nat)
    ensures p >= 1
  {
    if w == 0 then 1 else 256 * Pow256(w - 1)
  }

  /** The unsigned value of little-endian bytes; it fits the width. */
  function LeValue(bs: seq<byte>): (v: nat)
    ensures v < Pow256(|bs|)
  {
    if bs == [] then 0 else bs[0] + 256 * LeValue(bs[1..])
  }

  /** The w low-order bytes of v, least significant first. */
  function LeBytes(v: nat, w: nat): (bs: seq<byte>)
    ensures |bs| == w
  {
    if w == 0 then [] else [v % 256] + LeBytes(v / 256, w - 1)
  }

  /** Encoding a value that fits, then reading it back, gives the value. */
  lemma {:induction false} LeRoundTrip(v: nat, w: nat)
    requires v < Pow256(w)
    ensures LeValue(LeBytes(v, w)) == v
  {
    if w > 0 {
      LeRoundTrip(v / 256, w - 1);
      assert LeBytes(v, w)[1..] == LeBytes(v / 256, w - 1);
    }
  }

  /** Reading bytes, then encoding the value at the same width, gives the bytes back. */
  lemma {:induction false} LeBytesOfValue(bs: seq<byte>)
    ensures LeBytes(LeValue(bs), |bs|) == bs
  {
    if bs != [] {
      var v := LeValue(bs);
      LeBytesOfValue(bs[1..]);
      assert v % 256 == bs[0] && v / 256 == LeValue(bs[1..]);
    }
  }

  /** The two's-complement reading of an unsigned w-byte value. */
  function ToSigned(u: nat, w: nat): int
    requires w >= 1
  {
    if u < Pow256(w) / 2 then u else u - Pow256(w)
  }

  /** The w bytes a Java write of v puts in the buffer: v cut to its w low-order bytes. */
  function Enc(v: int, w: nat): (bs: seq<byte>)
    ensures |bs| == w
  {
    LeBytes(v % Pow256(w), w)
  }

  /** Half the range of w >= 1 bytes: the bound of the non-negative signed values. */
  lemma Pow256Half(w: nat)
    requires w >= 1
    ensures Pow256(w) / 2 == 128 * Pow256(w - 1) && Pow256(w) == 2 * (Pow256(w) / 2)
  {
  }

  lemma ModOfSmall(v: int, p: int)
    requires 0 <= v < p
    ensures v % p == v
  {
  }

  lemma ModOfNegative(v: int, p: int)
    requires -p <= v < 0
    ensures v % p == v + p
  {
  }

  /** A value in the signed range of w bytes survives a write and a signed read. */
  lemma SignedRoundTrip(v: int, w: nat)
    requires w >= 1 && -(Pow256(w) / 2) <= v < Pow256(w) / 2
    ensures ToSigned(LeValue(Enc(v, w)), w) == v
  {
    var p := Pow256(w);
    Pow256Half(w);
    if v >= 0 {
      ModOfSmall(v, p);
    } else {
      ModOfNegative(v, p);
    }
    LeRoundTrip(v % p, w);
  }

  /** A value in the unsigned range of w bytes survives a write and an unsigned read. */
  lemma UnsignedRoundTrip(v: int, w: nat)
    requires 0 <= v < Pow256(w)
    ensures LeValue(Enc(v, w)) == v
  {
    ModOfSmall(v, Pow256(w));
    LeRoundTrip(v, w);
  }

  // ----- Reads, as values -----

  /** readB: the next n bytes. */
  function TakeBytes(data: seq<byte>, pos: nat, n: nat): (r: Result<Read<seq<byte>>, Error>)
    ensures r.Success? <==> pos + n <= |data|
    ensures r.Success? ==> |r.value.value| == n && r.value.next == pos + n
  {
    if pos + n <= |data| then Success(Read(data[pos..pos + n], pos + n)) else Failure(BufferUnderflow)
  }

  /** A fixed-width read succeeds exactly when w bytes remain, and then moves past them. */
  function TakeUnsigned(data: seq<byte>, pos: nat, w: nat): (r: Result<Read<int>, Error>)
    ensures r.Success? <==> pos + w <= |data|
    ensures r.Success? ==> r.value.next == pos + w && 0 <= r.value.value < Pow256(w)
    ensures r.Failure? ==> r.error == BufferUnderflow
  {
    var bs :- TakeBytes(data, pos, w);
    Success(Read(LeValue(bs.value) as int, bs.next))
  }

  function TakeSigned(data: seq<byte>, pos: nat, w: nat): (r: Result<Read<int>, Error>)
    requires w >= 1
    ensures r.Success? <==> pos + w <= |data|
    ensures r.Success? ==> r.value.next == pos + w && -(Pow256(w) / 2) <= r.value.value < Pow256(w) / 2
    ensures r.Failure? ==> r.error == BufferUnderflow
  {
    var u :- TakeUnsigned(data, pos, w);
    Pow256Half(w);
    Success(Read(ToSigned(u.value, w), u.next))
  }

  function TakeC(data: seq<byte>, pos: nat): Result<Read<int>, Error> {
    TakeUnsigned(data, pos, READ_C)
  }

  function TakeH(data: seq<byte>, pos: nat): Result<Read<int>, Error> {
    TakeUnsigned(data, pos, READ_H)
  }

  /** readD: a Java int. */
  function TakeD(data: seq<byte>, pos: nat): (r: Result<Read<int>, Error>)
    ensures r.Success? ==> MIN_INT <= r.value.value <= MAX_INT
  {
    assert Pow256(READ_D) == 0x1_0000_0000;
    TakeSigned(data, pos, READ_D)
  }

  /** readQ: a Java long. */
  function TakeQ(data: seq<byte>, pos: nat): Result<Read<int>, Error> {
    TakeSigned(data, pos, READ_Q)
  }

  /** The code unit stored at pos. */
  function UnitAt(data: seq<byte>, pos: nat): unit16
    requires pos + 2 <= |data|
  {
    LeValue(data[pos..pos + 2])
  }

  /** readS: code units up to (not including) the closing zero unit. */
  function TakeS(data: seq<byte>, pos: nat): (r: Result<Read<JString>, Error>)
    ensures r.Success? ==> r.value.next == pos + 2 * |r.value.value| + 2
    decreases |data| - pos
  {
    if pos + 2 > |data| then Failure(BufferUnderflow)
    else if UnitAt(data, pos) == 0 then Success(Read([], pos + 2))
    else
      var rest :- TakeS(data, pos + 2);
      Success(Read([UnitAt(data, pos)] + rest.value, rest.next))
  }

  /** n consecutive text fields. */
  function TakeStrings(data: seq<byte>, pos: nat, n: nat): (r: Result<Read<seq<JString>>, Error>)
    ensures r.Success? ==> |r.value.value| == n && r.value.next >= pos + 2 * n
    decreases n
  {
    if n == 0 then Success(Read([], pos))
    else
      var first :- TakeS(data, pos);
      var rest :- TakeStrings(data, first.next, n - 1);
      Success(Read([first.value] + rest.value, rest.next))
  }

  // ----- Writes, as values -----

  predicate NoZeroUnit(s: JString) {
    forall i | 0 <= i < |s| :: s[i] != 0
  }

  /** The bytes of a text field: each code unit, then the zero unit. */
  function EncS(s: JString): (bs: seq<byte>)
    ensures |bs| == 2 * |s| + 2
  {
    if s == [] then [0, 0] else Enc(s[0], 2) + EncS(s[1..])
  }

  function EncStrings(ss: seq<JString>): seq<byte> {
    if ss == [] then [] else EncS(ss[0]) + EncStrings(ss[1..])
  }

  // ----- Reads meet writes -----

  /** Fixed-width fields: bytes written at pos are read back from pos. */
  lemma TakeUnsignedAt(data: seq<byte>, pos: nat, v: int, w: nat)
    requires 0 <= v < Pow256(w) && pos + w <= |data| && data[pos..pos + w] == Enc(v, w)
    ensures TakeUnsigned(data, pos, w) == Success(Read(v, pos + w))
  {
    UnsignedRoundTrip(v, w);
  }

  lemma TakeSignedAt(data: seq<byte>, pos: nat, v: int, w: nat)
    requires w >= 1 && -(Pow256(w) / 2) <= v < Pow256(w) / 2
    requires pos + w <= |data| && data[pos..pos + w] == Enc(v, w)
    ensures TakeSigned(data, pos, w) == Success(Read(v, pos + w))
  {
    SignedRoundTrip(v, w);
  }

  /** The parts of data[pos..pos+|x + y|] when it holds x + y. */
  lemma SlicesOfConcat(data: seq<byte>, pos: nat, x: seq<byte>, y: seq<byte>)
    requires pos + |x + y| <= |data| && data[pos..pos + |x + y|] == x + y
    ensures data[pos..pos + |x|] == x && data[pos + |x|..pos + |x| + |y|] == y
  {
    assert data[pos..pos + |x|] == (x + y)[..|x|];
    assert data[pos + |x|..pos + |x| + |y|] == (x + y)[|x|..];
  }

  lemma EncSCons(u: unit16, s: JString)
    ensures EncS([u] + s) == Enc(u, 2) + EncS(s)
  {
    assert ([u] + s)[1..] == s;
  }

  /** The zero unit is the two bytes 0, 0. */
  lemma ZeroUnit(data: seq<byte>, pos: nat)
    requires pos + 2 <= |data|
    ensures UnitAt(data, pos) == 0 <==> data[pos..pos + 2] == [0, 0]
  {
    assert LeValue([0, 0]) == 0;
    LeBytesOfValue(data[pos..pos + 2]);
  }

  /** A unit's two bytes are its encoding. */
  lemma UnitBytes(data: seq<byte>, pos: nat)
    requires pos + 2 <= |data|
    ensures data[pos..pos + 2] == Enc(UnitAt(data, pos), 2)
  {
    assert Pow256(2) == 0x10000;
    ModOfSmall(UnitAt(data, pos), 0x10000);
    LeBytesOfValue(data[pos..pos + 2]);
  }

  /** A text field without zero units is read back whole, and the cursor lands just after its terminator. */
  lemma {:induction false} TakeSAt(data: seq<byte>, pos: nat, s: JString)
    requires NoZeroUnit(s)
    requires pos + |EncS(s)| <= |data| && data[pos..pos + |EncS(s)|] == EncS(s)
    ensures TakeS(data, pos) == Success(Read(s, pos + |EncS(s)|))
    decreases |s|
  {
    if s == [] {
      ZeroUnit(data, pos);
    } else {
      var tail := s[1..];
      assert [s[0]] + tail == s;
      EncSCons(s[0], tail);
      SlicesOfConcat(data, pos, Enc(s[0], 2), EncS(tail));
      UnsignedRoundTrip(s[0], 2);
      TakeSAt(data, pos + 2, tail);
    }
  }

  /** Whatever readS returns is exactly what its bytes encode, and it holds no zero unit. */
  lemma {:induction false} TakeSEncodes(data: seq<byte>, pos: nat)
    requires TakeS(data, pos).Success?
    ensures var r := TakeS(data, pos).value;
      NoZeroUnit(r.value) && r.next == pos + |EncS(r.value)| <= |data| &&
      data[pos..r.next] == EncS(r.value)
    decreases |data| - pos
  {
    var r := TakeS(data, pos).value;
    ZeroUnit(data, pos);
    if UnitAt(data, pos) != 0 {
      var u := UnitAt(data, pos);
      TakeSEncodes(data, pos + 2);
      var rest := TakeS(data, pos + 2).value;
      assert r.value == [u] + rest.value && r.next == rest.next;
      EncSCons(u, rest.value);
      UnitBytes(data, pos);
      SplitSlice(data, pos, pos + 2, r.next);
    }
  }

  lemma TakeStringsCons(data: seq<byte>, pos: nat, n: nat, s: JString, mid: nat, tail: seq<JString>, end: nat)
    requires n >= 1 && |tail| == n - 1
    requires TakeS(data, pos) == Success(Read(s, mid))
    requires TakeStrings(data, mid, n - 1) == Success(Read(tail, end))
    ensures TakeStrings(data, pos, n) == Success(Read([s] + tail, end))
  {
  }

  lemma TakeSEndsAt(data: seq<byte>, pos: nat, s: JString, end: nat)
    requires NoZeroUnit(s) && end == pos + |EncS(s)| <= |data| && data[pos..end] == EncS(s)
    ensures TakeS(data, pos) == Success(Read(s, end))
  {
    TakeSAt(data, pos, s);
  }

  /** A string written at pos followed by the strings after it reads as the whole list. */
  lemma TakeStringsStep(data: seq<byte>, pos: nat, ss: seq<JString>, s: JString, tail: seq<JString>, mid: nat, end: nat)
    requires ss == [s] + tail && NoZeroUnit(s)
    requires mid == pos + |EncS(s)| <= |data| && data[pos..mid] == EncS(s)
    requires TakeStrings(data, mid, |tail|) == Success(Read(tail, end))
    ensures TakeStrings(data, pos, |ss|) == Success(Read(ss, end))
  {
    TakeSEndsAt(data, pos, s, mid);
    assert |tail| == |ss| - 1;
    TakeStringsCons(data, pos, |ss|, s, mid, tail, end);
  }

  lemma {:induction false} TakeStringsAt(data: seq<byte>, pos: nat, ss: seq<JString>)
    requires forall i | 0 <= i < |ss| :: NoZeroUnit(ss[i])
    requires pos + |EncStrings(ss)| <= |data| && data[pos..pos + |EncStrings(ss)|] == EncStrings(ss)
    ensures TakeStrings(data, pos, |ss|) == Success(Read(ss, pos + |EncStrings(ss)|))
    decreases |ss|
  {
    if ss != [] {
      var s, tail := ss[0], ss[1..];
      assert ss == [s] + tail;
      var first, rest := EncS(s), EncStrings(tail);
      var mid, end := pos + |first|, pos + |first| + |rest|;
      SlicesAt(data, pos, first, rest, EncStrings(ss), mid, end);
      TakeStringsAt(data, mid, tail);
      TakeStringsStep(data, pos, ss, s, tail, mid, end);
    }
  }

  // ----- The cursor -----

  /** Whether a read returned what the value-level read says and moved the cursor to match. */
  predicate Moved<T(==)>(r: Result<T, Error>, expected: Result<Read<T>, Error>, pos: nat) {
    match expected
    case Success(rd) => r == Success(rd.value) && pos == rd.next
    case Failure(e) => r == Failure(e)
  }

  /** A buffer being read: the bytes of one packet body and the read position. */
  class Reader {
    const data: seq<byte>
    var pos: nat

    constructor (data: seq<byte>)
      ensures this.data == data && pos == 0
    {
      this.data := data;
      pos := 0;
    }

    method ReadB(n: nat) returns (r: Result<seq<byte>, Error>)
      modifies this
      ensures Moved(r, TakeBytes(data, old(pos), n), pos)
    {
      if |data| - pos < n {
        return Failure(BufferUnderflow);
      }
      r := Success(data[pos..pos + n]);
      pos := pos + n;
    }

    method ReadUnsigned(w: nat) returns (r: Result<int, Error>)
      modifies this
      ensures Moved(r, TakeUnsigned(data, old(pos), w), pos)
    {
      var bs :- ReadB(w);
      r := Success(LeValue(bs));
    }

    method ReadSigned(w: nat) returns (r: Result<int, Error>)
      requires w >= 1
      modifies this
      ensures Moved(r, TakeSigned(data, old(pos), w), pos)
    {
      var u :- ReadUnsigned(w);
      r := Success(ToSigned(u, w));
    }

    method ReadC() returns (r: Result<int, Error>)
      modifies this
      ensures Moved(r, TakeC(data, old(pos)), pos)
    {
      r := ReadUnsigned(READ_C);
    }

    method ReadH() returns (r: Result<int, Error>)
      modifies this
      ensures Moved(r, TakeH(data, old(pos)), pos)
    {
      r := ReadUnsigned(READ_H);
    }

    method ReadD() returns (r: Result<int, Error>)
      modifies this
      ensures Moved(r, TakeD(data, old(pos)), pos)
    {
      r := ReadSigned(READ_D);
    }

    method ReadQ() returns (r: Result<int, Error>)
      modifies this
      ensures Moved(r, TakeQ(data, old(pos)), pos)
    {
      r := ReadSigned(READ_Q);
    }

    /** readS: reads code units until the zero unit. */
    method ReadS() returns (r: Result<JString, Error>)
      modifies this
      ensures Moved(r, TakeS(data, old(pos)), pos)
    {
      var units: JString := [];
      PrefixedNothing(TakeS(data, pos));
      while true
        invariant TakeS(data, old(pos)) == Prefixed(units, TakeS(data, pos))
        decreases |data| - pos
      {
        if |data| - pos < 2 {
          return Failure(BufferUnderflow);
        }
        var u := UnitAt(data, pos);
        TakeSStep(data, pos, units);
        pos := pos + 2;
        if u == 0 {
          return Success(units);
        }
        units := units + [u];
      }
    }
  }

  /** A read result with units in front of the text it found. */
  function Prefixed(units: JString, r: Result<Read<JString>, Error>): Result<Read<JString>, Error> {
    match r
    case Success(rd) => Success(Read(units + rd.value, rd.next))
    case Failure(e) => Failure(e)
  }

  lemma PrefixedNothing(r: Result<Read<JString>, Error>)
    ensures Prefixed([], r) == r
  {
    if r.Success? {
      assert [] + r.value.value == r.value.value;
    }
  }

  /** One unit of readS's loop. */
  lemma TakeSStep(data: seq<byte>, pos: nat, units: JString)
    requires pos + 2 <= |data|
    ensures Prefixed(units, TakeS(data, pos)) ==
      if UnitAt(data, pos) == 0 then Success(Read(units, pos + 2))
      else Prefixed(units + [UnitAt(data, pos)], TakeS(data, pos + 2))
  {
    var u := UnitAt(data, pos);
    if u == 0 {
      assert units + [] == units;
    } else if TakeS(data, pos + 2).Success? {
      var rd := TakeS(data, pos + 2).value;
      assert units + ([u] + rd.value) == (units + [u]) + rd.value;
    }
  }

  /** A buffer being written: the bytes so far. */
  class Writer {
    var bytes: seq<byte>

    constructor ()
      ensures bytes == []
    {
      bytes := [];
    }

    method WriteC(v: int)
      modifies this
      ensures bytes == old(bytes) + Enc(v, READ_C)
    {
      bytes := bytes + Enc(v, READ_C);
    }

    method WriteH(v: int)
      modifies this
      ensures bytes == old(bytes) + Enc(v, READ_H)
    {
      bytes := bytes + Enc(v, READ_H);
    }

    method WriteD(v: int)
      modifies this
      ensures bytes == old(bytes) + Enc(v, READ_D)
    {
      bytes := bytes + Enc(v, READ_D);
    }

    method WriteQ(v: int)
      modifies this
      ensures bytes == old(bytes) + Enc(v, READ_Q)
    {
      bytes := bytes + Enc(v, READ_Q);
    }
  }

  // ----- Proof helpers: sequence bookkeeping with no counterpart in the source -----

  lemma SplitSlice(data: seq<byte>, a: nat, b: nat, c: nat)
    requires a <= b <= c <= |data|
    ensures data[a..c] == data[a..b] + data[b..c]
  {
  }

  /** The two parts of a field written at pos lie one after the other. */
  lemma SlicesAt(data: seq<byte>, pos: nat, x: seq<byte>, y: seq<byte>, xy: seq<byte>, mid: nat, end: nat)
    requires xy == x + y && mid == pos + |x| && end == mid + |y|
    requires end <= |data| && data[pos..end] == xy
    ensures data[pos..mid] == x && data[mid..end] == y && end == pos + |xy|
  {
    assert data[pos..mid] == xy[..|x|];
    assert data[mid..end] == xy[|x|..];
  }
}
