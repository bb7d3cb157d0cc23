/**
 * HexUtil: byte arrays as strings of hex octets, zero-padded hex numbers, and the
 * hex-dump formatter. Every formatter appends to a string builder in a loop, so each is
 * a method proved against a specification function; the properties a caller relies on
 * (layout, round trip, what the dump shows) are lemmas about those functions.
 */
module Hex {
  import opened Primitives

  // ---------------------------------------------------------------------------
  // Digits, Integer.toHexString and Character.digit
  // ---------------------------------------------------------------------------

  /** The lower-case digit that Integer.toHexString writes for d. */
  function HexDigit(d: int): char
    requires 0 <= d < 16
  {
    if d < 10 then ('0' as int + d) as char else ('a' as int + d - 10) as char
  }

  /** Character.digit(c, 16) restricted to ASCII: the digit's value, or -1. */
  function DigitValue(c: char): int {
    if '0' <= c <= '9' then c as int - '0' as int
    else if 'a' <= c <= 'f' then c as int - 'a' as int + 10
    else if 'A' <= c <= 'F' then c as int - 'A' as int + 10
    else -1
  }

  predicate IsLowerHex(c: char) { '0' <= c <= '9' || 'a' <= c <= 'f' }

  predicate IsUpperHex(c: char) { '0' <= c <= '9' || 'A' <= c <= 'F' }

  /** Integer.toHexString of a non-negative value: lower case, no leading zeros. */
  function ToHex(n: nat): seq<char>
    decreases n
  {
    if n < 16 then [HexDigit(n)] else ToHex(n / 16) + [HexDigit(n % 16)]
  }

  /** The number a string of hex digits (either case) denotes, most significant first. */
  function HexValue(s: seq<char>): int
    decreases |s|
  {
    if s == [] then 0 else HexValue(s[..|s| - 1]) * 16 + DigitValue(s[|s| - 1])
  }

  function Pow16(k: nat): nat { if k == 0 then 1 else 16 * Pow16(k - 1) }

  /** The unsigned value Integer.toHexString prints for a Java int. */
  function Unsigned32(x: int32): nat { if x < 0 then x + 0x1_0000_0000 else x }

  lemma HexValueAppend(s: seq<char>, c: char)
    ensures HexValue(s + [c]) == HexValue(s) * 16 + DigitValue(c)
  {
    assert (s + [c])[..|s|] == s;
  }

  /** toHexString writes only lower-case digits, at least one, never a leading zero, and denotes n. */
  lemma {:induction false} ToHexDenotes(n: nat)
    ensures |ToHex(n)| >= 1
    ensures forall i | 0 <= i < |ToHex(n)| :: IsLowerHex(ToHex(n)[i])
    ensures HexValue(ToHex(n)) == n
    ensures n >= 16 ==> ToHex(n)[0] != '0'
  {
    if n < 16 {
      assert HexValue(ToHex(n)) == HexValue([]) * 16 + DigitValue(HexDigit(n));
    } else {
      ToHexDenotes(n / 16);
      HexValueAppend(ToHex(n / 16), HexDigit(n % 16));
    }
  }

  /** A value below 16^k needs at most k digits. */
  lemma {:induction false} ToHexLength(n: nat, k: nat)
    requires 1 <= k && n < Pow16(k)
    ensures |ToHex(n)| <= k
  {
    if n >= 16 {
      assert Pow16(1) == 16;
      ToHexLength(n / 16, k - 1);
    }
  }

  // ---------------------------------------------------------------------------
  // fillHex
  // ---------------------------------------------------------------------------

  function Zeros(k: int): seq<char> { seq(if k < 0 then 0 else k, _ => '0') }

  /** Specification of fillHex: leading zeros up to `digits`, then the hex of n. */
  function Padded(n: nat, digits: int): seq<char> {
    Zeros(digits - |ToHex(n)|) + ToHex(n)
  }

  lemma {:induction false} HexValueLeadingZeros(k: int, t: seq<char>)
    ensures HexValue(Zeros(k) + t) == HexValue(t)
    decreases |t|
  {
    if t == [] {
      assert Zeros(k) + t == Zeros(k);
      LeadingZerosValue(k);
    } else {
      var last := t[|t| - 1];
      var init := t[..|t| - 1];
      assert Zeros(k) + t == (Zeros(k) + init) + [last];
      HexValueAppend(Zeros(k) + init, last);
      HexValueAppend(init, last);
      assert init + [last] == t;
      HexValueLeadingZeros(k, init);
    }
  }

  lemma {:induction false} LeadingZerosValue(k: int)
    ensures HexValue(Zeros(k)) == 0
    decreases if k < 0 then 0 else k
  {
    if k > 0 {
      assert Zeros(k) == Zeros(k - 1) + ['0'];
      HexValueAppend(Zeros(k - 1), '0');
      LeadingZerosValue(k - 1);
    }
  }

  /**
   * fillHex(n, digits) has max(|hex|, digits) characters, all lower-case hex digits,
   * the hex of n at its end, zeros before it, and denotes n.
   */
  lemma PaddedMeaning(n: nat, digits: int)
    ensures var h := ToHex(n);
      && |Padded(n, digits)| == Max(|h|, digits)
      && Padded(n, digits)[|Padded(n, digits)| - |h|..] == h
      && (forall i | 0 <= i < |Padded(n, digits)| - |h| :: Padded(n, digits)[i] == '0')
      && (forall i | 0 <= i < |Padded(n, digits)| :: IsLowerHex(Padded(n, digits)[i]))
      && HexValue(Padded(n, digits)) == n
  {
    ToHexDenotes(n);
    HexValueLeadingZeros(digits - |ToHex(n)|, ToHex(n));
    var p := Padded(n, digits);
    forall i | 0 <= i < |p| ensures IsLowerHex(p[i]) {
      if i >= |p| - |ToHex(n)| {
        assert p[i] == ToHex(n)[i - (|p| - |ToHex(n)|)];
      }
    }
  }

  /** fillHex of a byte with two digits is exactly two characters. */
  lemma PaddedByte(b: byte)
    ensures |Padded(b, 2)| == 2
  {
    assert Pow16(2) == 256;
    ToHexLength(b, 2);
  }

  /** fillHex of an offset below 0x10000 with four digits is exactly four characters. */
  lemma PaddedOffset(n: nat)
    requires n < 0x10000
    ensures |Padded(n, 4)| == 4
  {
    assert Pow16(4) == 0x10000;
    ToHexLength(n, 4);
  }

  /** HexUtil.fillHex: pads Integer.toHexString(data) with leading zeros to `digits` characters. */
  method FillHex(data: int32, digits: int32) returns (s: seq<char>)
    ensures s == Padded(Unsigned32(data), digits)
  {
    var hex := ToHex(Unsigned32(data));
    var number: seq<char> := [];
    var i := |hex|;
    while i < digits as int
      invariant |hex| <= i
      invariant i <= Max(|hex|, digits)
      invariant number == Zeros(i - |hex|)
    {
      number := number + ['0'];
      i := i + 1;
    }
    s := number + hex;
  }

  // ---------------------------------------------------------------------------
  // bytesToHexString
  // ---------------------------------------------------------------------------

  /** String.toUpperCase on ASCII letters; every other character is kept. */
  function ToUpper(c: char): char {
    if 'a' <= c <= 'z' then (c as int - 32) as char else c
  }

  function UpperCase(s: seq<char>): (r: seq<char>)
    ensures |r| == |s|
  {
    seq(|s|, i requires 0 <= i < |s| => ToUpper(s[i]))
  }

  /** The delimiter as appended: a null delimiter appends nothing. */
  function DelimiterText(delimiter: Option<seq<char>>): seq<char> {
    if delimiter.Some? then delimiter.value else []
  }

  /** The builder's contents after the first |bs| bytes: two-digit octets with d between them. */
  function Joined(bs: seq<byte>, d: seq<char>): seq<char>
    requires |bs| >= 1
    decreases |bs|
  {
    if |bs| == 1 then Padded(bs[0], 2)
    else Joined(bs[..|bs| - 1], d) + d + Padded(bs[|bs| - 1], 2)
  }

  /** Specification of bytesToHexString: "" for a null or empty array, else the upper-cased builder. */
  function Encoded(hex: Option<seq<byte>>, delimiter: Option<seq<char>>): seq<char> {
    if hex.None? || |hex.value| == 0 then []
    else UpperCase(Joined(hex.value, DelimiterText(delimiter)))
  }

  /** HexUtil.bytesToHexString(byte[], CharSequence). */
  method BytesToHexStringWithDelimiter(hex: Option<seq<byte>>, delimiter: Option<seq<char>>)
    returns (s: seq<char>)
    ensures s == Encoded(hex, delimiter)
  {
    if hex.None? || |hex.value| == 0 {
      return [];
    }
    var bs := hex.value;
    var bytes := FillHex(bs[0], 2);
    var i := 1;
    while i < |bs|
      invariant 1 <= i <= |bs|
      invariant bytes == Joined(bs[..i], DelimiterText(delimiter))
    {
      if delimiter.Some? {
        bytes := bytes + delimiter.value;
      }
      var pair := FillHex(bs[i], 2);
      bytes := bytes + pair;
      assert bs[..i + 1][..i] == bs[..i];
      i := i + 1;
    }
    assert bs[..i] == bs;
    s := UpperCase(bytes);
  }

  /** HexUtil.bytesToHexString(byte[]): the same without a delimiter. */
  method BytesToHexString(hex: Option<seq<byte>>) returns (s: seq<char>)
    ensures s == Encoded(hex, None)
    ensures hex.Some? ==> |s| == 2 * |hex.value|
  {
    s := BytesToHexStringWithDelimiter(hex, None);
    if hex.Some? && |hex.value| > 0 {
      EncodedLayout(hex.value, []);
    }
  }

  /** Where octet i starts in a joined string with delimiter d: i * (2 + |d|). */
  function PairStart(i: nat, d: seq<char>): nat {
    if i == 0 then 0 else PairStart(i - 1, d) + 2 + |d|
  }

  lemma {:induction false} PairStartIsProduct(i: nat, d: seq<char>)
    ensures PairStart(i, d) == i * 2 + i * |d|
  {
    if i > 0 {
      PairStartIsProduct(i - 1, d);
    }
  }

  lemma {:induction false} PairStartMonotone(i: nat, k: nat, d: seq<char>)
    requires i <= k
    ensures PairStart(i, d) + (k - i) * 2 <= PairStart(k, d)
    decreases k
  {
    if i < k {
      PairStartMonotone(i, k - 1, d);
    }
  }

  lemma {:induction false} JoinedLength(bs: seq<byte>, d: seq<char>)
    requires |bs| >= 1
    ensures |Joined(bs, d)| == PairStart(|bs| - 1, d) + 2
    decreases |bs|
  {
    PaddedByte(bs[|bs| - 1]);
    if |bs| > 1 {
      JoinedLength(bs[..|bs| - 1], d);
    }
  }

  /** Octet i of the builder sits at PairStart(i) and is fillHex(b_i, 2). */
  lemma {:induction false} JoinedPair(bs: seq<byte>, d: seq<char>, i: nat)
    requires i < |bs|
    ensures PairStart(i, d) + 2 <= |Joined(bs, d)|
    ensures Joined(bs, d)[PairStart(i, d)..PairStart(i, d) + 2] == Padded(bs[i], 2)
    decreases |bs|
  {
    var n := |bs|;
    JoinedLength(bs, d);
    PairStartMonotone(i, n - 1, d);
    PaddedByte(bs[i]);
    if n > 1 {
      var init := bs[..n - 1];
      var a := Joined(init, d);
      JoinedLength(init, d);
      var last := Padded(bs[n - 1], 2);
      var lo := PairStart(i, d);
      if i < n - 1 {
        JoinedPair(init, d, i);
        assert init[i] == bs[i];
        SliceOfHead(a, d, last, lo, Padded(bs[i], 2));
      } else {
        assert |init| - 1 == i - 1 == n - 2;
        assert lo == PairStart(i - 1, d) + 2 + |d|;
        SliceOfSuffix(a + d, last);
      }
    }
  }

  /** Between octets i and i+1 the builder holds exactly the delimiter. */
  lemma {:induction false} JoinedDelimiter(bs: seq<byte>, d: seq<char>, i: nat)
    requires i + 1 < |bs|
    ensures PairStart(i + 1, d) <= |Joined(bs, d)|
    ensures Joined(bs, d)[PairStart(i, d) + 2..PairStart(i + 1, d)] == d
    decreases |bs|
  {
    var n := |bs|;
    var init := bs[..n - 1];
    var a, last := Joined(init, d), Padded(bs[n - 1], 2);
    assert Joined(bs, d) == (a + d) + last;
    JoinedLength(bs, d);
    JoinedLength(init, d);
    PairStartMonotone(i + 1, n - 1, d);
    var lo, hi := PairStart(i, d) + 2, PairStart(i + 1, d);
    assert hi == lo + |d|;
    if i + 1 < n - 1 {
      JoinedDelimiter(init, d, i);
      PairStartMonotone(i + 1, n - 2, d);
      SliceOfPrefix(a, d, lo, hi);
      SliceOfPrefix(a + d, last, lo, hi);
    } else {
      assert lo == |a|;
      SliceOfSuffix(a, d);
      SliceOfPrefix(a + d, last, lo, hi);
    }
  }

  /** An octet of the encoding: two upper-case hex digits whose value is the byte. */
  lemma UpperPair(b: byte)
    ensures |UpperCase(Padded(b, 2))| == 2
    ensures IsUpperHex(UpperCase(Padded(b, 2))[0]) && IsUpperHex(UpperCase(Padded(b, 2))[1])
    ensures 16 * DigitValue(UpperCase(Padded(b, 2))[0]) + DigitValue(UpperCase(Padded(b, 2))[1]) == b
  {
    PaddedByte(b);
    PaddedMeaning(b, 2);
    var p := Padded(b, 2);
    assert p == p[..1] + [p[1]];
    HexValueAppend(p[..1], p[1]);
    assert p[..1] == [] + [p[0]];
    HexValueAppend([], p[0]);
  }

  /**
   * bytesToHexString's layout: for n bytes, pair i sits at i*(2+|d|) as two upper-case hex
   * digits denoting byte i, and the upper-cased delimiter sits between consecutive pairs
   * (so it occurs n-1 times, only there).
   */
  lemma EncodedLayout(bs: seq<byte>, d: seq<char>)
    requires |bs| >= 1
    ensures |Encoded(Some(bs), Some(d))| == 2 * |bs| + (|bs| - 1) * |d|
    ensures forall i | 0 <= i < |bs| :: OctetShown(Encoded(Some(bs), Some(d)), PairStart(i, d), bs[i])
    ensures forall i | 1 <= i < |bs| :: DelimiterShown(Encoded(Some(bs), Some(d)), i, d)
  {
    EncodedLength(bs, d);
    EncodedOctets(bs, d);
    EncodedDelimiters(bs, d);
  }

  lemma EncodedLength(bs: seq<byte>, d: seq<char>)
    requires |bs| >= 1
    ensures |Encoded(Some(bs), Some(d))| == 2 * |bs| + (|bs| - 1) * |d|
  {
    JoinedLength(bs, d);
    PairStartIsProduct(|bs| - 1, d);
  }

  lemma EncodedOctets(bs: seq<byte>, d: seq<char>)
    requires |bs| >= 1
    ensures forall i | 0 <= i < |bs| :: OctetShown(Encoded(Some(bs), Some(d)), PairStart(i, d), bs[i])
  {
    forall i | 0 <= i < |bs|
      ensures OctetShown(Encoded(Some(bs), Some(d)), PairStart(i, d), bs[i])
    {
      EncodedPair(bs, d, i);
    }
  }

  lemma EncodedDelimiters(bs: seq<byte>, d: seq<char>)
    requires |bs| >= 1
    ensures forall i | 1 <= i < |bs| :: DelimiterShown(Encoded(Some(bs), Some(d)), i, d)
  {
    forall i | 1 <= i < |bs|
      ensures DelimiterShown(Encoded(Some(bs), Some(d)), i, d)
    {
      EncodedDelimiter(bs, d, i);
    }
  }

  /** e shows byte b at k: two upper-case hex digits denoting b. */
  predicate OctetShown(e: seq<char>, k: nat, b: byte) {
    && k + 2 <= |e|
    && IsUpperHex(e[k]) && IsUpperHex(e[k + 1])
    && 16 * DigitValue(e[k]) + DigitValue(e[k + 1]) == b
  }

  /** e holds the upper-cased delimiter d just before octet i, i.e. right after octet i-1. */
  predicate DelimiterShown(e: seq<char>, i: nat, d: seq<char>) {
    && 1 <= i
    && PairStart(i - 1, d) + 2 <= PairStart(i, d) <= |e|
    && e[PairStart(i - 1, d) + 2..PairStart(i, d)] == UpperCase(d)
  }

  lemma EncodedDelimiter(bs: seq<byte>, d: seq<char>, i: nat)
    requires 1 <= i < |bs|
    ensures DelimiterShown(Encoded(Some(bs), Some(d)), i, d)
  {
    var j := Joined(bs, d);
    var lo, hi := PairStart(i - 1, d) + 2, PairStart(i, d);
    JoinedDelimiter(bs, d, i - 1);
    assert UpperCase(j)[lo..hi] == UpperCase(j[lo..hi]);
  }

  lemma EncodedPair(bs: seq<byte>, d: seq<char>, i: nat)
    requires i < |bs|
    ensures OctetShown(Encoded(Some(bs), Some(d)), PairStart(i, d), bs[i])
  {
    var j := Joined(bs, d);
    var e := Encoded(Some(bs), Some(d));
    var k := PairStart(i, d);
    JoinedPair(bs, d, i);
    UpperPair(bs[i]);
    assert e[k..k + 2] == UpperCase(j[k..k + 2]);
    assert e[k] == UpperCase(Padded(bs[i], 2))[0];
    assert e[k + 1] == UpperCase(Padded(bs[i], 2))[1];
  }

  // ---------------------------------------------------------------------------
  // HexStringToBytes
  // ---------------------------------------------------------------------------

  /** String.replace(" ", ""). */
  function StripSpaces(s: seq<char>): (r: seq<char>)
    decreases |s|
  {
    if s == [] then [] else (if s[0] == ' ' then [] else [s[0]]) + StripSpaces(s[1..])
  }

  /** Integer.parseInt(c0 c1, 16) & 0xFF; None where parseInt throws NumberFormatException. */
  function ParseOctet(c0: char, c1: char): Option<byte> {
    if c0 == '-' || c0 == '+' then
      if DigitValue(c1) < 0 then None
      else if c0 == '-' then Some((0x100 - DigitValue(c1)) % 0x100)
      else Some(DigitValue(c1))
    else if DigitValue(c0) < 0 || DigitValue(c1) < 0 then None
    else Some(16 * DigitValue(c0) + DigitValue(c1))
  }

  /** The octet parsed from characters 2i and 2i+1. */
  function OctetAt(t: seq<char>, i: int): Option<byte>
    requires 0 <= i < |t| / 2
  {
    ParseOctet(t[2 * i], t[2 * i + 1])
  }

  /** HexStringToBytes' outcomes: null, a byte array, or a NumberFormatException. */
  datatype Decoding = Null | Decoded(bytes: seq<byte>) | NumberFormatError

  /** Specification of HexStringToBytes. */
  function Decode(hex: Option<seq<char>>): Decoding {
    if hex.None? then Null
    else
      var t := StripSpaces(hex.value);
      if |t| % 2 == 1 then Null
      else if forall i | 0 <= i < |t| / 2 :: OctetAt(t, i).Some? then
        Decoded(seq(|t| / 2, i requires 0 <= i < |t| / 2 =>
          if OctetAt(t, i).Some? then OctetAt(t, i).value else 0))
      else NumberFormatError
  }

  /** HexUtil.HexStringToBytes: strips spaces, rejects odd lengths, parses octet by octet. */
  method HexStringToBytes(hex: Option<seq<char>>) returns (r: Decoding)
    ensures r == Decode(hex)
  {
    if hex.None? {
      return Null;
    }
    var t := StripSpaces(hex.value);
    if |t| % 2 == 1 {
      return Null;
    }
    var bytes := new byte[|t| / 2];
    var i := 0;
    while i < bytes.Length
      invariant 0 <= i <= bytes.Length
      invariant forall j | 0 <= j < i :: OctetAt(t, j) == Some(bytes[j])
    {
      var v := ParseOctet(t[i * 2], t[i * 2 + 1]);
      if v.None? {
        assert OctetAt(t, i).None?;
        return NumberFormatError;
      }
      bytes[i] := v.value;
      i := i + 1;
    }
    r := Decoded(bytes[..]);
  }

  /** Characters 2i and 2i+1 are two hex digits, or a sign and a hex digit. */
  predicate PairParses(t: seq<char>, i: int)
    requires 0 <= i < |t| / 2
  {
    DigitValue(t[2 * i + 1]) >= 0 && (t[2 * i] == '-' || t[2 * i] == '+' || DigitValue(t[2 * i]) >= 0)
  }

  /**
   * With an even stripped length, HexStringToBytes throws exactly when some pair is neither two
   * hex digits nor a sign and a digit. On success byte i is the number pair i denotes, and a
   * pair "-d" gives the byte that adds to d's value to a multiple of 256.
   */
  lemma DecodedMeaning(hex: seq<char>)
    ensures var t := StripSpaces(hex);
      Decode(Some(hex)) == NumberFormatError <==>
        |t| % 2 == 0 && exists i | 0 <= i < |t| / 2 :: !PairParses(t, i)
    ensures var t := StripSpaces(hex);
      Decode(Some(hex)).Decoded? ==> |Decode(Some(hex)).bytes| == |t| / 2
    ensures var t := StripSpaces(hex);
      Decode(Some(hex)).Decoded? ==>
        forall i | 0 <= i < |t| / 2 :: var b := Decode(Some(hex)).bytes[i];
          && (t[2 * i] == '-' ==> (b + HexValue(t[2 * i + 1..2 * i + 2])) % 0x100 == 0)
          && (t[2 * i] == '+' ==> b == HexValue(t[2 * i + 1..2 * i + 2]))
          && (t[2 * i] != '-' && t[2 * i] != '+' ==> b == HexValue(t[2 * i..2 * i + 2]))
  {
    var t := StripSpaces(hex);
    forall i | 0 <= i < |t| / 2
      ensures OctetAt(t, i).Some? <==> PairParses(t, i)
    {
    }
    if Decode(Some(hex)).Decoded? {
      var bs := Decode(Some(hex)).bytes;
      forall i | 0 <= i < |t| / 2
        ensures && (t[2 * i] == '-' ==> (bs[i] + HexValue(t[2 * i + 1..2 * i + 2])) % 0x100 == 0)
                && (t[2 * i] == '+' ==> bs[i] == HexValue(t[2 * i + 1..2 * i + 2]))
                && (t[2 * i] != '-' && t[2 * i] != '+' ==> bs[i] == HexValue(t[2 * i..2 * i + 2]))
      {
        var pair := t[2 * i..2 * i + 2];
        assert pair[..1] == [t[2 * i]] && pair[1] == t[2 * i + 1];
        assert HexValue([t[2 * i]]) == DigitValue(t[2 * i]);
        assert HexValue(t[2 * i + 1..2 * i + 2]) == DigitValue(t[2 * i + 1]);
        assert OctetAt(t, i) == Some(bs[i]);
      }
    }
  }

  lemma {:induction false} StripConcat(a: seq<char>, b: seq<char>)
    ensures StripSpaces(a + b) == StripSpaces(a) + StripSpaces(b)
    decreases |a|
  {
    if a == [] {
      assert a + b == b;
    } else {
      assert (a + b)[1..] == a[1..] + b;
      StripConcat(a[1..], b);
    }
  }

  lemma {:induction false} StripNoSpaces(s: seq<char>)
    requires forall i | 0 <= i < |s| :: s[i] != ' '
    ensures StripSpaces(s) == s
    decreases |s|
  {
    if s != [] {
      StripNoSpaces(s[1..]);
    }
  }

  lemma UpperCaseConcat(a: seq<char>, b: seq<char>)
    ensures UpperCase(a + b) == UpperCase(a) + UpperCase(b)
  {
  }

  /** One step of the induction below, stated over plain strings. */
  lemma StripSpaceStep(a: seq<char>, b: seq<char>, q: seq<char>)
    requires StripSpaces(UpperCase(a)) == UpperCase(b)
    requires forall i | 0 <= i < |q| :: ToUpper(q[i]) != ' '
    ensures StripSpaces(UpperCase(a + " " + q)) == UpperCase(b + q)
  {
    var p := UpperCase(q);
    StripNoSpaces(p);
    UpperCaseConcat(a + " ", q);
    UpperCaseConcat(a, " ");
    assert UpperCase(" ") == " ";
    StripConcat(UpperCase(a) + " ", p);
    StripConcat(UpperCase(a), " ");
    assert StripSpaces(" ") == [];
    UpperCaseConcat(b, q);
    assert UpperCase(b) + [] == UpperCase(b);
  }

  lemma UpperPairNoSpace(b: byte)
    ensures forall i | 0 <= i < |Padded(b, 2)| :: ToUpper(Padded(b, 2)[i]) != ' '
  {
    UpperPair(b);
  }

  /** Removing the spaces from the space-delimited encoding leaves the undelimited one. */
  lemma {:induction false} StripSpaceDelimited(bs: seq<byte>)
    requires |bs| >= 1
    ensures StripSpaces(UpperCase(Joined(bs, " "))) == UpperCase(Joined(bs, []))
    decreases |bs|
  {
    var n := |bs|;
    var q := Padded(bs[n - 1], 2);
    UpperPairNoSpace(bs[n - 1]);
    if n == 1 {
      StripNoSpaces(UpperCase(q));
    } else {
      var init := bs[..n - 1];
      StripSpaceDelimited(init);
      StripSpaceStep(Joined(init, " "), Joined(init, []), q);
      assert Joined(init, []) + [] == Joined(init, []);
    }
  }

  /** A pair of upper-case hex digits parses to the byte it denotes. */
  lemma ParsesShownOctet(e: seq<char>, k: nat, b: byte)
    requires OctetShown(e, k, b)
    ensures ParseOctet(e[k], e[k + 1]) == Some(b)
    ensures e[k] != ' ' && e[k + 1] != ' '
  {
  }

  /** Without a delimiter, octet i occupies characters 2i and 2i+1. */
  lemma PlainOctet(bs: seq<byte>, i: nat)
    requires i < |bs|
    ensures OctetShown(Encoded(Some(bs), Some([])), 2 * i, bs[i])
  {
    EncodedPair(bs, [], i);
    PairStartIsProduct(i, []);
  }

  /** The undelimited encoding is two characters per byte, octet i at 2i. */
  lemma PlainShape(bs: seq<byte>)
    requires |bs| >= 1
    ensures |Encoded(Some(bs), Some([]))| == 2 * |bs|
    ensures forall i | 0 <= i < |bs| :: OctetShown(Encoded(Some(bs), Some([])), 2 * i, bs[i])
  {
    JoinedLength(bs, []);
    PairStartIsProduct(|bs| - 1, []);
    forall i | 0 <= i < |bs| ensures OctetShown(Encoded(Some(bs), Some([])), 2 * i, bs[i]) {
      PlainOctet(bs, i);
    }
  }

  /** A string showing octet i at 2i for every byte, and nothing else, decodes to the bytes. */
  lemma DecodeShown(e: seq<char>, bs: seq<byte>)
    requires |e| == 2 * |bs|
    requires forall i | 0 <= i < |bs| :: OctetShown(e, 2 * i, bs[i])
    ensures StripSpaces(e) == e
    ensures Decode(Some(e)) == Decoded(bs)
  {
    forall i | 0 <= i < |e| ensures e[i] != ' ' {
      ParsesShownOctet(e, 2 * (i / 2), bs[i / 2]);
    }
    StripNoSpaces(e);
    forall i | 0 <= i < |bs| ensures OctetAt(e, i) == Some(bs[i]) {
      ParsesShownOctet(e, 2 * i, bs[i]);
    }
    var decoded := seq(|e| / 2, i requires 0 <= i < |e| / 2 =>
      if OctetAt(e, i).Some? then OctetAt(e, i).value else 0);
    assert decoded == bs;
  }

  /** HexStringToBytes looks only at the string with its spaces removed. */
  lemma DecodeSeesStripped(x: seq<char>, y: seq<char>)
    requires StripSpaces(x) == StripSpaces(y)
    ensures Decode(Some(x)) == Decode(Some(y))
  {
  }

  /** Decoding an undelimited encoding recovers the bytes. */
  lemma DecodeEncodedPlain(bs: seq<byte>)
    requires |bs| >= 1
    ensures Decode(Some(UpperCase(Joined(bs, [])))) == Decoded(bs)
  {
    PlainShape(bs);
    DecodeShown(Encoded(Some(bs), Some([])), bs);
  }

  /** Decoding the space-delimited encoding recovers the bytes. */
  lemma DecodeEncodedSpaced(bs: seq<byte>)
    requires |bs| >= 1
    ensures Decode(Some(UpperCase(Joined(bs, " ")))) == Decoded(bs)
  {
    var plain := UpperCase(Joined(bs, []));
    PlainShape(bs);
    DecodeShown(plain, bs);
    StripSpaceDelimited(bs);
    DecodeSeesStripped(UpperCase(Joined(bs, " ")), plain);
  }

  /** HexStringToBytes(bytesToHexString(b)) == b, with no delimiter or with " ". */
  lemma {:induction false} RoundTrip(bs: seq<byte>)
    ensures Decode(Some(Encoded(Some(bs), None))) == Decoded(bs)
    ensures Decode(Some(Encoded(Some(bs), Some(" ")))) == Decoded(bs)
  {
    if |bs| == 0 {
      assert StripSpaces([]) == [];
      assert Decode(Some([])) == Decoded([]);
    } else {
      DecodeEncodedPlain(bs);
      DecodeEncodedSpaced(bs);
    }
  }

  // ---------------------------------------------------------------------------
  // Proof helpers: sequence bookkeeping with no counterpart in the source
  // ---------------------------------------------------------------------------

  lemma SliceOfHead(x: seq<char>, y: seq<char>, z: seq<char>, lo: nat, w: seq<char>)
    requires lo + 2 <= |x| && x[lo..lo + 2] == w
    ensures (x + y + z)[lo..lo + 2] == w
  {
    assert (x + y + z)[lo..lo + 2] == x[lo..lo + 2];
  }

  lemma SliceOfPrefix(x: seq<char>, y: seq<char>, lo: int, hi: int)
    requires 0 <= lo <= hi <= |x|
    ensures (x + y)[lo..hi] == x[lo..hi]
  {
  }

  lemma SliceOfSuffix(x: seq<char>, y: seq<char>)
    ensures (x + y)[|x|..|x| + |y|] == y
  {
  }
}
