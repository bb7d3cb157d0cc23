/**
 * HexUtil.printData: the hex dump. PrintData follows the source's StringBuilder loop and is
 * proved against Dump, which is defined byte by byte as the loop appends; the layout a reader
 * sees (offset, 16 octets, padding, the ASCII column, one line per 16 bytes) is the line-wise
 * definition DumpIntended, and DumpLayout connects the two.
 */
module HexDump {
  import opened Primitives
  import opened Hex

  /** The signed value Java sees when it widens a byte to int. */
  function Signed8(b: byte): int { if b < 0x80 then b else b - 0x100 }

  /** The ASCII column's character for a byte, as printData chooses it from the signed value. */
  function AsciiChar(b: byte): char {
    var t1 := Signed8(b);
    if t1 > 0x1f && t1 < 0x80 then t1 as char else '.'
  }

  /** Bytes 0x20..0x7F show as themselves, every other byte (0x80..0xFF included) as '.'. */
  lemma AsciiCharMeaning(b: byte)
    ensures 0x20 <= b <= 0x7f ==> AsciiChar(b) == b as char
    ensures !(0x20 <= b <= 0x7f) ==> AsciiChar(b) == '.'
  {
  }

  function AsciiColumn(data: seq<byte>, lo: int, hi: int): seq<char>
    requires 0 <= lo <= hi <= |data|
    decreases hi
  {
    if lo == hi then [] else AsciiColumn(data, lo, hi - 1) + [AsciiChar(data[hi - 1])]
  }

  /** A byte's octet: two lower-case hex digits and a space. */
  function HexCell(b: byte): seq<char> { Padded(b, 2) + " " }

  function HexCells(data: seq<byte>, lo: int, hi: int): seq<char>
    requires 0 <= lo <= hi <= |data|
    decreases hi
  {
    if lo == hi then [] else HexCells(data, lo, hi - 1) + HexCell(data[hi - 1])
  }

  /** `groups` times three spaces. */
  function Blanks(groups: int): seq<char> { seq(if groups < 0 then 0 else 3 * groups, _ => ' ') }

  /** A line's offset column: the hex offset (at least four digits) and ": ". */
  function Offset(k: nat): seq<char> { Padded(k, 4) + ": " }

  // ---------------------------------------------------------------------------
  // The layout: one line per group of (at most) 16 bytes
  // ---------------------------------------------------------------------------

  /**
   * The line showing `count` bytes from `start`: the offset, their octets, padding up to the
   * ASCII column (three spaces for each missing octet, plus three), their characters, eol.
   */
  function Line(data: seq<byte>, start: nat, count: nat, eol: seq<char>): seq<char>
    requires 1 <= count <= 16 && start + count <= |data|
  {
    Offset(start) + HexCells(data, start, start + count) + Blanks(17 - count)
    + AsciiColumn(data, start, start + count) + eol
  }

  /** The first m full lines. */
  function Lines(data: seq<byte>, m: nat, eol: seq<char>): seq<char>
    requires 16 * m <= |data|
  {
    if m == 0 then [] else Lines(data, m - 1, eol) + Line(data, 16 * (m - 1), 16, eol)
  }

  /** The intended dump of the first len bytes: eol, the full lines, then the partial one. */
  function DumpIntended(data: seq<byte>, len: int, eol: seq<char>): seq<char>
    requires len <= |data|
  {
    var n := if len < 0 then 0 else len;
    eol + Lines(data, n / 16, eol) + (if n % 16 == 0 then [] else Line(data, 16 * (n / 16), n % 16, eol))
  }

  // ---------------------------------------------------------------------------
  // What the loop appends
  // ---------------------------------------------------------------------------

  /**
   * What printData's first loop appends for byte k when its counter (k's position in its
   * line) is `counter`: the offset when the counter is 0, the octet, and three spaces, the
   * line's 16 characters and eol when the counter reaches 16.
   */
  function Step(data: seq<byte>, k: nat, counter: nat, eol: seq<char>): seq<char>
    requires k < |data| && counter < 16 && counter <= k
  {
    (if counter == 0 then Offset(k) else [])
    + HexCell(data[k])
    + (if counter == 15 then "   " + AsciiColumn(data, k - 15, k + 1) + eol else [])
  }

  /** The offset of the line starting at `start` followed by its first j octets. */
  function Partial(data: seq<byte>, start: nat, j: nat): seq<char>
    requires start + j <= |data|
  {
    Offset(start) + HexCells(data, start, start + j)
  }

  /** The octets so far of the line starting at `start`, after the first j of its bytes. */
  function Pending(data: seq<byte>, start: nat, j: nat): seq<char>
    requires start + j <= |data|
  {
    if j == 0 then [] else Partial(data, start, j)
  }

  /** The first loop's output after m full lines and j bytes of the next. */
  function Written(data: seq<byte>, m: nat, j: nat, eol: seq<char>): seq<char>
    requires j < 16 && 16 * m + j <= |data|
  {
    Lines(data, m, eol) + Pending(data, 16 * m, j)
  }

  /** What printData's first loop has appended after its first n bytes. */
  function Rows(data: seq<byte>, n: nat, eol: seq<char>): seq<char>
    requires n <= |data|
  {
    Written(data, n / 16, n % 16, eol)
  }

  /**
   * The closing partial line as printData computes it from `total` bytes: padding, the last
   * total % 16 characters and eol. The source passes the whole array's length.
   */
  function Tail(data: seq<byte>, total: nat, eol: seq<char>): seq<char>
    requires total <= |data|
  {
    var rest := total % 16;
    if rest > 0 then Blanks(17 - rest) + AsciiColumn(data, total - rest, total) + eol else []
  }

  /** printData(data, len) as written: the closing line is taken from data.length. */
  function Dump(data: seq<byte>, len: int, eol: seq<char>): seq<char>
    requires len <= |data|
  {
    eol + Rows(data, if len < 0 then 0 else len, eol) + Tail(data, |data|, eol)
  }

  // ---------------------------------------------------------------------------
  // Step by step, the loop writes lines
  // ---------------------------------------------------------------------------

  lemma Sixteenths(m: nat, j: int)
    requires 0 <= j < 16
    ensures (16 * m + j) % 16 == j && (16 * m + j) / 16 == m
  {
  }

  /** The counter printData keeps is the byte's position in its line. */
  lemma CounterStep(i: nat)
    ensures (i + 1) % 16 == if i % 16 == 15 then 0 else i % 16 + 1
  {
    Sixteenths(i / 16, i % 16);
    if i % 16 == 15 {
      Sixteenths(i / 16 + 1, 0);
    } else {
      Sixteenths(i / 16, i % 16 + 1);
    }
  }

  lemma PartialNext(data: seq<byte>, start: nat, j: nat)
    requires start + j < |data|
    ensures Partial(data, start, j + 1) == Partial(data, start, j) + HexCell(data[start + j])
  {
    Assoc(Offset(start), HexCells(data, start, start + j), HexCell(data[start + j]));
  }

  /** A byte that starts a line appends the offset and its octet. */
  lemma StepOpensLine(data: seq<byte>, start: nat, j: nat, eol: seq<char>)
    requires j == 0 && start < |data|
    ensures Pending(data, start, j + 1) == Pending(data, start, j) + Step(data, start + j, j, eol)
  {
    assert Step(data, start, 0, eol) == Offset(start) + HexCell(data[start]) + [];
    assert HexCells(data, start, start + 1) == [] + HexCell(data[start]);
    assert Pending(data, start, 0) == [];
  }

  /** A byte strictly inside a line appends its octet. */
  lemma StepExtendsLine(data: seq<byte>, start: nat, j: nat, eol: seq<char>)
    requires 1 <= j < 15 && start + j < |data|
    ensures Pending(data, start, j + 1) == Pending(data, start, j) + Step(data, start + j, j, eol)
  {
    StepInside(data, start + j, j, eol);
    PartialNext(data, start, j);
    PendingStarted(data, start, j);
    PendingStarted(data, start, j + 1);
    Extend(Pending(data, start, j + 1), Pending(data, start, j), Step(data, start + j, j, eol),
           Partial(data, start, j + 1), Partial(data, start, j), HexCell(data[start + j]));
  }

  /** Once a line has started, its pending text is the offset and the octets so far. */
  lemma PendingStarted(data: seq<byte>, start: nat, j: nat)
    requires 1 <= j && start + j <= |data|
    ensures Pending(data, start, j) == Partial(data, start, j)
  {
  }

  /** Inside a line the loop appends the octet alone. */
  lemma StepInside(data: seq<byte>, k: nat, j: nat, eol: seq<char>)
    requires 1 <= j < 15 && j <= k < |data|
    ensures Step(data, k, j, eol) == HexCell(data[k])
  {
    assert Step(data, k, j, eol) == [] + HexCell(data[k]) + [];
  }

  /** The byte that ends a line appends its octet, the ASCII column and eol: the line is done. */
  lemma StepClosesLine(data: seq<byte>, start: nat, eol: seq<char>)
    requires start + 16 <= |data|
    ensures Line(data, start, 16, eol) == Pending(data, start, 15) + Step(data, start + 15, 15, eol)
  {
    var cell, column := HexCell(data[start + 15]), AsciiColumn(data, start, start + 16);
    assert Step(data, start + 15, 15, eol) == [] + cell + ("   " + column + eol);
    PartialNext(data, start, 15);
    assert Blanks(1) == "   ";
    Close(Partial(data, start, 15), cell, "   ", column, eol);
  }

  lemma WrittenParts(data: seq<byte>, m: nat, j: nat, eol: seq<char>)
    requires j < 16 && 16 * m + j <= |data|
    ensures Written(data, m, j, eol) == Lines(data, m, eol) + Pending(data, 16 * m, j)
  {
  }

  lemma WrittenWhole(data: seq<byte>, m: nat, eol: seq<char>)
    requires 16 * m <= |data|
    ensures Written(data, m, 0, eol) == Lines(data, m, eol)
  {
    assert Written(data, m, 0, eol) == Lines(data, m, eol) + [];
  }

  lemma LinesNext(data: seq<byte>, m: nat, eol: seq<char>)
    requires 16 * m + 16 <= |data|
    ensures Lines(data, m + 1, eol) == Lines(data, m, eol) + Line(data, 16 * m, 16, eol)
  {
  }

  /** The line ending at byte 16m + 15 is the pending text and that byte's step. */
  lemma LineDone(data: seq<byte>, m: nat, eol: seq<char>)
    requires 16 * m + 15 < |data|
    ensures Lines(data, m + 1, eol) == Lines(data, m, eol) + (Pending(data, 16 * m, 15) + Step(data, 16 * m + 15, 15, eol))
  {
    StepClosesLine(data, 16 * m, eol);
    LinesNext(data, m, eol);
  }

  /** The loop's invariant, advanced by byte k = 16m + j, which does not end its line. */
  lemma WrittenExtends(data: seq<byte>, m: nat, j: nat, k: nat, eol: seq<char>, s0: seq<char>, s: seq<char>)
    requires j < 15 && k == 16 * m + j && k < |data|
    requires s0 == eol + Written(data, m, j, eol)
    requires s == s0 + Step(data, k, j, eol)
    ensures s == eol + Written(data, m, j + 1, eol)
  {
    if j == 0 {
      StepOpensLine(data, 16 * m, j, eol);
    } else {
      StepExtendsLine(data, 16 * m, j, eol);
    }
    WrittenParts(data, m, j, eol);
    WrittenParts(data, m, j + 1, eol);
    Advance(s, s0, eol, Lines(data, m, eol), Pending(data, 16 * m, j), Pending(data, 16 * m, j + 1),
            Step(data, k, j, eol), Written(data, m, j, eol), Written(data, m, j + 1, eol));
  }

  /** The loop's invariant, advanced by byte k = 16m + 15, which ends its line. */
  lemma WrittenCloses(data: seq<byte>, m: nat, j: nat, k: nat, eol: seq<char>, s0: seq<char>, s: seq<char>)
    requires j == 15 && k == 16 * m + j && k < |data|
    requires s0 == eol + Written(data, m, j, eol)
    requires s == s0 + Step(data, k, j, eol)
    ensures s == eol + Written(data, m + 1, 0, eol)
  {
    LineDone(data, m, eol);
    WrittenParts(data, m, 15, eol);
    WrittenWhole(data, m + 1, eol);
    Complete(s, s0, eol, Lines(data, m, eol), Pending(data, 16 * m, 15), Step(data, k, j, eol),
             Written(data, m, j, eol), Written(data, m + 1, 0, eol));
  }

  /** The rows of n = 16m + j bytes are m lines and j bytes of the next. */
  lemma RowsAt(data: seq<byte>, n: nat, m: nat, j: nat, eol: seq<char>)
    requires j < 16 && n == 16 * m + j && n <= |data|
    ensures Rows(data, n, eol) == Written(data, m, j, eol)
  {
    Sixteenths(m, j);
    assert n / 16 == m && n % 16 == j;
  }

  // ---------------------------------------------------------------------------
  // The methods
  // ---------------------------------------------------------------------------

  /** The loop printData runs twice: the ASCII column for count bytes from charpoint. */
  method AsciiRun(data: seq<byte>, charpoint: nat, count: nat) returns (column: seq<char>)
    requires charpoint + count <= |data|
    ensures column == AsciiColumn(data, charpoint, charpoint + count)
  {
    column := [];
    var a := 0;
    while a < count
      invariant 0 <= a <= count
      invariant column == AsciiColumn(data, charpoint, charpoint + a)
    {
      var t1 := Signed8(data[charpoint + a]);
      if t1 > 0x1f && t1 < 0x80 {
        column := column + [t1 as char];
      } else {
        column := column + ['.'];
      }
      a := a + 1;
    }
  }

  /**
   * The body of printData's first loop for byte i: the offset when the counter is 0, the
   * octet, and the ASCII column when the counter reaches 16, which sends it back to 0.
   */
  method AppendByte(data: seq<byte>, i: nat, counter: nat, eol: seq<char>, s0: seq<char>)
    returns (s: seq<char>, next: nat)
    requires i < |data| < 0x8000_0000 && counter < 16 && counter <= i
    ensures s == s0 + Step(data, i, counter, eol)
    ensures next == if counter == 15 then 0 else counter + 1
  {
    s := s0;
    ghost var head: seq<char> := [];
    if counter % 16 == 0 {
      var offset := FillHex(i, 4);
      s := s + offset + ": ";
      head := offset + ": ";
      Assoc(s0, offset, ": ");
    }
    assert s == s0 + head;
    var cell := FillHex(data[i], 2);
    s := s + cell + " ";
    Assoc(s0 + head, cell, " ");
    Assoc(s0, head, cell + " ");
    ghost var written := s;
    ghost var end: seq<char> := [];
    next := counter + 1;
    if next == 16 {
      s := s + "   ";
      var column := AsciiRun(data, i - 15, 16);
      s := s + column;
      s := s + eol;
      next := 0;
      end := "   " + column + eol;
      Assoc(written, "   ", column);
      Assoc(written, "   " + column, eol);
    }
    assert s == written + end;
    Assoc(s0, head + HexCell(data[i]), end);
  }

  /**
   * The end of printData: when total is not a multiple of 16, padding to the ASCII column,
   * the last total % 16 characters and a line separator.
   */
  method ClosingLine(data: seq<byte>, total: nat, eol: seq<char>) returns (s: seq<char>)
    requires total <= |data|
    ensures s == Tail(data, total, eol)
  {
    s := [];
    var rest := total % 16;
    if rest > 0 {
      var k := 0;
      while k < 17 - rest
        invariant 0 <= k <= 17 - rest
        invariant s == Blanks(k)
      {
        s := s + "   ";
        k := k + 1;
      }
      var column := AsciiRun(data, total - rest, rest);
      s := s + column + eol;
    }
  }

  /** The first loop of printData: the rows of the first len bytes, after eol. */
  method WriteRows(data: seq<byte>, len: int, eol: seq<char>) returns (s: seq<char>)
    requires len <= |data| < 0x8000_0000
    ensures s == eol + Rows(data, if len < 0 then 0 else len, eol)
  {
    s := eol;
    var counter := 0;
    var i := 0;
    ghost var m := 0;
    WrittenWhole(data, 0, eol);
    while i < len
      invariant 0 <= i && (i <= len || i == 0)
      invariant counter < 16 && i == 16 * m + counter
      invariant s == eol + Written(data, m, counter, eol)
    {
      ghost var s0, j := s, counter;
      s, counter := AppendByte(data, i, counter, eol, s);
      if j == 15 {
        WrittenCloses(data, m, j, i, eol, s0, s);
        m := m + 1;
      } else {
        WrittenExtends(data, m, j, i, eol, s0, s);
      }
      i := i + 1;
    }
    RowsAt(data, i, m, counter, eol);
    assert i == if len < 0 then 0 else len;
  }

  /** The exception printData throws when len runs past the end of the array. */
  datatype DumpError = ArrayIndexOutOfBounds

  /**
   * HexUtil.printData(byte[], int), with the line separator as a parameter. With len beyond
   * the array, the first loop reaches data[data.length] and throws; what it had appended is lost.
   */
  method PrintData(data: seq<byte>, len: int, eol: seq<char>) returns (r: Result<seq<char>, DumpError>)
    requires |data| < 0x8000_0000
    ensures r.Success? <==> len <= |data|
    ensures r.Success? ==> r.value == Dump(data, len, eol)
    ensures r.Failure? ==> r.error == ArrayIndexOutOfBounds
  {
    if len > |data| {
      return Failure(ArrayIndexOutOfBounds);
    }
    var s := WriteRows(data, len, eol);
    var tail := ClosingLine(data, |data|, eol);
    return Success(s + tail);
  }

  /** printData(data, len) with the closing line taken from len, as its documentation says. */
  method PrintDataCorrected(data: seq<byte>, len: int, eol: seq<char>) returns (r: Result<seq<char>, DumpError>)
    requires |data| < 0x8000_0000
    ensures r.Success? <==> len <= |data|
    ensures r.Success? ==> r.value == DumpIntended(data, len, eol)
    ensures r.Failure? ==> r.error == ArrayIndexOutOfBounds
  {
    if len > |data| {
      return Failure(ArrayIndexOutOfBounds);
    }
    var s := WriteRows(data, len, eol);
    var n := if len < 0 then 0 else len;
    var tail := ClosingLine(data, n, eol);
    DumpLayout(data, n, eol);
    return Success(s + tail);
  }

  /** HexUtil.printData(byte[]): the dump of the whole array, laid out line by line. */
  method PrintAll(data: seq<byte>, eol: seq<char>) returns (s: seq<char>)
    requires |data| < 0x8000_0000
    ensures s == Dump(data, |data|, eol)
    ensures s == DumpIntended(data, |data|, eol)
  {
    var r := PrintData(data, |data|, eol);
    s := r.value;
    DumpLayout(data, |data|, eol);
  }

  // ---------------------------------------------------------------------------
  // Layout
  // ---------------------------------------------------------------------------

  /**
   * The rows of the first n bytes followed by the closing line computed from n are exactly
   * the line-by-line dump of those n bytes.
   */
  lemma DumpLayout(data: seq<byte>, n: nat, eol: seq<char>)
    requires n <= |data|
    ensures eol + Rows(data, n, eol) + Tail(data, n, eol) == DumpIntended(data, n, eol)
  {
    var m, rest := n / 16, n % 16;
    if rest == 0 {
      assert eol + Rows(data, n, eol) + Tail(data, n, eol) == eol + Lines(data, m, eol) + [] + [];
    } else {
      assert n == 16 * m + rest;
      var cells, blanks, column := HexCells(data, 16 * m, n), Blanks(17 - rest), AsciiColumn(data, 16 * m, n);
      assert Rows(data, n, eol) == Lines(data, m, eol) + (Offset(16 * m) + cells);
      assert Tail(data, n, eol) == blanks + column + eol;
      assert DumpIntended(data, n, eol) == eol + Lines(data, m, eol) + Line(data, 16 * m, rest, eol);
      Finish(eol, Lines(data, m, eol), Offset(16 * m), cells, blanks, column);
    }
  }

  lemma {:induction false} HexCellsLength(data: seq<byte>, lo: int, hi: int)
    requires 0 <= lo <= hi <= |data|
    ensures |HexCells(data, lo, hi)| == 3 * (hi - lo)
    decreases hi
  {
    if hi > lo {
      HexCellsLength(data, lo, hi - 1);
      PaddedByte(data[hi - 1]);
    }
  }

  /**
   * Every line of a dump below 64 KiB starts with its offset in four hex digits and ": ",
   * and its ASCII column starts at column 57 whatever the number of octets on the line.
   */
  lemma LineLayout(data: seq<byte>, start: nat, count: nat, eol: seq<char>)
    requires 1 <= count <= 16 && start + count <= |data| && start < 0x10000
    ensures var line := Line(data, start, count, eol);
      |line| == 57 + count + |eol| && HexValue(line[..4]) == start && line[4..6] == ": "
      && line[57..57 + count] == AsciiColumn(data, start, start + count)
  {
    var line := Line(data, start, count, eol);
    var head := Offset(start) + HexCells(data, start, start + count) + Blanks(17 - count);
    var column := AsciiColumn(data, start, start + count);
    PaddedOffset(start);
    PaddedMeaning(start, 4);
    HexCellsLength(data, start, start + count);
    AsciiColumnLength(data, start, start + count);
    assert |head| == 57;
    assert line == head + column + eol;
    assert line[..4] == Padded(start, 4);
    assert line[57..57 + count] == column;
  }

  lemma {:induction false} AsciiColumnLength(data: seq<byte>, lo: int, hi: int)
    requires 0 <= lo <= hi <= |data|
    ensures |AsciiColumn(data, lo, hi)| == hi - lo
    decreases hi
  {
    if hi > lo {
      AsciiColumnLength(data, lo, hi - 1);
    }
  }

  // ---------------------------------------------------------------------------
  // The closing line reads from data.length, not from len (see README, Findings)
  // ---------------------------------------------------------------------------

  predicate Agree(a: seq<byte>, b: seq<byte>, n: nat) {
    n <= |a| && n <= |b| && forall k | 0 <= k < n :: a[k] == b[k]
  }

  lemma {:induction false} AsciiColumnAgree(a: seq<byte>, b: seq<byte>, lo: int, hi: int)
    requires 0 <= lo <= hi && Agree(a, b, hi)
    ensures AsciiColumn(a, lo, hi) == AsciiColumn(b, lo, hi)
    decreases hi
  {
    if hi > lo {
      AsciiColumnAgree(a, b, lo, hi - 1);
    }
  }

  lemma {:induction false} HexCellsAgree(a: seq<byte>, b: seq<byte>, lo: int, hi: int)
    requires 0 <= lo <= hi && Agree(a, b, hi)
    ensures HexCells(a, lo, hi) == HexCells(b, lo, hi)
    decreases hi
  {
    if hi > lo {
      HexCellsAgree(a, b, lo, hi - 1);
    }
  }

  lemma LineAgree(a: seq<byte>, b: seq<byte>, start: nat, count: nat, eol: seq<char>)
    requires 1 <= count <= 16 && Agree(a, b, start + count)
    ensures Line(a, start, count, eol) == Line(b, start, count, eol)
  {
    HexCellsAgree(a, b, start, start + count);
    AsciiColumnAgree(a, b, start, start + count);
  }

  lemma {:induction false} LinesAgree(a: seq<byte>, b: seq<byte>, m: nat, eol: seq<char>)
    requires Agree(a, b, 16 * m)
    ensures Lines(a, m, eol) == Lines(b, m, eol)
  {
    if m > 0 {
      LinesAgree(a, b, m - 1, eol);
      LineAgree(a, b, 16 * (m - 1), 16, eol);
    }
  }

  /** Corrected printData: its output depends on the first len bytes only. */
  lemma DumpIntendedReadsOnlyLen(a: seq<byte>, b: seq<byte>, len: nat, eol: seq<char>)
    requires Agree(a, b, len)
    ensures DumpIntended(a, len, eol) == DumpIntended(b, len, eol)
  {
    var m := len / 16;
    LinesAgree(a, b, m, eol);
    if len % 16 != 0 {
      LineAgree(a, b, 16 * m, len % 16, eol);
    }
  }

  /**
   * printData as written shows bytes beyond len: two arrays that agree on their first byte
   * give different dumps of length 1 (the ASCII column shows byte 16, not byte 0).
   */
  lemma DumpReadsPastLen()
    ensures var a := seq(17, _ => 0x41);
      var b := seq(16, _ => 0x41) + [0x42];
      Agree(a, b, 1) && Dump(a, 1, "\n") != Dump(b, 1, "\n")
  {
    var a: seq<byte> := seq(17, _ => 0x41);
    var b: seq<byte> := seq(16, _ => 0x41) + [0x42];
    var prefix := "\n" + Rows(a, 1, "\n") + Blanks(16);
    assert HexCells(a, 0, 1) == HexCells(b, 0, 1);
    assert Rows(a, 1, "\n") == Rows(b, 1, "\n");
    assert Dump(a, 1, "\n") == prefix + ['A'] + "\n";
    assert Dump(b, 1, "\n") == prefix + ['B'] + "\n";
    assert Dump(a, 1, "\n")[|prefix|] != Dump(b, 1, "\n")[|prefix|];
  }

  // ---------------------------------------------------------------------------
  // Proof helpers: sequence bookkeeping with no counterpart in the source
  // ---------------------------------------------------------------------------

  lemma Assoc(a: seq<char>, b: seq<char>, c: seq<char>)
    ensures a + (b + c) == (a + b) + c
  {
  }

  /** x == y + z, restated from equal parts. */
  lemma Extend(x: seq<char>, y: seq<char>, z: seq<char>, x': seq<char>, y': seq<char>, z': seq<char>)
    requires x == x' && y == y' && z == z' && x' == y' + z'
    ensures x == y + z
  {
  }

  /** The concatenation bookkeeping of StepClosesLine, over plain strings. */
  lemma Close(p15: seq<char>, cell: seq<char>, sp: seq<char>, column: seq<char>, eol: seq<char>)
    ensures (p15 + cell) + sp + column + eol == p15 + (cell + (sp + column + eol))
  {
    Assoc(p15 + cell, sp, column);
    Assoc(p15 + cell, sp + column, eol);
    Assoc(p15, cell, sp + column + eol);
  }

  /** The concatenation bookkeeping of WrittenExtends, over plain strings. */
  lemma Advance(s: seq<char>, s0: seq<char>, e: seq<char>, lines: seq<char>, p: seq<char>,
                p1: seq<char>, step: seq<char>, w: seq<char>, w1: seq<char>)
    requires s0 == e + w && w == lines + p && s == s0 + step && p1 == p + step && w1 == lines + p1
    ensures s == e + w1
  {
    Assoc(lines, p, step);
    Assoc(e, lines + p, step);
  }

  /** The concatenation bookkeeping of WrittenCloses, over plain strings. */
  lemma Complete(s: seq<char>, s0: seq<char>, e: seq<char>, lines: seq<char>, p: seq<char>,
                 step: seq<char>, w: seq<char>, w1: seq<char>)
    requires s0 == e + w && w == lines + p && s == s0 + step && w1 == lines + (p + step)
    ensures s == e + w1
  {
    Assoc(lines, p, step);
    Assoc(e, lines + p, step);
  }

  /** The concatenation bookkeeping of DumpLayout, over plain strings. */
  lemma Finish(eol: seq<char>, lines: seq<char>, offset: seq<char>, cells: seq<char>,
               blanks: seq<char>, column: seq<char>)
    ensures eol + (lines + (offset + cells)) + (blanks + column + eol)
         == eol + lines + (offset + cells + blanks + column + eol)
  {
    Assoc(eol, lines, offset + cells);
    Assoc(offset + cells, blanks, column);
    Assoc(offset + cells, blanks + column, eol);
    Assoc(eol + lines, offset + cells, blanks + column + eol);
  }
}
