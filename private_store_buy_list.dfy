/**
 * SendPrivateStoreBuyList: a client's purchase from a private store. The body is the seller's
 * object id and a count, then that many (item object id, quantity, unit price) records. The
 * packet reads every field and keeps none of them; running it does nothing.
 */
module PrivateStoreBuyList {
  import opened Primitives
  import opened Buffer

  const OPCODE: int := 0x83
  const MINIMUM_LENGTH: nat := READ_D + READ_D

  /** One record: D item object id, Q quantity, Q price per unit. */
  const RECORD_LENGTH: nat := READ_D + READ_Q + READ_Q

  /** Reads one record; the position after it. */
  function TakeRecord(data: seq<byte>, pos: nat): Result<nat, Error> {
    var item :- TakeD(data, pos);
    var quantity :- TakeQ(data, item.next);
    var price :- TakeQ(data, quantity.next);
    Success(price.next)
  }

  /** Reads n records; the position after them. */
  function TakeRecords(data: seq<byte>, pos: nat, n: nat): Result<nat, Error>
    decreases n
  {
    if n == 0 then Success(pos)
    else
      var next :- TakeRecord(data, pos);
      TakeRecords(data, next, n - 1)
  }

  /** The record count as the loop sees it: a negative count reads no records. */
  function Records(count: int): nat {
    if count < 0 then 0 else count
  }

  /** read: D seller, D count, then the records; the position after the body. */
  function Decode(data: seq<byte>, pos: nat): Result<nat, Error> {
    var seller :- TakeD(data, pos);
    var count :- TakeD(data, seller.next);
    TakeRecords(data, count.next, Records(count.value))
  }

  /** A record is 20 bytes: with that many left it is read, with fewer the read underflows. */
  lemma RecordLength(data: seq<byte>, pos: nat)
    ensures TakeRecord(data, pos) ==
      if pos + RECORD_LENGTH <= |data| then Success(pos + RECORD_LENGTH) else Failure(BufferUnderflow)
  {
    var item := TakeD(data, pos);
    if item.Success? {
      assert item.value.next == pos + READ_D;
      var quantity := TakeQ(data, pos + READ_D);
      if quantity.Success? {
        assert quantity.value.next == pos + READ_D + READ_Q;
      }
    }
  }

  /** One record: with 20 bytes left it is read and the rest follow; with fewer the read underflows. */
  lemma OneRecord(data: seq<byte>, pos: nat, n: nat)
    requires n > 0
    ensures TakeRecords(data, pos, n) ==
      if pos + RECORD_LENGTH <= |data| then TakeRecords(data, pos + RECORD_LENGTH, n - 1) else Failure(BufferUnderflow)
  {
    RecordLength(data, pos);
    TakeRecordsStep(data, pos, n);
  }

  /** The first of n records is read, then the others from where it ends. */
  lemma TakeRecordsStep(data: seq<byte>, pos: nat, n: nat)
    requires n > 0
    ensures TakeRecord(data, pos).Failure? ==> TakeRecords(data, pos, n) == Failure(TakeRecord(data, pos).error)
    ensures TakeRecord(data, pos).Success? ==> TakeRecords(data, pos, n) == TakeRecords(data, TakeRecord(data, pos).value, n - 1)
  {
  }

  /** n records need exactly 20n bytes: with enough bytes they are all read, with fewer the read underflows. */
  lemma {:induction false} TakeRecordsLength(data: seq<byte>, pos: nat, n: nat)
    requires pos <= |data|
    ensures TakeRecords(data, pos, n) ==
      if pos + RECORD_LENGTH * n <= |data| then Success(pos + RECORD_LENGTH * n) else Failure(BufferUnderflow)
    decreases n
  {
    if n > 0 {
      OneRecord(data, pos, n);
      var rest := RECORD_LENGTH * (n - 1);
      assert RECORD_LENGTH * n == RECORD_LENGTH + rest && rest >= 0;
      if pos + RECORD_LENGTH <= |data| {
        TakeRecordsLength(data, pos + RECORD_LENGTH, n - 1);
        assert TakeRecords(data, pos, n) ==
          if pos + RECORD_LENGTH + rest <= |data| then Success(pos + RECORD_LENGTH + rest) else Failure(BufferUnderflow);
      }
    }
  }

  /** The count field of a body that starts at pos. */
  function CountAt(data: seq<byte>, pos: nat): int
    requires pos + MINIMUM_LENGTH <= |data|
  {
    ToSigned(LeValue(data[pos + READ_D..pos + 2 * READ_D]), READ_D)
  }

  /**
   * The body takes 8 + 20 * count bytes (no records for count <= 0): the read succeeds exactly
   * when that many bytes remain, and then consumes exactly that many; otherwise it underflows.
   */
  lemma DecodeLength(data: seq<byte>, pos: nat)
    ensures pos + MINIMUM_LENGTH > |data| ==> Decode(data, pos) == Failure(BufferUnderflow)
    ensures pos + MINIMUM_LENGTH <= |data| ==>
      var size := MINIMUM_LENGTH + RECORD_LENGTH * Records(CountAt(data, pos));
      Decode(data, pos) == if pos + size <= |data| then Success(pos + size) else Failure(BufferUnderflow)
  {
    if pos + MINIMUM_LENGTH <= |data| {
      var count := TakeD(data, pos + READ_D);
      assert count.Success? && count.value.value == CountAt(data, pos);
      TakeRecordsLength(data, pos + MINIMUM_LENGTH, Records(CountAt(data, pos)));
    }
  }

  /** A body whose count is zero or negative is exactly the minimum length. */
  lemma NoRecordsIsMinimum(data: seq<byte>, pos: nat)
    requires pos + MINIMUM_LENGTH <= |data| && CountAt(data, pos) <= 0
    ensures Decode(data, pos) == Success(pos + MINIMUM_LENGTH)
  {
    DecodeLength(data, pos);
  }

  /** The packet as received. */
  class SendPrivateStoreBuyList {
    constructor ()
    {
    }

    /** One pass of read's loop: item object id, quantity and price, each dropped. */
    method SkipRecord(buf: Reader) returns (r: Result<(), Error>)
      modifies buf
      ensures match TakeRecord(buf.data, old(buf.pos))
        case Success(next) => r.Success? && buf.pos == next
        case Failure(e) => r == Failure(e)
    {
      var item :- buf.ReadD();
      var quantity :- buf.ReadQ();
      var price :- buf.ReadQ();
      return Success(());
    }

    /** read: every field is read and dropped. */
    method ReadFields(buf: Reader) returns (r: Result<(), Error>)
      modifies buf
      ensures match Decode(buf.data, old(buf.pos))
        case Success(next) => r.Success? && buf.pos == next
        case Failure(e) => r == Failure(e)
    {
      ghost var expected := Decode(buf.data, buf.pos);
      var seller :- buf.ReadD();
      var sizeA :- buf.ReadD();
      var i := 0;
      while i < sizeA
        invariant 0 <= i && (i <= sizeA || i == 0)
        invariant expected == TakeRecords(buf.data, buf.pos, Records(sizeA) - i)
      {
        TakeRecordsStep(buf.data, buf.pos, Records(sizeA) - i);
        var done :- SkipRecord(buf);
        i := i + 1;
      }
      return Success(());
    }
  }
}
