/**
 * ChangeAccessLevel: a game server asks the login server to change an account's access level.
 * The level becomes the account's ban reason (negative levels) and super-user flag (positive
 * levels).
 */
module ChangeAccessLevel {
  import opened Primitives
  import opened Buffer

  const OPCODE: int := 0x04
  const MINIMUM_LENGTH: nat := 5

  datatype Request = Request(level: int32, account: JString)

  /** read: D level, then S account. */
  function Decode(data: seq<byte>, pos: nat): Result<Read<Request>, Error> {
    var level :- TakeD(data, pos);
    var account :- TakeS(data, level.next);
    Success(Read(Request(level.value, account.value), account.next))
  }

  /** The body a game server sends, followed by whatever comes after it. */
  function Encode(req: Request, rest: seq<byte>): seq<byte> {
    Enc(req.level, READ_D) + (EncS(req.account) + rest)
  }

  /** Every request whose account holds no zero unit is read back as sent, consuming exactly its bytes. */
  lemma DecodeEncode(req: Request, rest: seq<byte>)
    requires NoZeroUnit(req.account)
    ensures Decode(Encode(req, rest), 0) == Success(Read(req, |Encode(req, rest)| - |rest|))
  {
    var data := Encode(req, rest);
    var d, tail := Enc(req.level, READ_D), EncS(req.account) + rest;
    assert Pow256(READ_D) == 0x1_0000_0000;
    assert data[0..4] == d;
    TakeSignedAt(data, 0, req.level, READ_D);
    assert data[4..4 + |EncS(req.account)|] == EncS(req.account);
    TakeSAt(data, 4, req.account);
  }

  /** The minimum length is a true lower bound: a body that reads successfully has at least 6 bytes (D and the terminator). */
  lemma DecodeNeedsMinimum(data: seq<byte>, pos: nat)
    requires Decode(data, pos).Success?
    ensures Decode(data, pos).value.next >= pos + MINIMUM_LENGTH + 1
  {
  }

  /** The statement parameters of runImpl: banReason (absent is SQL NULL) and superUser. */
  datatype AccessUpdate = AccessUpdate(banReason: Option<int32>, superUser: bool)

  /** runImpl's choice: a negative level bans with reason -level (a Java int negation), a positive one grants super-user. */
  function Update(level: int32): (u: AccessUpdate)
    ensures u.superUser <==> level > 0
    ensures u.banReason.Some? <==> level < 0
    ensures u.banReason.Some? && level != MIN_INT ==> u.banReason.value == -level > 0
  {
    if level < 0 then AccessUpdate(Some(Negate32(level)), level > 0)
    else AccessUpdate(None, level > 0)
  }

  /** A ban and super-user rights never come together, and level 0 clears both. */
  lemma NeverBannedSuperUser(level: int32)
    ensures !(Update(level).banReason.Some? && Update(level).superUser)
    ensures level == 0 ==> Update(level) == AccessUpdate(None, false)
  {
  }

  /** Integer.MIN_VALUE has no positive negation: its ban reason comes out negative. */
  lemma MinValueBanReason()
    ensures Update(MIN_INT).banReason == Some(MIN_INT)
    ensures Update(MIN_INT).banReason.value < 0
  {
  }

  /** The packet as received: the fields read fills in. */
  class ChangeAccessLevel {
    var level: int32
    var account: JString

    constructor ()
      ensures level == 0 && account == []
    {
      level := 0;
      account := [];
    }

    method ReadFields(buf: Reader) returns (r: Result<(), Error>)
      modifies this, buf
      ensures match Decode(buf.data, old(buf.pos))
        case Success(rd) => r.Success? && Request(level, account) == rd.value && buf.pos == rd.next
        case Failure(e) => r == Failure(e)
    {
      var l :- buf.ReadD();
      level := l;
      var a :- buf.ReadS();
      account := a;
      return Success(());
    }
  }
}
