/**
 * The statistics file reader: a stream of account records, each a two-byte
 * header followed by varints: the account id, the tank count, and for each
 * tank its id, battles and wins. A failed `unwrap` on a varint (the input
 * ended inside the record) aborts the program; here it is `Aborted`.
 */
module Stats {
  import opened Protobuf

  const U16_LIMIT: nat := 0x1_0000

  datatype Tank = Tank(id: nat, battles: nat, wins: nat)

  datatype Account = Account(id: nat, tanks: seq<Tank>)

  /** The outcome of reading one account record. */
  datatype ReadResult =
    | Read(account: Account, next: nat)  // the record and the position after it
    | EndOfStream                        // fewer than two bytes were left for the header
    | Aborted                            // a varint of the record could not be read

  /** One tank and the position after it, or an abort inside it. */
  datatype TankRead = TankRead(tank: Tank, next: nat) | TankAborted

  /** The tanks of a record, or an abort inside them. */
  datatype TanksRead = Tanks(tanks: seq<Tank>, next: nat) | TanksAborted

  /** Each field fits its Rust type: `u16` for the tank id, `u32` for the counters. */
  predicate ValidTank(t: Tank) {
    t.id < U16_LIMIT && t.battles < U32_LIMIT && t.wins < U32_LIMIT
  }

  predicate ValidTanks(ts: seq<Tank>) {
    forall i :: 0 <= i < |ts| ==> ValidTank(ts[i])
  }

  predicate ValidAccount(a: Account) {
    a.id < U32_LIMIT && ValidTanks(a.tanks)
  }

  /**
   * `skip_account_header`: reads the two header bytes one at a time; fails,
   * having read what was left, when the input ends first.
   */
  function SkipAccountHeader(input: seq<uint8>, pos: nat): (r: (bool, nat))
    requires pos <= |input|
    ensures r.0 <==> pos + 2 <= |input|
    ensures r.1 == if r.0 then pos + 2 else |input|
  {
    if |input| - pos >= 2 then (true, pos + 2) else (false, |input|)
  }

  /**
   * One tank: three varints, each read with `read_uvarint(..).unwrap()`,
   * the first truncated to the `u16` tank id.
   */
  function ParseTank(input: seq<uint8>, pos: nat): (r: TankRead)
    requires pos <= |input|
    ensures r.TankRead? ==> pos < r.next <= |input|
  {
    match Decode(input, pos, 0)
    case Decoded(id, p1) =>
      (match Decode(input, p1, 0)
       case Decoded(battles, p2) =>
         (match Decode(input, p2, 0)
          case Decoded(wins, p3) => TankRead(Tank(id % U16_LIMIT, battles, wins), p3)
          case _ => TankAborted)
       case _ => TankAborted)
    case _ => TankAborted
  }

  /**
   * `count` more tanks, one after the other, pushed after the tanks `read`
   * so far.
   */
  function ParseTanks(input: seq<uint8>, pos: nat, count: nat, read: seq<Tank>): (r: TanksRead)
    requires pos <= |input|
    ensures r.Tanks? ==> |r.tanks| == |read| + count
    ensures r.Tanks? ==> pos <= r.next <= |input|
    decreases count
  {
    if count == 0 then Tanks(read, pos)
    else
      match ParseTank(input, pos)
      case TankAborted => TanksAborted
      case TankRead(t, p) => ParseTanks(input, p, count - 1, read + [t])
  }

  /** A whole record: the header, the account id, the tank count and the tanks. */
  function ParseAccount(input: seq<uint8>, pos: nat): (r: ReadResult)
    requires pos <= |input|
    ensures r.EndOfStream? <==> pos + 2 > |input|
    ensures r.Read? ==> pos + 2 < r.next <= |input|
  {
    if |input| - pos < 2 then EndOfStream
    else
      match Decode(input, pos + 2, 0)
      case Decoded(id, p1) =>
        (match Decode(input, p1, 0)
         case Decoded(count, p2) =>
           AccountFrom(id, ParseTanks(input, p2, count, []))
         case _ => Aborted)
      case _ => Aborted
  }

  /** `read_account`: reads the record at `pos`. */
  method ReadAccount(input: seq<uint8>, pos: nat) returns (r: ReadResult)
    requires pos <= |input|
    ensures r == ParseAccount(input, pos)
  {
    var ok: bool, at: nat := SkipAccountHeader(input, pos).0, SkipAccountHeader(input, pos).1;
    if !ok {
      return EndOfStream;
    }
    var accountId := ReadUvarint(input, at);
    if !accountId.Decoded? {
      return Aborted;
    }
    var tankCount := ReadUvarint(input, accountId.next);
    if !tankCount.Decoded? {
      return Aborted;
    }
    AccountOf(input, pos, accountId.next, tankCount.next, accountId.value, tankCount.value);
    var tanks: seq<Tank> := [];
    at := tankCount.next;
    var i: nat := 0;
    while i < tankCount.value
      invariant 0 <= i <= tankCount.value && at <= |input|
      invariant ParseTanks(input, tankCount.next, tankCount.value, [])
             == ParseTanks(input, at, tankCount.value - i, tanks)
    {
      var tankId := ReadUvarint(input, at);
      if !tankId.Decoded? {
        return Aborted;
      }
      var battles := ReadUvarint(input, tankId.next);
      if !battles.Decoded? {
        return Aborted;
      }
      var wins := ReadUvarint(input, battles.next);
      if !wins.Decoded? {
        return Aborted;
      }
      var tank := Tank(tankId.value % U16_LIMIT, battles.value, wins.value);
      TankOf(input, at, tankId.next, battles.next, tankId.value, battles.value, wins.value, wins.next);
      TanksStep(input, at, tankCount.value - i, tanks, tank, wins.next);
      tanks := tanks + [tank];
      at := wins.next;
      i := i + 1;
    }
    r := Read(Account(accountId.value, tanks), at);
  }

  /** The source's test record: account 3 with one tank, 270, of 86942 battles and 86941 wins. */
  lemma TestRecord()
    ensures ParseAccount([0x3e, 0x3e, 0x03, 0x01, 0x8E, 0x02, 0x9E, 0xA7, 0x05, 0x9D, 0xA7, 0x05], 0)
         == Read(Account(3, [Tank(270, 86942, 86941)]), 12)
  {
    var input: seq<uint8> := [0x3e, 0x3e, 0x03, 0x01, 0x8E, 0x02, 0x9E, 0xA7, 0x05, 0x9D, 0xA7, 0x05];
    assert Decode(input, 2, 0) == Decoded(3, 3);
    assert Decode(input, 3, 0) == Decoded(1, 4);
    assert Decode(input, 5, 1) == Decoded(0x100, 6);
    assert Decode(input, 4, 0) == Decoded(270, 6);
    assert Decode(input, 8, 2) == Decoded(5 * 0x4000, 9);
    assert Decode(input, 7, 1) == Decoded(0x27 * 0x80 + 5 * 0x4000, 9);
    assert Decode(input, 6, 0) == Decoded(86942, 9);
    assert Decode(input, 11, 2) == Decoded(5 * 0x4000, 12);
    assert Decode(input, 10, 1) == Decoded(0x27 * 0x80 + 5 * 0x4000, 12);
    assert Decode(input, 9, 0) == Decoded(86941, 12);
    assert ParseTank(input, 4) == TankRead(Tank(270, 86942, 86941), 12);
  }

  /** A tank id above `u16` keeps only its low sixteen bits: 0x10005 is read as tank 5. */
  lemma TankIdWraps()
    ensures ParseTank([0x85, 0x80, 0x04, 0x01, 0x00], 0) == TankRead(Tank(5, 1, 0), 5)
  {
    var input: seq<uint8> := [0x85, 0x80, 0x04, 0x01, 0x00];
    assert Decode(input, 2, 2) == Decoded(4 * 0x4000, 3);
    assert Decode(input, 1, 1) == Decoded(4 * 0x4000, 3);
    assert Decode(input, 0, 0) == Decoded(0x10005, 3);
  }

  // The writer side of the format: the encoding the reader inverts.

  function EncodeTank(t: Tank): seq<uint8> {
    Encode(t.id) + Encode(t.battles) + Encode(t.wins)
  }

  function EncodeTanks(ts: seq<Tank>): seq<uint8> {
    if ts == [] then [] else EncodeTank(ts[0]) + EncodeTanks(ts[1..])
  }

  /** A record with header bytes `h0` and `h1`. */
  function EncodeAccount(h0: uint8, h1: uint8, a: Account): seq<uint8> {
    [h0, h1] + Encode(a.id) + Encode(|a.tanks|) + EncodeTanks(a.tanks)
  }

  /** The bytes `e` lie in `input` from position `p` on. */
  ghost predicate At(input: seq<uint8>, p: nat, e: seq<uint8>)
    decreases |e|
  {
    p + |e| <= |input| && (e == [] || (input[p] == e[0] && At(input, p + 1, e[1..])))
  }

  lemma {:induction false} AtSlice(input: seq<uint8>, p: nat, e: seq<uint8>)
    ensures At(input, p, e) <==> p + |e| <= |input| && input[p..p + |e|] == e
    decreases |e|
  {
    if e != [] && p + |e| <= |input| {
      AtSlice(input, p + 1, e[1..]);
      assert input[p..p + |e|] == [input[p]] + input[p + 1..p + |e|];
      assert e == [e[0]] + e[1..];
    }
  }

  /** The two parts of an encoding that lies at `p`. */
  lemma {:induction false} AtSplit(input: seq<uint8>, p: nat, a: seq<uint8>, b: seq<uint8>)
    requires At(input, p, a + b)
    ensures At(input, p, a) && At(input, p + |a|, b)
  {
    AtSlice(input, p, a + b);
    AtSlice(input, p, a);
    AtSlice(input, p + |a|, b);
    assert input[p..p + |a|] == input[p..p + |a| + |b|][..|a|];
    assert input[p + |a|..p + |a| + |b|] == input[p..p + |a| + |b|][|a|..];
  }

  /** Whatever comes before and after, an encoding lies where it was put. */
  lemma {:induction false} Embedded(pre: seq<uint8>, e: seq<uint8>, rest: seq<uint8>)
    ensures At(pre + e + rest, |pre|, e)
  {
    AtSlice(pre + e + rest, |pre|, e);
    assert (pre + e + rest)[|pre|..|pre| + |e|] == e;
  }

  /** A varint whose encoding lies at `p`. */
  lemma {:induction false} DecodeAt(input: seq<uint8>, p: nat, v: nat)
    requires v < U32_LIMIT && At(input, p, Encode(v))
    ensures Decode(input, p, 0) == Decoded(v, p + |Encode(v)|)
  {
    AtSlice(input, p, Encode(v));
    var rest := input[p + |Encode(v)|..];
    assert input == input[..p] + Encode(v) + rest;
    DecodeEncodeAt(input[..p], v, rest, 0);
  }

  /** The three varints of an encoded tank are read one after the other. */
  lemma {:induction false} TankFields(input: seq<uint8>, p: nat, t: Tank) returns (q1: nat, q2: nat)
    requires ValidTank(t) && At(input, p, EncodeTank(t))
    ensures p <= q1 <= q2 <= |input|
    ensures Decode(input, p, 0) == Decoded(t.id, q1)
    ensures Decode(input, q1, 0) == Decoded(t.battles, q2)
    ensures Decode(input, q2, 0) == Decoded(t.wins, p + |EncodeTank(t)|)
  {
    var e1, e2, e3 := Encode(t.id), Encode(t.battles), Encode(t.wins);
    AtSplit(input, p, e1 + e2, e3);
    AtSplit(input, p, e1, e2);
    q1, q2 := p + |e1|, p + |e1| + |e2|;
    DecodeAt(input, p, t.id);
    DecodeAt(input, q1, t.battles);
    DecodeAt(input, q2, t.wins);
  }

  /** A tank whose three varints have been read. */
  lemma {:induction false} TankOf(input: seq<uint8>, p: nat, q1: nat, q2: nat, id: nat, battles: nat, wins: nat, end: nat)
    requires p <= q1 <= q2 <= |input|
    requires Decode(input, p, 0) == Decoded(id, q1)
    requires Decode(input, q1, 0) == Decoded(battles, q2)
    requires Decode(input, q2, 0) == Decoded(wins, end)
    ensures ParseTank(input, p) == TankRead(Tank(id % U16_LIMIT, battles, wins), end)
  {
  }

  lemma {:induction false} TankRoundTrip(input: seq<uint8>, p: nat, t: Tank)
    requires ValidTank(t) && At(input, p, EncodeTank(t))
    ensures ParseTank(input, p) == TankRead(t, p + |EncodeTank(t)|)
  {
    var q1, q2 := TankFields(input, p, t);
    TankOf(input, p, q1, q2, t.id, t.battles, t.wins, p + |EncodeTank(t)|);
    assert t.id % U16_LIMIT == t.id;
  }

  lemma {:induction false} TanksStep(input: seq<uint8>, p: nat, count: nat, read: seq<Tank>, t: Tank, q: nat)
    requires p <= q <= |input| && count > 0 && ParseTank(input, p) == TankRead(t, q)
    ensures ParseTanks(input, p, count, read) == ParseTanks(input, q, count - 1, read + [t])
  {
  }

  lemma ConsAssoc(read: seq<Tank>, ts: seq<Tank>)
    requires ts != []
    ensures (read + [ts[0]]) + ts[1..] == read + ts
  {
  }

  /** The first tank of an encoded run is read, and the rest lie right after it. */
  lemma {:induction false} TanksHead(input: seq<uint8>, p: nat, ts: seq<Tank>, read: seq<Tank>) returns (q: nat)
    requires ts != [] && ValidTanks(ts) && At(input, p, EncodeTanks(ts))
    ensures q <= |input| && q + |EncodeTanks(ts[1..])| == p + |EncodeTanks(ts)|
    ensures ValidTanks(ts[1..]) && At(input, q, EncodeTanks(ts[1..]))
    ensures ParseTanks(input, p, |ts|, read) == ParseTanks(input, q, |ts[1..]|, read + [ts[0]])
  {
    var t := ts[0];
    AtSplit(input, p, EncodeTank(t), EncodeTanks(ts[1..]));
    q := p + |EncodeTank(t)|;
    TankRoundTrip(input, p, t);
    TanksStep(input, p, |ts|, read, t, q);
  }

  lemma {:induction false} TanksRoundTrip(input: seq<uint8>, p: nat, ts: seq<Tank>, read: seq<Tank>)
    requires ValidTanks(ts) && At(input, p, EncodeTanks(ts))
    ensures ParseTanks(input, p, |ts|, read) == Tanks(read + ts, p + |EncodeTanks(ts)|)
    decreases |ts|
  {
    if ts == [] {
      assert read + ts == read;
    } else {
      var q := TanksHead(input, p, ts, read);
      TanksRoundTrip(input, q, ts[1..], read + [ts[0]]);
      ConsAssoc(read, ts);
    }
  }

  /** The tanks read after a record's header and counts make up the account. */
  function AccountFrom(id: nat, tanks: TanksRead): ReadResult {
    match tanks
    case Tanks(ts, next) => Read(Account(id, ts), next)
    case TanksAborted => Aborted
  }

  /** The account id and tank count of an encoded record are read after its header. */
  lemma {:induction false} AccountFields(input: seq<uint8>, p: nat, h0: uint8, h1: uint8, a: Account) returns (q1: nat, q2: nat)
    requires a.id < U32_LIMIT && |a.tanks| < U32_LIMIT
    requires At(input, p, EncodeAccount(h0, h1, a))
    ensures p + 2 <= q1 <= q2 <= |input|
    ensures Decode(input, p + 2, 0) == Decoded(a.id, q1)
    ensures Decode(input, q1, 0) == Decoded(|a.tanks|, q2)
    ensures q2 + |EncodeTanks(a.tanks)| == p + |EncodeAccount(h0, h1, a)|
    ensures At(input, q2, EncodeTanks(a.tanks))
  {
    var e1, e2 := Encode(a.id), Encode(|a.tanks|);
    AtSplit(input, p, [h0, h1] + e1 + e2, EncodeTanks(a.tanks));
    AtSplit(input, p, [h0, h1] + e1, e2);
    AtSplit(input, p, [h0, h1], e1);
    q1, q2 := p + 2 + |e1|, p + 2 + |e1| + |e2|;
    DecodeAt(input, p + 2, a.id);
    DecodeAt(input, q1, |a.tanks|);
  }

  /** A record whose account id and tank count have been read. */
  lemma {:induction false} AccountOf(input: seq<uint8>, p: nat, q1: nat, q2: nat, id: nat, count: nat)
    requires p + 2 <= q1 <= q2 <= |input|
    requires Decode(input, p + 2, 0) == Decoded(id, q1)
    requires Decode(input, q1, 0) == Decoded(count, q2)
    ensures ParseAccount(input, p) == AccountFrom(id, ParseTanks(input, q2, count, []))
  {
  }

  /**
   * Wherever a record written with any header bytes lies in the input,
   * reading there gives the account back and stops right after the record,
   * where the next one is read.
   */
  lemma {:induction false} AccountRoundTrip(input: seq<uint8>, p: nat, h0: uint8, h1: uint8, a: Account)
    requires ValidAccount(a) && |a.tanks| < U32_LIMIT
    requires At(input, p, EncodeAccount(h0, h1, a))
    ensures ParseAccount(input, p) == Read(a, p + |EncodeAccount(h0, h1, a)|)
  {
    var q1, q2 := AccountFields(input, p, h0, h1, a);
    AccountOf(input, p, q1, q2, a.id, |a.tanks|);
    TanksRoundTrip(input, q2, a.tanks, []);
    assert [] + a.tanks == a.tanks;
  }

  lemma {:induction false} SuffixFrom(input: seq<uint8>, input': seq<uint8>, pos: nat, later: nat)
    requires pos <= later <= |input| && |input'| == |input| && input[pos..] == input'[pos..]
    ensures input[later..] == input'[later..]
  {
    assert input[later..] == input[pos..][later - pos..];
    assert input'[later..] == input'[pos..][later - pos..];
  }

  /** A varint reads the same from inputs that agree from `pos` on, and they still agree after it. */
  lemma {:induction false} VarintReadOnlySuffix(input: seq<uint8>, input': seq<uint8>, pos: nat)
    requires pos <= |input| && |input'| == |input| && input[pos..] == input'[pos..]
    ensures Decode(input, pos, 0) == Decode(input', pos, 0)
    ensures Decode(input, pos, 0).Decoded? ==> input[Decode(input, pos, 0).next..] == input'[Decode(input, pos, 0).next..]
  {
    ReadsOnlySuffix(input, input', pos, 0);
    var r := Decode(input, pos, 0);
    if r.Decoded? {
      SuffixFrom(input, input', pos, r.next);
    }
  }

  lemma {:induction false} TankReadOnlySuffix(input: seq<uint8>, input': seq<uint8>, pos: nat)
    requires pos <= |input| && |input'| == |input| && input[pos..] == input'[pos..]
    ensures ParseTank(input, pos) == ParseTank(input', pos)
    ensures ParseTank(input, pos).TankRead? ==> input[ParseTank(input, pos).next..] == input'[ParseTank(input, pos).next..]
  {
    VarintReadOnlySuffix(input, input', pos);
    var r1 := Decode(input, pos, 0);
    if r1.Decoded? {
      VarintReadOnlySuffix(input, input', r1.next);
      var r2 := Decode(input, r1.next, 0);
      if r2.Decoded? {
        VarintReadOnlySuffix(input, input', r2.next);
      }
    }
  }

  lemma {:induction false} TanksReadOnlySuffix(input: seq<uint8>, input': seq<uint8>, pos: nat, count: nat, read: seq<Tank>)
    requires pos <= |input| && |input'| == |input| && input[pos..] == input'[pos..]
    ensures ParseTanks(input, pos, count, read) == ParseTanks(input', pos, count, read)
    decreases count
  {
    if count > 0 {
      TankReadOnlySuffix(input, input', pos);
      var r := ParseTank(input, pos);
      if r.TankRead? {
        TanksReadOnlySuffix(input, input', r.next, count - 1, read + [r.tank]);
      }
    }
  }

  /** The two header bytes are skipped unread: records that differ only there read the same. */
  lemma {:induction false} HeaderIgnored(input: seq<uint8>, input': seq<uint8>, pos: nat)
    requires pos + 2 <= |input| && |input'| == |input| && input[pos + 2..] == input'[pos + 2..]
    ensures ParseAccount(input, pos) == ParseAccount(input', pos)
  {
    VarintReadOnlySuffix(input, input', pos + 2);
    var r1 := Decode(input, pos + 2, 0);
    if r1.Decoded? {
      VarintReadOnlySuffix(input, input', r1.next);
      var r2 := Decode(input, r1.next, 0);
      if r2.Decoded? {
        TanksReadOnlySuffix(input, input', r2.next, r2.value, []);
      }
    }
  }
}
