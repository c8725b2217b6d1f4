/** HTC trailers: a list of records, some of which report credits, possibly cut short. */
module Trailer {
  import opened Bytes

  const RECORD_CREDITS: byte := 1
  const RECORD_HDR: nat := 4

  /** A record as the target writes it: id, length, two unused bytes, and the body. */
  datatype Record = Record(id: byte, pad0: byte, pad1: byte, body: seq<byte>)

  predicate Encodable(rs: seq<Record>) {
    forall i | 0 <= i < |rs| :: |rs[i].body| < 0x100
  }

  function Encode(rs: seq<Record>): seq<byte>
    requires Encodable(rs)
  {
    if rs == [] then [] else EncodeRecord(rs[0]) + Encode(rs[1..])
  }

  function EncodeRecord(r: Record): seq<byte>
    requires |r.body| < 0x100
  {
    [r.id, |r.body|, r.pad0, r.pad1] + r.body
  }

  /** Credits for endpoint `eid` in a credit record's 4-byte entries; a short tail is ignored. */
  function EntryCredits(body: seq<byte>, eid: byte): (n: nat)
    ensures |body| < 4 ==> n == 0
  {
    if |body| < 4 then 0
    else (if body[0] == eid then body[1] else 0) + EntryCredits(body[4..], eid)
  }

  /** One turn of the entry loop. */
  lemma EntryStep(body: seq<byte>, i: nat, eid: byte)
    requires i + 4 <= |body|
    ensures EntryCredits(body[i..], eid) == (if body[i] == eid then body[i + 1] else 0) + EntryCredits(body[i + 4..], eid)
  {
    assert body[i..][4..] == body[i + 4..];
  }

  function Credits(rs: seq<Record>, eid: byte): nat {
    if rs == [] then 0
    else (if rs[0].id == RECORD_CREDITS then EntryCredits(rs[0].body, eid) else 0) + Credits(rs[1..], eid)
  }

  /** `t` starts with a record that is wholly there. */
  predicate StartsWithRecord(t: seq<byte>) {
    |t| >= RECORD_HDR && RECORD_HDR + t[1] <= |t|
  }

  function FirstRecord(t: seq<byte>): Record
    requires StartsWithRecord(t)
  {
    Record(t[0], t[2], t[3], t[RECORD_HDR..RECORD_HDR + t[1]])
  }

  /** The complete records at the front of an arbitrary trailer. */
  function Records(t: seq<byte>): seq<Record> {
    if !StartsWithRecord(t) then [] else [FirstRecord(t)] + Records(t[RECORD_HDR + t[1]..])
  }

  /** Credits an arbitrary trailer reports for `eid`. */
  function Reported(t: seq<byte>, eid: byte): nat {
    Credits(Records(t), eid)
  }

  /** One turn of the decoding loop. */
  lemma ReportedStep(t: seq<byte>, eid: byte)
    ensures !StartsWithRecord(t) ==> Reported(t, eid) == 0
    ensures StartsWithRecord(t) ==>
              Reported(t, eid) ==
              (if t[0] == RECORD_CREDITS then EntryCredits(t[RECORD_HDR..RECORD_HDR + t[1]], eid) else 0)
              + Reported(t[RECORD_HDR + t[1]..], eid)
  {
    if StartsWithRecord(t) {
      assert Records(t)[1..] == Records(t[RECORD_HDR + t[1]..]);
    }
  }

  /** `rs` are complete records at the front of `t`, and no further record is complete. */
  ghost predicate LongestPrefix(t: seq<byte>, rs: seq<Record>) {
    Encodable(rs) && Encode(rs) <= t && !StartsWithRecord(t[|Encode(rs)|..])
  }

  /** Every trailer has exactly one longest prefix of complete records, and `Records` finds it. */
  lemma {:induction false} RecordsAreTheLongestPrefix(t: seq<byte>)
    ensures LongestPrefix(t, Records(t))
    decreases |t|
  {
    if StartsWithRecord(t) {
      var rest := t[RECORD_HDR + t[1]..];
      RecordsAreTheLongestPrefix(rest);
      var rs := Records(t);
      assert rs[1..] == Records(rest) && rs[0] == FirstRecord(t);
      assert t == EncodeRecord(rs[0]) + rest;
      assert t[|Encode(rs)|..] == rest[|Encode(rs[1..])|..];
    } else {
      assert t[|Encode([])|..] == t;
    }
  }

  lemma FirstOfEncoding(r: Record, rest: seq<byte>)
    requires |r.body| < 0x100
    ensures var t := EncodeRecord(r) + rest;
            StartsWithRecord(t) && FirstRecord(t) == r && t[RECORD_HDR + t[1]..] == rest
  {
    var t := EncodeRecord(r) + rest;
    assert t[RECORD_HDR..RECORD_HDR + |r.body|] == r.body;
  }

  lemma {:induction false} RecordsOfEncoding(rs: seq<Record>, tail: seq<byte>)
    requires Encodable(rs) && !StartsWithRecord(tail)
    ensures Records(Encode(rs) + tail) == rs
  {
    hide EncodeRecord, StartsWithRecord, FirstRecord;
    if rs == [] {
      assert Encode(rs) + tail == tail;
    } else {
      var more := Encode(rs[1..]) + tail;
      RecordsOfEncoding(rs[1..], tail);
      FirstOfEncoding(rs[0], more);
      assert Encode(rs) + tail == EncodeRecord(rs[0]) + more;
    }
  }

  lemma LongestPrefixIsUnique(t: seq<byte>, rs: seq<Record>)
    requires LongestPrefix(t, rs)
    ensures rs == Records(t)
  {
    var tail := t[|Encode(rs)|..];
    assert t == Encode(rs) + tail;
    RecordsOfEncoding(rs, tail);
  }

  /** On a well-formed trailer the credits are the sum over all its entries. */
  lemma EncodedRecordsRoundTrip(rs: seq<Record>)
    requires Encodable(rs)
    ensures Records(Encode(rs)) == rs
  {
    assert Encode(rs)[|Encode(rs)|..] == [];
    LongestPrefixIsUnique(Encode(rs), rs);
  }
}
