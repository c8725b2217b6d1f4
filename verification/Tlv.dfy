/** WMI-TLV streams: `{u16 len, u16 tag, value}` records laid end to end, without padding. */
module Tlv {
  import opened Bytes
  import opened Common

  const HDR: nat := 4

  datatype Rec = Rec(tag: u16, value: seq<byte>)

  predicate Encodable(rs: seq<Rec>) {
    forall i | 0 <= i < |rs| :: |rs[i].value| < 0x1_0000
  }

  function EncodeRec(r: Rec): seq<byte>
    requires |r.value| < 0x1_0000
  {
    Le16(|r.value|) + Le16(r.tag) + r.value
  }

  function Encode(rs: seq<Rec>): seq<byte>
    requires Encodable(rs)
  {
    if rs == [] then [] else EncodeRec(rs[0]) + Encode(rs[1..])
  }

  /** `p` is exactly the records `rs`, with nothing left over. */
  predicate Tiles(p: seq<byte>, rs: seq<Rec>) {
    Encodable(rs) && Encode(rs) == p
  }

  lemma EncodeCons(r: Rec, rs: seq<Rec>)
    requires |r.value| < 0x1_0000 && Encodable(rs)
    ensures Encodable([r] + rs) && Encode([r] + rs) == EncodeRec(r) + Encode(rs)
  {
    assert ([r] + rs)[1..] == rs;
  }

  predicate StartsWithRec(p: seq<byte>) {
    |p| >= HDR && HDR + Get16(p, 0) <= |p|
  }

  function FirstRec(p: seq<byte>): Rec
    requires StartsWithRec(p)
  {
    Rec(Get16(p, 2), p[HDR..HDR + Get16(p, 0)])
  }

  function Rest(p: seq<byte>): seq<byte>
    requires StartsWithRec(p)
    ensures |Rest(p)| < |p|
  {
    p[HDR + Get16(p, 0)..]
  }

  function Parse(p: seq<byte>): Option<seq<Rec>> {
    if p == [] then Some([])
    else if !StartsWithRec(p) then None
    else match Parse(Rest(p))
         case None => None
         case Some(rest) => Some([FirstRec(p)] + rest)
  }

  /** The value of the last record with this tag. */
  function LastOf(rs: seq<Rec>, tag: nat): Option<seq<byte>> {
    if rs == [] then None
    else if rs[|rs| - 1].tag == tag then Some(rs[|rs| - 1].value)
    else LastOf(rs[..|rs| - 1], tag)
  }

  lemma FirstOfEncoding(r: Rec, rest: seq<byte>)
    requires |r.value| < 0x1_0000
    ensures var p := EncodeRec(r) + rest;
            StartsWithRec(p) && FirstRec(p) == r && Rest(p) == rest
  {
    var p := EncodeRec(r) + rest;
    assert p[0] == Le16(|r.value|)[0] && p[1] == Le16(|r.value|)[1];
    assert p[2] == Le16(r.tag)[0] && p[3] == Le16(r.tag)[1];
    assert Get16(p, 0) == |r.value|;
    assert p[HDR..HDR + |r.value|] == r.value;
    assert p[HDR + |r.value|..] == rest;
  }

  lemma EncodingOfFirst(p: seq<byte>)
    requires StartsWithRec(p)
    ensures EncodeRec(FirstRec(p)) + Rest(p) == p
  {
    Le16OfGet16(p[0..2]);
    Le16OfGet16(p[2..4]);
    assert Get16(p[0..2], 0) == Get16(p, 0) && Get16(p[2..4], 0) == Get16(p, 2);
    assert p == p[0..2] + p[2..4] + p[HDR..HDR + Get16(p, 0)] + Rest(p);
  }

  /** The parser accepts exactly the byte strings that tile, and returns their tiling. */
  lemma {:induction false} ParseIffTiles(p: seq<byte>, rs: seq<Rec>)
    ensures Parse(p) == Some(rs) <==> Tiles(p, rs)
    decreases |p|
  {
    if rs != [] && Encodable(rs) {
      assert Tiles(p, rs) ==> p == EncodeRec(rs[0]) + Encode(rs[1..]);
      FirstOfEncoding(rs[0], Encode(rs[1..]));
    }
    if StartsWithRec(p) {
      EncodingOfFirst(p);
      if rs != [] {
        ParseIffTiles(Rest(p), rs[1..]);
        assert rs == [rs[0]] + rs[1..];
        if Parse(p) == Some(rs) {
          var rest := Parse(Rest(p)).value;
          assert rs[0] == FirstRec(p) && rs[1..] == rest;
        }
      }
    }
  }

  /** No byte string tiles in two ways. */
  lemma TilingIsUnique(p: seq<byte>, rs: seq<Rec>, rs': seq<Rec>)
    requires Tiles(p, rs) && Tiles(p, rs')
    ensures rs == rs'
  {
    ParseIffTiles(p, rs);
    ParseIffTiles(p, rs');
  }

  /** What "last" means: no later record carries the tag. */
  lemma {:induction false} LastOfIsLast(rs: seq<Rec>, tag: nat)
    ensures LastOf(rs, tag).None? <==> forall i | 0 <= i < |rs| :: rs[i].tag != tag
    ensures LastOf(rs, tag).Some? ==>
              exists i | 0 <= i < |rs| ::
                rs[i] == Rec(tag, LastOf(rs, tag).value) && forall j | i < j < |rs| :: rs[j].tag != tag
  {
    if rs != [] {
      var front := rs[..|rs| - 1];
      LastOfIsLast(front, tag);
      if rs[|rs| - 1].tag != tag && LastOf(front, tag).Some? {
        var i :| 0 <= i < |front| && front[i] == Rec(tag, LastOf(front, tag).value)
                 && forall j | i < j < |front| :: front[j].tag != tag;
        assert rs[i] == front[i];
      }
    }
  }

  lemma LastOfUnique(rs: seq<Rec>, i: nat)
    requires i < |rs| && forall j | i < j < |rs| :: rs[j].tag != rs[i].tag
    ensures LastOf(rs, rs[i].tag) == Some(rs[i].value)
  {
    hide LastOf;
    LastOfIsLast(rs, rs[i].tag);
  }

  /** Does the table show, for every tag below its size, the last record with that tag? */
  ghost predicate Shows(tb: seq<View>, p: seq<byte>, rs: seq<Rec>) {
    forall t | 0 <= t < |tb| :: EntryShows(tb[t], p, LastOf(rs, t))
  }

  predicate EntryShows(v: View, p: seq<byte>, last: Option<seq<byte>>) {
    match v
    case Absent => last.None?
    case At(off, len) => off + len <= |p| && last == Some(p[off..off + len])
  }

  function Prepend(front: seq<Rec>, rest: Option<seq<Rec>>): Option<seq<Rec>> {
    match rest
    case None => None
    case Some(rs) => Some(front + rs)
  }

  /** One turn of the parsing loop, with the records before it in `seen`. */
  lemma ParseStep(seen: seq<Rec>, p: seq<byte>)
    ensures p == [] ==> Prepend(seen, Parse(p)) == Some(seen)
    ensures p != [] && !StartsWithRec(p) ==> Prepend(seen, Parse(p)) == None
    ensures StartsWithRec(p) ==>
              Prepend(seen, Parse(p)) == Prepend(seen + [FirstRec(p)], Parse(Rest(p)))
  {
    hide StartsWithRec, FirstRec, Rest;
    assert seen + [] == seen;
    if StartsWithRec(p) && Parse(Rest(p)).Some? {
      var more := Parse(Rest(p)).value;
      assert seen + ([FirstRec(p)] + more) == (seen + [FirstRec(p)]) + more;
    }
  }

  lemma RecordAt(p: seq<byte>, pos: nat)
    requires pos < |p|
    ensures StartsWithRec(p[pos..]) <==> pos + HDR <= |p| && pos + HDR + Get16(p, pos) <= |p|
    ensures StartsWithRec(p[pos..]) ==>
              && FirstRec(p[pos..]) == Rec(Get16(p, pos + 2), p[pos + HDR..pos + HDR + Get16(p, pos)])
              && Rest(p[pos..]) == p[pos + HDR + Get16(p, pos)..]
  {
  }

  /** Recording one more record, or skipping one whose tag is too large for the table. */
  lemma ShowsStep(tb: seq<View>, p: seq<byte>, seen: seq<Rec>, rec: Rec, off: nat)
    requires Shows(tb, p, seen) && off + |rec.value| <= |p| && rec.value == p[off..off + |rec.value|]
    ensures Shows(if rec.tag < |tb| then tb[rec.tag := At(off, |rec.value|)] else tb, p, seen + [rec])
  {
    assert (seen + [rec])[..|seen|] == seen;
  }

  /** The loop invariant: `seen` are the records before `pos`, and `tb` shows them. */
  ghost predicate Progress(p: seq<byte>, pos: nat, tb: seq<View>, seen: seq<Rec>) {
    pos <= |p| && Parse(p) == Prepend(seen, Parse(p[pos..])) && Shows(tb, p, seen)
  }

  lemma ProgressStep(p: seq<byte>, pos: nat, tb: seq<View>, seen: seq<Rec>)
    requires Progress(p, pos, tb, seen) && pos < |p|
    ensures StartsWithRec(p[pos..]) <==> pos + HDR <= |p| && pos + HDR + Get16(p, pos) <= |p|
    ensures !StartsWithRec(p[pos..]) ==> Parse(p).None?
    ensures StartsWithRec(p[pos..]) ==>
              var len, tag := Get16(p, pos), Get16(p, pos + 2);
              Progress(p, pos + HDR + len, if tag < |tb| then tb[tag := At(pos + HDR, len)] else tb,
                       seen + [FirstRec(p[pos..])])
  {
    hide StartsWithRec, FirstRec, Rest, Parse, Shows;
    ParseStep(seen, p[pos..]);
    RecordAt(p, pos);
    if StartsWithRec(p[pos..]) {
      ShowsStep(tb, p, seen, FirstRec(p[pos..]), pos + HDR);
    }
  }

  lemma ProgressEnds(p: seq<byte>, tb: seq<View>, seen: seq<Rec>)
    requires Progress(p, |p|, tb, seen)
    ensures Parse(p) == Some(seen) && Shows(tb, p, seen)
  {
    assert seen + [] == seen;
  }

  lemma ProgressStarts(p: seq<byte>, tb: seq<View>)
    requires forall i | 0 <= i < |tb| :: tb[i] == Absent
    ensures Progress(p, 0, tb, [])
  {
    assert p[0..] == p;
    if Parse(p).Some? { assert [] + Parse(p).value == Parse(p).value; }
  }

  /** Fills `tb` with the last record of each tag; false on a stream that does not tile. */
  method TlvParse(p: seq<byte>, tb: array<View>) returns (ok: bool)
    modifies tb
    ensures ok <==> Parse(p).Some?
    ensures ok ==> Shows(tb[..], p, Parse(p).value)
  {
    hide StartsWithRec, FirstRec, Parse, Shows, Progress;
    forall i | 0 <= i < tb.Length { tb[i] := Absent; }
    var pos := 0;
    ghost var seen: seq<Rec> := [];
    ProgressStarts(p, tb[..]);
    while pos < |p|
      invariant pos <= |p| && Progress(p, pos, tb[..], seen)
    {
      ProgressStep(p, pos, tb[..], seen);
      if |p| - pos < 4 {
        return false;
      }
      var len, tag := Get16(p, pos), Get16(p, pos + 2);
      if len > |p| - pos - 4 {
        return false;
      }
      seen := seen + [FirstRec(p[pos..])];
      pos := pos + 4;
      if tag < tb.Length {
        tb[tag] := At(pos, len);
      }
      pos := pos + len;
    }
    ProgressEnds(p, tb[..], seen);
    return true;
  }
}
