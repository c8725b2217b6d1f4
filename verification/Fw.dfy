/** Firmware and board containers: a magic, then information elements padded to whole words. */
module Fw {
  import opened Bytes
  import opened Common

  const IE_HDR: nat := 8
  const IE_VERSION: u32 := 0
  const IE_FW_IMAGE: u32 := 3
  const IE_OTP_IMAGE: u32 := 4
  const BD_NAME: u32 := 0
  const BD_DATA: u32 := 1
  const VERSION_CAP: nat := 63     // the text and its terminator in 64 bytes, kept one short
  const NAME_CAP: nat := 96
  const FW_START: nat := 12        // 11 bytes of magic, padded
  const BOARD_START: nat := 20     // 17 bytes of magic, padded

  predicate Ascii(s: string) {
    forall i | 0 <= i < |s| :: s[i] < 128 as char
  }

  function Text(s: string): (t: seq<byte>)
    requires Ascii(s)
    ensures |t| == |s|
  {
    seq(|s|, i requires 0 <= i < |s| => s[i] as int)
  }

  function FwMagic(): (m: seq<byte>)
    ensures |m| == 11
  {
    Text("QCA-ATH10K") + [0]
  }

  function BoardMagic(): (m: seq<byte>)
    ensures |m| == 17
  {
    Text("QCA-ATH10K-BOARD") + [0]
  }

  /** Both end in a terminator, so neither container starts like the other. */
  lemma MagicsDiffer()
    ensures FwMagic()[10] == BoardMagic()[16] == 0 && FwMagic() != BoardMagic()[..11]
  {
    assert BoardMagic()[10] == '-' as int;
  }

  /** One element, without its padding. */
  datatype Ie = Ie(id: u32, body: seq<byte>)

  /** What a walk visits, and whether an element announced more than was left. */
  datatype Walked = Walked(ies: seq<Ie>, truncated: bool)

  function Walk(s: seq<byte>): Walked {
    if |s| < IE_HDR then Walked([], false)
    else if |s| - IE_HDR < Get32(s, 4) then Walked([], true)
    else
      var n := Get32(s, 4);
      var ie := Ie(Get32(s, 0), s[IE_HDR..IE_HDR + n]);
      if RoundUp4(n) > |s| - IE_HDR then Walked([ie], false)
      else
        var rest := Walk(s[IE_HDR + RoundUp4(n)..]);
        Walked([ie] + rest.ies, rest.truncated)
  }

  // ------------------------------------------------------------------- the format's encoder

  predicate Sized(ie: Ie) {
    |ie.body| < 0x1_0000_0000
  }

  function Gap(ie: Ie): nat {
    RoundUp4(|ie.body|) - |ie.body|
  }

  /** The element with whatever bytes the tool that built the file left as padding. */
  function EncodeIe(ie: Ie, fill: seq<byte>): seq<byte>
    requires Sized(ie)
  {
    Le32(ie.id) + Le32(|ie.body|) + ie.body + fill
  }

  predicate Encodable(ies: seq<Ie>, fills: seq<seq<byte>>) {
    |fills| == |ies| && forall k | 0 <= k < |ies| :: Sized(ies[k])
  }

  function EncodeIes(ies: seq<Ie>, fills: seq<seq<byte>>): seq<byte>
    requires Encodable(ies, fills)
  {
    if ies == [] then [] else EncodeIe(ies[0], fills[0]) + EncodeIes(ies[1..], fills[1..])
  }

  /** Every element padded to whole words. */
  predicate Padded(ies: seq<Ie>, fills: seq<seq<byte>>) {
    Encodable(ies, fills) && forall k | 0 <= k < |ies| :: |fills[k]| == Gap(ies[k])
  }

  /** Every element padded, except that the last may lack some or all of its padding. */
  predicate PaddedButLast(ies: seq<Ie>, fills: seq<seq<byte>>) {
    && Encodable(ies, fills)
    && (forall k | 0 <= k < |ies| :: |fills[k]| <= Gap(ies[k]) && (k + 1 < |ies| ==> |fills[k]| == Gap(ies[k])))
  }

  lemma HeaderOf(ie: Ie, fill: seq<byte>, tail: seq<byte>)
    requires Sized(ie)
    ensures var s := EncodeIe(ie, fill) + tail;
            Get32(s, 0) == ie.id && Get32(s, 4) == |ie.body| && s[IE_HDR..IE_HDR + |ie.body|] == ie.body
            && s[IE_HDR + |ie.body|..] == fill + tail
  {
    hide Le32, Get32;
    var s := EncodeIe(ie, fill) + tail;
    assert s[0..4] == Le32(ie.id) && s[4..8] == Le32(|ie.body|);
    Get32OfLe32(s, 0, ie.id);
    Get32OfLe32(s, 4, |ie.body|);
  }

  lemma WalkOne(ie: Ie, fill: seq<byte>, tail: seq<byte>)
    requires Sized(ie) && |fill| == Gap(ie)
    ensures var rest := Walk(tail);
            Walk(EncodeIe(ie, fill) + tail) == Walked([ie] + rest.ies, rest.truncated)
  {
    hide Get32, Le32, RoundUp4;
    HeaderOf(ie, fill, tail);
    var s := EncodeIe(ie, fill) + tail;
    assert s[IE_HDR + RoundUp4(|ie.body|)..] == s[IE_HDR + |ie.body|..][|fill|..] == tail;
  }

  /** Walking an encoding recovers its elements, and goes on with what follows it. */
  lemma {:induction false} WalkEncoding(ies: seq<Ie>, fills: seq<seq<byte>>, tail: seq<byte>)
    requires Padded(ies, fills)
    ensures Walk(EncodeIes(ies, fills) + tail) == Walked(ies + Walk(tail).ies, Walk(tail).truncated)
  {
    hide Walk;
    if ies == [] {
      assert EncodeIes(ies, fills) + tail == tail;
    } else {
      var more := EncodeIes(ies[1..], fills[1..]) + tail;
      WalkEncoding(ies[1..], fills[1..], tail);
      WalkOne(ies[0], fills[0], more);
      assert EncodeIes(ies, fills) + tail == EncodeIe(ies[0], fills[0]) + more;
      assert ies == [ies[0]] + ies[1..];
    }
  }

  lemma UnpaddedTail(ie: Ie, fill: seq<byte>)
    requires Sized(ie) && |fill| <= Gap(ie)
    ensures Walk(EncodeIe(ie, fill)) == Walked([ie], false)
  {
    hide Get32, Le32, RoundUp4;
    assert EncodeIe(ie, fill) + [] == EncodeIe(ie, fill);
    HeaderOf(ie, fill, []);
    if |fill| == Gap(ie) {
      WalkOne(ie, fill, []);
    }
  }

  /** Round trip, an unpadded last element included. */
  lemma {:induction false} WalkRoundTrip(ies: seq<Ie>, fills: seq<seq<byte>>)
    requires PaddedButLast(ies, fills)
    ensures Walk(EncodeIes(ies, fills)) == Walked(ies, false)
  {
    hide Gap, EncodeIe;
    if |ies| == 1 {
      UnpaddedTail(ies[0], fills[0]);
      assert EncodeIes(ies, fills) == EncodeIe(ies[0], fills[0]);
    } else if ies != [] {
      WalkRoundTrip(ies[1..], fills[1..]);
      WalkOne(ies[0], fills[0], EncodeIes(ies[1..], fills[1..]));
      assert ies == [ies[0]] + ies[1..];
    }
  }

  /** An element that announces more than is left. */
  predicate Overlong(s: seq<byte>) {
    |s| >= IE_HDR && Get32(s, 4) > |s| - IE_HDR
  }

  /** `s` is these elements and a tail that holds no further one. */
  predicate Splits(s: seq<byte>, ies: seq<Ie>, fills: seq<seq<byte>>, tail: seq<byte>, truncated: bool) {
    && PaddedButLast(ies, fills) && s == EncodeIes(ies, fills) + tail
    && (if truncated then Overlong(tail) else |tail| < IE_HDR)
    && (tail == [] || Padded(ies, fills))
  }

  lemma FirstIe(s: seq<byte>)
    requires |s| >= IE_HDR && !Overlong(s)
    ensures var n := Get32(s, 4);
            s == Le32(Get32(s, 0)) + Le32(n) + s[IE_HDR..IE_HDR + n] + s[IE_HDR + n..]
  {
    hide Le32;
    Le32OfGet32(s[0..4]);
    Le32OfGet32(s[4..8]);
    assert Get32(s[0..4], 0) == Get32(s, 0) && Get32(s[4..8], 0) == Get32(s, 4);
  }

  /** Conversely, every byte string is the encoding of the elements the walk visits, up to such a tail. */
  lemma {:induction false} WalkIsExact(s: seq<byte>) returns (fills: seq<seq<byte>>, tail: seq<byte>)
    ensures Splits(s, Walk(s).ies, fills, tail, Walk(s).truncated)
    decreases |s|
  {
    hide Get32, Le32, RoundUp4;
    fills, tail := [], s;
    if |s| >= IE_HDR && !Overlong(s) {
      FirstIe(s);
      var n := Get32(s, 4);
      var ie := Ie(Get32(s, 0), s[IE_HDR..IE_HDR + n]);
      if RoundUp4(n) > |s| - IE_HDR {
        fills, tail := [s[IE_HDR + n..]], [];
        assert EncodeIes([ie], fills) == s;
      } else {
        var fill, rest := s[IE_HDR + n..IE_HDR + RoundUp4(n)], s[IE_HDR + RoundUp4(n)..];
        fills, tail := WalkIsExact(rest);
        SplitsCons(s, ie, fill, rest, Walk(rest).ies, fills, tail, Walk(rest).truncated);
        fills := [fill] + fills;
      }
    }
  }

  lemma SplitsCons(s: seq<byte>, ie: Ie, fill: seq<byte>, rest: seq<byte>,
                   ies: seq<Ie>, fills: seq<seq<byte>>, tail: seq<byte>, truncated: bool)
    requires Sized(ie) && |fill| == Gap(ie) && s == EncodeIe(ie, fill) + rest && Splits(rest, ies, fills, tail, truncated)
    ensures Splits(s, [ie] + ies, [fill] + fills, tail, truncated)
  {
    hide Gap, EncodeIe;
    assert ([ie] + ies)[1..] == ies && ([fill] + fills)[1..] == fills;
    assert forall k | 0 < k < |ies| + 1 :: ([ie] + ies)[k] == ies[k - 1] && ([fill] + fills)[k] == fills[k - 1];
  }

  // ----------------------------------------------------------------------- firmware

  /** The body of the last element with this id. */
  function LastBody(ies: seq<Ie>, id: u32): Option<seq<byte>> {
    if ies == [] then None
    else if ies[|ies| - 1].id == id then Some(ies[|ies| - 1].body)
    else LastBody(ies[..|ies| - 1], id)
  }

  lemma {:induction false} LastBodyIsLast(ies: seq<Ie>, id: u32)
    ensures LastBody(ies, id).None? <==> forall k | 0 <= k < |ies| :: ies[k].id != id
    ensures LastBody(ies, id).Some? ==>
              exists k | 0 <= k < |ies| ::
                ies[k] == Ie(id, LastBody(ies, id).value) && forall j | k < j < |ies| :: ies[j].id != id
  {
    if ies != [] {
      var n := |ies| - 1;
      var front := ies[..n];
      LastBodyIsLast(front, id);
      if ies[n].id == id {
        assert ies[n] == Ie(id, LastBody(ies, id).value);
      } else if LastBody(front, id).Some? {
        var k :| 0 <= k < n && front[k] == Ie(id, LastBody(front, id).value) && forall j | k < j < n :: front[j].id != id;
        assert ies[k] == Ie(id, LastBody(ies, id).value);
        assert forall j | k < j < |ies| :: j == n || ies[j] == front[j];
      } else {
        assert forall k | 0 <= k < n :: ies[k] == front[k];
      }
    }
  }

  /** The elements whose text fits the version field. */
  function Versions(ies: seq<Ie>): seq<Ie> {
    if ies == [] then []
    else
      var last := ies[|ies| - 1];
      Versions(ies[..|ies| - 1]) + if last.id == IE_VERSION && |last.body| < VERSION_CAP then [last] else []
  }

  /** The last version text short enough, else the empty text. */
  function VersionOf(ies: seq<Ie>): seq<byte> {
    match LastBody(Versions(ies), IE_VERSION)
    case None => []
    case Some(text) => text
  }

  predicate ShortVersion(ie: Ie) {
    ie.id == 0 && |ie.body| < 63
  }

  /** That is the body of the last element of id 0 with fewer than 63 bytes, and empty if there is none. */
  lemma {:induction false} VersionIsLast(ies: seq<Ie>)
    ensures || (VersionOf(ies) == [] && forall k | 0 <= k < |ies| :: !ShortVersion(ies[k]))
            || exists k | 0 <= k < |ies| ::
                 ShortVersion(ies[k]) && VersionOf(ies) == ies[k].body && forall j | k < j < |ies| :: !ShortVersion(ies[j])
  {
    if ies != [] {
      var n := |ies| - 1;
      var front := ies[..n];
      VersionIsLast(front);
      if ShortVersion(ies[n]) {
        assert Versions(ies)[|Versions(ies)| - 1] == ies[n];
      } else {
        assert Versions(ies) == Versions(front);
        assert forall k | 0 <= k < n :: front[k] == ies[k];
      }
    }
  }

  datatype FwImage = FwImage(firmware: View, otp: View, version: seq<byte>)

  /** The view is inside the container, starts on a whole word, and holds `body`. */
  predicate ShowsBody(data: seq<byte>, v: View, body: Option<seq<byte>>) {
    match v
    case Absent => body.None?
    case At(off, len) => off + len <= |data| && off % 4 == 0 && body == Some(data[off..off + len])
  }

  predicate IsImage(data: seq<byte>) {
    && |data| >= FW_START && data[..11] == FwMagic()
    && var w := Walk(data[FW_START..]);
       !w.truncated && LastBody(w.ies, IE_FW_IMAGE).Some? && LastBody(w.ies, IE_FW_IMAGE).value != []
  }

  /** The output after these elements. */
  predicate Collected(data: seq<byte>, img: FwImage, ies: seq<Ie>) {
    && ShowsBody(data, img.firmware, LastBody(ies, 3))
    && ShowsBody(data, img.otp, LastBody(ies, 4))
    && img.version == VersionOf(ies)
  }

  /** What one element does to the output. */
  method Collect(data: seq<byte>, img: FwImage, ghost seen: seq<Ie>, id: u32, p: nat, n: nat) returns (next: FwImage)
    requires Collected(data, img, seen) && p + n <= |data| && p % 4 == 0
    ensures Collected(data, next, seen + [Ie(id, data[p..p + n])])
  {
    ghost var ie := Ie(id, data[p..p + n]);
    assert (seen + [ie])[..|seen|] == seen;
    assert (Versions(seen) + [ie])[..|Versions(seen)|] == Versions(seen);
    assert Versions(seen) + [] == Versions(seen);
    next := img;
    match id {
      case IE_VERSION => if n < VERSION_CAP { next := next.(version := data[p..p + n]); }
      case IE_FW_IMAGE => next := next.(firmware := At(p, n));
      case IE_OTP_IMAGE => next := next.(otp := At(p, n));
      case _ =>
    }
  }

  lemma NoneCollected(data: seq<byte>)
    ensures Collected(data, FwImage(Absent, Absent, []), [])
  {
  }

  /** A walk from `start` that has reached p, having visited `seen`. */
  predicate WalkedTo(data: seq<byte>, start: nat, p: nat, seen: seq<Ie>) {
    && start <= p <= |data|
    && Walk(data[start..]) == Walked(seen + Walk(data[p..]).ies, Walk(data[p..]).truncated)
  }

  /** The element at p. */
  function IeAt(data: seq<byte>, p: nat): Ie
    requires p + IE_HDR <= |data| && p + IE_HDR + Get32(data, p + 4) <= |data|
  {
    Ie(Get32(data, p), data[p + IE_HDR..p + IE_HDR + Get32(data, p + 4)])
  }

  /** One element further: on to the next header, or out past the end. */
  lemma WalkFrom(data: seq<byte>, start: nat, p: nat, seen: seq<Ie>)
    requires WalkedTo(data, start, p, seen) && p + IE_HDR <= |data|
    ensures var n := Get32(data, p + 4);
            if p + IE_HDR + n > |data| then Walk(data[start..]) == Walked(seen, true)
            else
              var q := p + IE_HDR + RoundUp4(n);
              if q > |data| then Walk(data[start..]) == Walked(seen + [IeAt(data, p)], false)
              else WalkedTo(data, start, q, seen + [IeAt(data, p)])
  {
    hide Walk, RoundUp4, Get32;
    var n := Get32(data, p + 4);
    SliceReads(data, p, n);
    WalkHead(data[p..]);
    assert seen + [] == seen;
    var q := p + IE_HDR + RoundUp4(n);
    if p + IE_HDR + n <= |data| && q <= |data| {
      assert data[p..][IE_HDR + RoundUp4(n)..] == data[q..];
      assert seen + ([IeAt(data, p)] + Walk(data[q..]).ies) == (seen + [IeAt(data, p)]) + Walk(data[q..]).ies;
    }
  }

  /** The walk, unfolded once. */
  lemma WalkHead(s: seq<byte>)
    requires |s| >= IE_HDR
    ensures var n := Get32(s, 4);
            if n > |s| - IE_HDR then Walk(s) == Walked([], true)
            else
              var ie := Ie(Get32(s, 0), s[IE_HDR..IE_HDR + n]);
              if RoundUp4(n) > |s| - IE_HDR then Walk(s) == Walked([ie], false)
              else
                var rest := Walk(s[IE_HDR + RoundUp4(n)..]);
                Walk(s) == Walked([ie] + rest.ies, rest.truncated)
  {
    hide RoundUp4, Get32;
  }

  lemma WalkStarts(data: seq<byte>, start: nat)
    requires start <= |data|
    ensures WalkedTo(data, start, start, [])
  {
  }

  lemma WalkEnds(data: seq<byte>, start: nat, p: nat, seen: seq<Ie>)
    requires WalkedTo(data, start, p, seen) && |data| < p + IE_HDR
    ensures Walk(data[start..]) == Walked(seen, false)
  {
  }

  lemma SliceReads(data: seq<byte>, p: nat, n: nat)
    requires p + IE_HDR <= |data|
    ensures Get32(data[p..], 0) == Get32(data, p) && Get32(data[p..], 4) == Get32(data, p + 4)
    ensures p + IE_HDR + n <= |data| ==> data[p..][IE_HDR..IE_HDR + n] == data[p + IE_HDR..p + IE_HDR + n]
  {
  }

  /**
   The length left after the padded magic is computed at 32 bits. A container shorter than its
   padded magic passes the magic check, and the first header is then read past its end.
   */
  predicate FirstReadInside(len: u32, start: nat)
    requires start <= 0x1_0000_0000
  {
    Wrap(len + 0x1_0000_0000 - start) >= IE_HDR ==> start + IE_HDR <= len
  }

  lemma MagicPadWraps(len: u32)
    ensures len >= 11 ==> (FirstReadInside(len, FW_START) <==> len != 11)
    ensures len >= 17 ==> (FirstReadInside(len, BOARD_START) <==> len >= BOARD_START)
  {
    assert FW_START <= len ==> Wrap(len + 0x1_0000_0000 - FW_START) == len - FW_START;
    assert BOARD_START <= len ==> Wrap(len + 0x1_0000_0000 - BOARD_START) == len - BOARD_START;
  }

  /**
   The checks before a walk. `ok` lets the walk begin; `escaped` says that its first header is
   read past the container's end, exactly when the container stops inside the magic's padding.
   */
  method CheckMagic(data: seq<byte>, magic: seq<byte>, start: nat) returns (ok: bool, escaped: bool)
    requires |data| < 0x1_0000_0000 && |magic| <= start <= |magic| + 3
    ensures ok <==> |data| >= start && data[..|magic|] == magic
    ensures escaped <==> |magic| <= |data| < start && data[..|magic|] == magic
  {
    if |data| < |magic| || data[..|magic|] != magic {
      return false, false;
    }
    var len := Wrap(|data| + 0x1_0000_0000 - start);
    escaped := len >= IE_HDR && |data| < start + IE_HDR;
    ok := !escaped;
  }

  /** What one turn of a walk comes to. */
  datatype Turn = Truncated | Ended | More | Found

  /** One turn over a firmware container: the header and the element at p. */
  method ParseTurn(data: seq<byte>, img: FwImage, p: nat, ghost seen: seq<Ie>)
    returns (turn: Turn, next: FwImage, q: nat, ghost seen': seq<Ie>)
    requires p + IE_HDR <= |data| && p % 4 == 0 && WalkedTo(data, FW_START, p, seen) && Collected(data, img, seen)
    ensures !turn.Found? && (turn.Truncated? ==> Walk(data[FW_START..]).truncated)
    ensures turn.Ended? ==> Walk(data[FW_START..]) == Walked(seen', false) && Collected(data, next, seen')
    ensures turn.More? ==> p + IE_HDR <= q <= |data| && q % 4 == 0
    ensures turn.More? ==> WalkedTo(data, FW_START, q, seen') && Collected(data, next, seen')
  {
    hide Walk, WalkedTo, Collected, Get32, RoundUp4;
    next, q, seen' := img, p + IE_HDR, seen;
    var id, n := Get32(data, p), Get32(data, p + 4);
    WalkFrom(data, FW_START, p, seen);
    if |data| - q < n {
      return Truncated, next, q, seen';
    }
    next := Collect(data, img, seen, id, q, n);
    seen' := seen + [Ie(id, data[q..q + n])];
    var pad := RoundUp4(n);
    turn, q := if pad > |data| - q then Ended else More, q + pad;
  }

  /**
   Accepts exactly the images, and returns the last firmware, OTP and short version elements.
   `escaped` is set where the code reads past the container's end, after which nothing is
   claimed: exactly on the 11 magic bytes alone.
   */
  method ParseFirmware(data: seq<byte>) returns (ok: bool, img: FwImage, escaped: bool)
    requires |data| < 0x1_0000_0000
    ensures escaped <==> data == FwMagic()
    ensures !escaped ==> (ok <==> IsImage(data))
    ensures !escaped && ok ==> Collected(data, img, Walk(data[FW_START..]).ies)
  {
    hide Walk, WalkedTo, Collected, FwMagic, LastBody;
    img := FwImage(Absent, Absent, []);
    ok, escaped := CheckMagic(data, FwMagic(), FW_START);
    if !ok {
      assert escaped ==> data[..11] == data;
      return;
    }
    var p, len := FW_START, |data| - FW_START;
    ghost var seen: seq<Ie> := [];
    NoneCollected(data);
    WalkStarts(data, FW_START);
    var turn := More;
    while turn == More && len >= IE_HDR
      invariant turn == More || turn == Ended
      invariant turn.More? ==> 0 <= len && p + len == |data| && p % 4 == 0 && WalkedTo(data, FW_START, p, seen)
      invariant turn.Ended? ==> Walk(data[FW_START..]) == Walked(seen, false)
      invariant Collected(data, img, seen)
      decreases turn == More, len
    {
      turn, img, p, seen := ParseTurn(data, img, p, seen);
      if turn == Truncated {
        return false, img, false;
      }
      len := |data| - p;
    }
    if turn == More { WalkEnds(data, FW_START, p, seen); }
    ok := img.firmware.At? && img.firmware.len != 0;
    ImageShown(data, img, seen);
  }

  lemma ImageShown(data: seq<byte>, img: FwImage, ies: seq<Ie>)
    requires Collected(data, img, ies)
    ensures img.firmware.At? && img.firmware.len != 0 <==>
            LastBody(ies, IE_FW_IMAGE).Some? && LastBody(ies, IE_FW_IMAGE).value != []
  {
  }

  /** A whole container: any elements, any padding bytes, an unpadded last element included. */
  lemma ImageRoundTrip(pad: byte, ies: seq<Ie>, fills: seq<seq<byte>>)
    requires PaddedButLast(ies, fills)
    ensures var data := FwMagic() + [pad] + EncodeIes(ies, fills);
            && Walk(data[FW_START..]) == Walked(ies, false)
            && (IsImage(data) <==> LastBody(ies, IE_FW_IMAGE).Some? && LastBody(ies, IE_FW_IMAGE).value != [])
  {
    hide FwMagic, Walk;
    var data := FwMagic() + [pad] + EncodeIes(ies, fills);
    assert data[FW_START..] == EncodeIes(ies, fills) && data[..11] == FwMagic();
    WalkRoundTrip(ies, fills);
  }

  /** An element that announces more than is left makes the whole container unacceptable. */
  lemma OverlongFails(pad: byte, ies: seq<Ie>, fills: seq<seq<byte>>, tail: seq<byte>)
    requires Padded(ies, fills) && Overlong(tail)
    ensures !IsImage(FwMagic() + [pad] + EncodeIes(ies, fills) + tail)
  {
    hide FwMagic;
    var data := FwMagic() + [pad] + EncodeIes(ies, fills) + tail;
    assert data[FW_START..] == EncodeIes(ies, fills) + tail;
    WalkEncoding(ies, fills, tail);
  }

  // ------------------------------------------------------------------------- boards

  function HexDigit(d: nat): byte
    requires d < 16
  {
    if d < 10 then 48 + d else 87 + d
  }

  /** Four lower-case digits, leading zeros kept. */
  function Hex4(w: u16): (t: seq<byte>)
    ensures |t| == 4
  {
    [HexDigit(w / 0x1000), HexDigit(w / 0x100 % 0x10), HexDigit(w / 0x10 % 0x10), HexDigit(w % 0x10)]
  }

  function NameHead(): (t: seq<byte>)
    ensures |t| == 49
  {
    Text("bus=pci,vendor=168c,") + Text("device=0042,") + Text("subsystem-vendor=")
  }

  function NameMiddle(): (t: seq<byte>)
    ensures |t| == 18
  {
    Text(",subsystem-device=")
  }

  /** Always 75 bytes, so the 96-byte buffer never truncates it. */
  function BoardName(vendor: u16, device: u16): (name: seq<byte>)
    ensures |name| == 75 < NAME_CAP
  {
    NameHead() + Hex4(vendor) + NameMiddle() + Hex4(device)
  }

  /** The value of a hexadecimal digit, lower case. */
  function DigitValue(b: byte): Option<nat> {
    if '0' as int <= b <= '9' as int then Some(b - '0' as int)
    else if 'a' as int <= b <= 'f' as int then Some(b - 'a' as int + 10)
    else None
  }

  /** The number a text spells in hexadecimal, most significant digit first. */
  function ReadHex(t: seq<byte>): Option<nat> {
    if t == [] then Some(0)
    else match (ReadHex(t[..|t| - 1]), DigitValue(t[|t| - 1]))
         case (Some(high), Some(d)) => Some(16 * high + d)
         case _ => None
  }

  lemma HexReads(w: u16)
    ensures ReadHex(Hex4(w)) == Some(w)
  {
    Digits(w);
    var t := Hex4(w);
    assert t[..3][..2] == t[..2] && t[..2][..1] == t[..1] && t[..1][..0] == [];
    assert ReadHex(t[..1]) == Some(w / 0x1000);
    assert ReadHex(t[..2]) == Some(16 * (w / 0x1000) + w / 0x100 % 0x10);
    assert ReadHex(t[..3]) == Some(16 * (16 * (w / 0x1000) + w / 0x100 % 0x10) + w / 0x10 % 0x10);
  }

  /** What a name says: the fixed text, the vendor, and the device, each in four lower-case digits. */
  lemma NameReads(vendor: u16, device: u16)
    ensures var name := BoardName(vendor, device);
            && name[..20] == Text("bus=pci,vendor=168c,") && name[20..32] == Text("device=0042,")
            && name[32..49] == Text("subsystem-vendor=")
            && ReadHex(name[49..53]) == Some(vendor)
            && name[53..71] == Text(",subsystem-device=")
            && ReadHex(name[71..75]) == Some(device)
  {
    hide Hex4, ReadHex, Text;
    HexReads(vendor);
    HexReads(device);
    var name := BoardName(vendor, device);
    var head := NameHead();
    assert name[..20] == head[..20] && name[20..32] == head[20..32] && name[32..49] == head[32..49];
    assert name[49..53] == Hex4(vendor);
    assert name[53..71] == NameMiddle() && name[71..75] == Hex4(device);
  }

  lemma HexInjective(v: u16, w: u16)
    requires Hex4(v) == Hex4(w)
    ensures v == w
  {
    var a, b := Hex4(v), Hex4(w);
    assert a[0] == b[0] && a[1] == b[1] && a[2] == b[2] && a[3] == b[3];
    Digits(v);
    Digits(w);
  }

  lemma Digits(w: u16)
    ensures w == 0x1000 * (w / 0x1000) + 0x100 * (w / 0x100 % 0x10) + 0x10 * (w / 0x10 % 0x10) + w % 0x10
  {
    assert w == 0x10 * (w / 0x10) + w % 0x10;
    assert w / 0x10 == 0x10 * (w / 0x100) + w / 0x10 % 0x10;
    assert w / 0x100 == 0x10 * (w / 0x1000) + w / 0x100 % 0x10;
  }

  /** Two cards share a name only if both ids agree. */
  lemma NameInjective(vendor: u16, device: u16, vendor': u16, device': u16)
    requires BoardName(vendor, device) == BoardName(vendor', device')
    ensures vendor == vendor' && device == device'
  {
    hide NameHead, NameMiddle, Hex4;
    var a, b := BoardName(vendor, device), BoardName(vendor', device');
    assert a[49..53] == Hex4(vendor) && b[49..53] == Hex4(vendor');
    assert a[71..75] == Hex4(device) && b[71..75] == Hex4(device');
    HexInjective(vendor, vendor');
    HexInjective(device, device');
  }

  /** The nearest name element before position k. */
  function NearestName(ies: seq<Ie>, k: nat): Option<seq<byte>>
    requires k <= |ies|
  {
    if k == 0 then None
    else if ies[k - 1].id == BD_NAME then Some(ies[k - 1].body)
    else NearestName(ies, k - 1)
  }

  /** Position k holds board data filed under this name. */
  predicate Hit(ies: seq<Ie>, k: nat, want: seq<byte>) {
    k < |ies| && ies[k].id == BD_DATA && NearestName(ies, k) == Some(want)
  }

  predicate IsBoardFile(board2: seq<byte>) {
    |board2| >= BOARD_START && board2[..17] == BoardMagic()
  }

  /** What the walk over a board file visits; a truncated element only ends it. */
  function Boards(board2: seq<byte>): seq<Ie> {
    if IsBoardFile(board2) then Walk(board2[BOARD_START..]).ies else []
  }

  /** The walk has visited the first k elements of `ies`, all there are before p. */
  predicate Visited(s: seq<byte>, p: nat, k: nat, ies: seq<Ie>) {
    k <= |ies| && WalkedTo(s, BOARD_START, p, ies[..k]) && ies == Walk(s[BOARD_START..]).ies
  }

  lemma NoneVisited(s: seq<byte>)
    requires |s| >= BOARD_START
    ensures Visited(s, BOARD_START, 0, Walk(s[BOARD_START..]).ies)
  {
    WalkStarts(s, BOARD_START);
    assert Walk(s[BOARD_START..]).ies[..0] == [];
  }

  /** One element further, or none left. */
  lemma VisitNext(s: seq<byte>, p: nat, k: nat, ies: seq<Ie>)
    requires Visited(s, p, k, ies)
    ensures if |s| < p + IE_HDR || |s| < p + IE_HDR + Get32(s, p + 4) then k == |ies|
            else
              var q := p + IE_HDR + RoundUp4(Get32(s, p + 4));
              && k < |ies| && ies[k] == IeAt(s, p)
              && if q > |s| then k + 1 == |ies| else Visited(s, q, k + 1, ies)
  {
    hide RoundUp4, Get32;
    if |s| < p + IE_HDR {
      WalkEnds(s, BOARD_START, p, ies[..k]);
    } else {
      WalkFrom(s, BOARD_START, p, ies[..k]);
      if p + IE_HDR + Get32(s, p + 4) <= |s| {
        var q := p + IE_HDR + RoundUp4(Get32(s, p + 4));
        assert ies[k] == (ies[..k] + [IeAt(s, p)])[k];
        assert ies[..k + 1] == ies[..k] + [IeAt(s, p)];
      }
    }
  }

  /** One turn over a board file: the k-th element, at p. */
  method BoardTurn(board2: seq<byte>, p: nat, want: seq<byte>, matched: bool, ghost k: nat, ghost ies: seq<Ie>)
    returns (turn: Turn, q: nat, nameMatch: bool, v: View)
    requires p + IE_HDR <= |board2| && p % 4 == 0 && Visited(board2, p, k, ies) && k <= |ies|
    requires matched <==> NearestName(ies, k) == Some(want)
    ensures if turn.Found? then Hit(ies, k, want) && ShowsBody(board2, v, Some(ies[k].body)) else !Hit(ies, k, want)
    ensures turn.Truncated? || turn.Ended? ==> |ies| <= k + 1
    ensures turn.More? ==> p + IE_HDR <= q <= |board2| && q % 4 == 0 && k < |ies| && Visited(board2, q, k + 1, ies)
    ensures turn.More? ==> (nameMatch <==> NearestName(ies, k + 1) == Some(want))
  {
    hide Visited, Get32, RoundUp4;
    q, nameMatch, v := p + IE_HDR, matched, Absent;
    var id, n := Get32(board2, p), Get32(board2, p + 4);
    VisitNext(board2, p, k, ies);
    if |board2| - q < n {
      return Truncated, q, nameMatch, v;
    }
    if id == BD_NAME {
      nameMatch := n == |want| && board2[q..q + n] == want;
    } else if id == BD_DATA && nameMatch {
      return Found, q, nameMatch, At(q, n);
    }
    var pad := RoundUp4(n);
    turn, q := if pad > |board2| - q then Ended else More, q + pad;
  }

  /**
   Finds the first board data filed under this card's name, whenever there is one. `escaped` is
   set where the code reads past the file's end: exactly on the magic with less than its padding.
   */
  method SelectBoard(board2: seq<byte>, vendor: u16, device: u16)
    returns (found: bool, v: View, escaped: bool, ghost k: nat)
    requires |board2| < 0x1_0000_0000
    ensures escaped <==> 17 <= |board2| < BOARD_START && board2[..17] == BoardMagic()
    ensures var ies, want := Boards(board2), BoardName(vendor, device);
            !escaped ==>
              if found
              then Hit(ies, k, want) && ShowsBody(board2, v, Some(ies[k].body)) && forall j: nat | j < k :: !Hit(ies, j, want)
              else forall j: nat :: !Hit(ies, j, want)
  {
    hide Walk, Visited, NearestName, BoardMagic, BoardName, ShowsBody;
    found, v, k := false, Absent, 0;
    var ok;
    ok, escaped := CheckMagic(board2, BoardMagic(), BOARD_START);
    if !ok {
      return;
    }
    var p, len := BOARD_START, |board2| - BOARD_START;
    var want := BoardName(vendor, device);
    var nameMatch := false;
    ghost var ies := Boards(board2);
    NoneVisited(board2);
    NoneNamed(ies);
    while len >= IE_HDR
      invariant 0 <= len && p + len == |board2| && p % 4 == 0
      invariant Visited(board2, p, k, ies) && k <= |ies|
      invariant nameMatch <==> NearestName(ies, k) == Some(want)
      invariant forall j: nat | j < k :: !Hit(ies, j, want)
    {
      var turn;
      turn, p, nameMatch, v := BoardTurn(board2, p, want, nameMatch, k, ies);
      if turn != More {
        found := turn == Found;
        return;
      }
      k, len := k + 1, |board2| - p;
    }
    VisitNext(board2, p, k, ies);
  }

  lemma NoneNamed(ies: seq<Ie>)
    ensures NearestName(ies, 0) == None
  {
  }

  /** A flat file of any elements is walked whole, so its first such board data is found. */
  lemma FlatFileRoundTrip(gap: seq<byte>, ies: seq<Ie>, fills: seq<seq<byte>>)
    requires |gap| == BOARD_START - 17 && PaddedButLast(ies, fills)
    ensures Boards(BoardMagic() + gap + EncodeIes(ies, fills)) == ies
  {
    hide BoardMagic, Walk;
    var board2 := BoardMagic() + gap + EncodeIes(ies, fills);
    assert board2[BOARD_START..] == EncodeIes(ies, fills) && board2[..17] == BoardMagic();
    WalkRoundTrip(ies, fills);
  }

  /** Data filed right after its name is a hit. */
  lemma NameThenData(ies: seq<Ie>, k: nat, want: seq<byte>)
    requires k + 1 < |ies| && ies[k] == Ie(BD_NAME, want) && ies[k + 1].id == BD_DATA
    ensures Hit(ies, k + 1, want)
  {
    assert NearestName(ies, k + 1) == Some(want);
  }

  /**
   Any flat file that holds this card's name directly before a data element, whatever else it
   holds, yields board data: that element's, or an earlier one's under the same name.
   */
  method SelectFromFlatFile(gap: seq<byte>, ies: seq<Ie>, fills: seq<seq<byte>>, vendor: u16, device: u16, at: nat)
    returns (found: bool, v: View, ghost k: nat)
    requires |gap| == BOARD_START - 17 && PaddedButLast(ies, fills)
    requires |BoardMagic() + gap + EncodeIes(ies, fills)| < 0x1_0000_0000
    requires at + 1 < |ies| && ies[at] == Ie(0, BoardName(vendor, device)) && ies[at + 1].id == 1
    ensures found && k <= at + 1 && Hit(ies, k, BoardName(vendor, device))
    ensures ShowsBody(BoardMagic() + gap + EncodeIes(ies, fills), v, Some(ies[k].body))
  {
    hide BoardMagic, BoardName, EncodeIes;
    FlatFileRoundTrip(gap, ies, fills);
    NameThenData(ies, at, BoardName(vendor, device));
    var escaped;
    found, v, escaped, k := SelectBoard(BoardMagic() + gap + EncodeIes(ies, fills), vendor, device);
  }

  /**
   A nested file, each board wrapped in an element of id 0 with its name and data inside, is
   walked as its wrappers alone: no board in it is ever found, whatever the wrappers hold.
   */
  lemma NestedNeverFound(gap: seq<byte>, wrappers: seq<Ie>, fills: seq<seq<byte>>, want: seq<byte>)
    requires |gap| == BOARD_START - 17 && PaddedButLast(wrappers, fills) && forall w | w in wrappers :: w.id == 0
    ensures forall k: nat :: !Hit(Boards(BoardMagic() + gap + EncodeIes(wrappers, fills)), k, want)
  {
    FlatFileRoundTrip(gap, wrappers, fills);
  }
}
