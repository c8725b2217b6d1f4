/** The WMI boot handshake: SERVICE_READY, then INIT, then READY. */
module Wmi {
  import opened Bytes
  import opened Common
  import opened Rings
  import opened CopyPair
  import Tlv
  import H = Htc
  import WmiInit

  const EVT_SERVICE_READY: nat := 1
  const EVT_READY: nat := 2
  const TAG_ARRAY_U32: nat := 16
  const TAG_SVC_READY: nat := 32
  const TAG_READY: nat := 35
  const MAX_TAG: nat := 128
  const EVENT_BUF: nat := 2048
  const READY_TRIES: nat := 5

  // ------------------------------------------------------------------------------ events

  /** The event id, in the low 24 bits of the first word. */
  function EventId(e: seq<byte>): nat
    requires |e| >= 4
  {
    Get32(e, 0) % 0x100_0000
  }

  /** The top byte of the word does not matter. */
  lemma EventIdReads(id: nat, top: byte, body: seq<byte>)
    requires id < 0x100_0000
    ensures EventId(Le32(id + 0x100_0000 * top) + body) == id
  {
    hide Get32, Le32;
    var w := id + 0x100_0000 * top;
    assert (Le32(w) + body)[0..4] == Le32(w);
    Get32OfLe32(Le32(w) + body, 0, w);
  }

  /** The value of the last record with this tag, if the stream tiles and has one. */
  function Field(p: seq<byte>, tag: nat): Option<seq<byte>> {
    match Tlv.Parse(p)
    case None => None
    case Some(recs) => Tlv.LastOf(recs, tag)
  }

  function Word(s: seq<byte>, off: nat): u32 {
    if off + 4 <= |s| then Get32(s, off) else 0
  }

  /** A SERVICE_READY body: the fixed struct, and a service bitmap of whole words. */
  predicate HasServiceStruct(p: seq<byte>) {
    Field(p, TAG_SVC_READY).Some? && |Field(p, TAG_SVC_READY).value| >= 76
  }

  predicate HasBitmap(p: seq<byte>) {
    && Field(p, TAG_ARRAY_U32).Some?
    && |Field(p, TAG_ARRAY_U32).value| >= 4 && |Field(p, TAG_ARRAY_U32).value| % 4 == 0
  }

  predicate HasReadyStruct(p: seq<byte>) {
    Field(p, TAG_READY).Some? && |Field(p, TAG_READY).value| >= 36
  }

  /** A well-formed SERVICE_READY event. */
  predicate ServiceReady(e: seq<byte>) {
    |e| >= 4 && EventId(e) == EVT_SERVICE_READY && HasServiceStruct(e[4..]) && HasBitmap(e[4..])
  }

  /** A well-formed SERVICE_READY that names a firmware build or an ABI version. */
  predicate Announces(e: seq<byte>) {
    && ServiceReady(e)
    && (Word(Field(e[4..], TAG_SVC_READY).value, 0) != 0 || Word(Field(e[4..], TAG_SVC_READY).value, 4) != 0)
  }

  predicate Ready(e: seq<byte>) {
    |e| >= 4 && EventId(e) == EVT_READY && HasReadyStruct(e[4..])
  }

  /** Events the wait for SERVICE_READY passes over. */
  predicate SkippedBefore(e: seq<byte>) {
    |e| >= 4 && (EventId(e) == EVT_SERVICE_READY ==> ServiceReady(e) && !Announces(e))
  }

  /** Events that fail the wait for SERVICE_READY: too short, or a malformed one. */
  predicate RejectedBefore(e: seq<byte>) {
    |e| < 4 || (EventId(e) == EVT_SERVICE_READY && !ServiceReady(e))
  }

  lemma Apart(e: seq<byte>)
    ensures Announces(e) ==> |e| >= 4 && !SkippedBefore(e) && !RejectedBefore(e)
  {
  }

  /** Events that fail the wait for READY. */
  predicate RejectedAfter(e: seq<byte>) {
    |e| < 4 || (EventId(e) == EVT_READY && !Ready(e))
  }

  /** Events the wait for READY passes over. */
  predicate SkippedAfter(e: seq<byte>) {
    |e| >= 4 && EventId(e) != EVT_READY
  }

  /**
   A SERVICE_READY as a target sends it, event 1 with the fixed struct under tag 32 and a bitmap
   of whole words under tag 16, is accepted; it announces the firmware if either of the struct's
   first two words is not 0.
   */
  lemma TargetServiceReady(top: byte, fixed: seq<byte>, bitmap: seq<byte>)
    requires 76 <= |fixed| < 0x1_0000 && 4 <= |bitmap| < 0x1_0000 && |bitmap| % 4 == 0
    ensures var e := Le32(1 + 0x100_0000 * top) + Tlv.Encode([Tlv.Rec(32, fixed), Tlv.Rec(16, bitmap)]);
            && ServiceReady(e) && Field(e[4..], 32) == Some(fixed)
            && (Announces(e) <==> Get32(fixed, 0) != 0 || Get32(fixed, 4) != 0)
  {
    hide Le32, Get32, Tlv.Encode, Tlv.Parse, Tlv.LastOf;
    var rs := [Tlv.Rec(32, fixed), Tlv.Rec(16, bitmap)];
    var p := Tlv.Encode(rs);
    EventIdReads(1, top, p);
    assert (Le32(1 + 0x100_0000 * top) + p)[4..] == p;
    Tlv.ParseIffTiles(p, rs);
    Tlv.LastOfUnique(rs, 0);
    Tlv.LastOfUnique(rs, 1);
  }

  /** A READY, event 2 with its struct under tag 35, is accepted; bytes 24 to 29 are the MAC address. */
  lemma TargetReady(top: byte, body: seq<byte>)
    requires 36 <= |body| < 0x1_0000
    ensures var e := Le32(2 + 0x100_0000 * top) + Tlv.Encode([Tlv.Rec(35, body)]);
            Ready(e) && Field(e[4..], 35) == Some(body)
  {
    hide Le32, Get32, Tlv.Encode, Tlv.Parse, Tlv.LastOf;
    var rs := [Tlv.Rec(35, body)];
    var p := Tlv.Encode(rs);
    EventIdReads(2, top, p);
    assert (Le32(2 + 0x100_0000 * top) + p)[4..] == p;
    Tlv.ParseIffTiles(p, rs);
    Tlv.LastOfUnique(rs, 0);
  }

  /** The event a frame carries for the WMI layer; empty if HTC rejects it. */
  function Event(m: seq<byte>, eid: byte): seq<byte> {
    H.Delivered(m, eid, 2048)
  }

  /** The INIT frame, decoded by the receiver's framing and parser, gives back both structs. */
  lemma SentInitParses(config: seq<u32>, eid: byte, seqNo: byte, room: nat)
    requires |config| == WmiInit.CONFIG_WORDS && room >= H.MAX_PAYLOAD
    ensures |WmiInit.InitPayload(config)| == WmiInit.INIT_LEN
    ensures var p := H.Delivered(H.WmiFrame(eid, seqNo, WmiInit.InitPayload(config)), eid, room);
            && |p| == 232 && Get32(p, 0) == 1
            && Field(p[4..], 74) == Some(Words(WmiInit.INIT_WORDS)) && Field(p[4..], 75) == Some(Words(config))
            && Field(p[4..], 18) == Some([])
  {
    hide WmiInit.InitPayload, H.WmiFrame, H.Delivered, Tlv.Parse, Tlv.LastOf, Words;
    WmiInit.InitParses(config);
    WmiInit.InitStarts(config);
    H.SentFrameRoundTrip(eid, seqNo, WmiInit.InitPayload(config), room);
  }

  /** The table lookup the parsers make. */
  lemma ViewIsField(tb: seq<View>, p: seq<byte>, tag: nat)
    requires Tlv.Parse(p).Some? && Tlv.Shows(tb, p, Tlv.Parse(p).value) && tag < |tb|
    ensures tb[tag].Absent? <==> Field(p, tag).None?
    ensures tb[tag].At? ==> && tb[tag].off + tb[tag].len <= |p|
                            && Field(p, tag) == Some(p[tb[tag].off..tb[tag].off + tb[tag].len])
  {
    assert Tlv.EntryShows(tb[tag], p, Tlv.LastOf(Tlv.Parse(p).value, tag));
  }

  // --------------------------------------------------------------------------- the layer

  class Wmi {
    const htc: H.Htc
    const config: seq<u32>
    var fwBuild: u32
    var phyCapab: u32
    var numRfChains: u32
    var numMemReqs: u32
    var abi: seq<u32>
    var mac: seq<byte>

    ghost predicate Valid()
      reads this, htc, htc.wmi.repr
      ensures Valid() ==> htc.Valid() && htc.wmi.Valid()
    {
      htc.Valid() && this !in htc.wmi.repr && |config| == WmiInit.CONFIG_WORDS && |abi| == 6 && |mac| == 6
    }

    /** No SERVICE_READY has been recorded yet. */
    predicate Fresh()
      reads this
    {
      |abi| == 6 && fwBuild == 0 && abi[0] == 0
    }

    constructor (htc: H.Htc, config: seq<u32>)
      requires htc.Valid() && |config| == WmiInit.CONFIG_WORDS
      ensures Valid() && fresh(this) && Fresh() && this.htc == htc && this.config == config
      ensures fwBuild == phyCapab == numRfChains == numMemReqs == 0 && abi == mac == [0, 0, 0, 0, 0, 0]
    {
      this.htc, this.config := htc, config;
      fwBuild, phyCapab, numRfChains, numMemReqs := 0, 0, 0, 0;
      abi, mac := [0, 0, 0, 0, 0, 0], [0, 0, 0, 0, 0, 0];
    }

    /** Records the struct's fields even when the bitmap then turns out bad. */
    method ParseServiceReady(p: seq<byte>) returns (ok: bool)
      modifies this
      ensures ok <==> HasServiceStruct(p) && HasBitmap(p)
      ensures mac == old(mac)
      ensures if HasServiceStruct(p)
              then var ev := Field(p, TAG_SVC_READY).value;
                   && fwBuild == Word(ev, 0) && phyCapab == Word(ev, 28)
                   && numRfChains == Word(ev, 36) && numMemReqs == Word(ev, 72)
                   && |abi| == 6 && forall i | 0 <= i < 6 :: abi[i] == Word(ev, 4 + 4 * i)
              else fwBuild == old(fwBuild) && abi == old(abi)
    {
      hide Tlv.Parse, Tlv.LastOf, Tlv.Shows;
      var tb := new View[MAX_TAG](_ => Absent);
      ok := Tlv.TlvParse(p, tb);
      if !ok {
        return;
      }
      ViewIsField(tb[..], p, TAG_SVC_READY);
      ViewIsField(tb[..], p, TAG_ARRAY_U32);
      var v := tb[TAG_SVC_READY];
      if v.Absent? || v.len < 76 {
        return false;
      }
      var ev := p[v.off..v.off + v.len];
      fwBuild := Word(ev, 0);
      abi := seq(6, i requires 0 <= i < 6 => Word(ev, 4 + 4 * i));
      phyCapab, numRfChains, numMemReqs := Word(ev, 28), Word(ev, 36), Word(ev, 72);
      var bmap := tb[TAG_ARRAY_U32];
      ok := bmap.At? && bmap.len >= 4 && bmap.len % 4 == 0;
    }

    method ParseReady(p: seq<byte>) returns (ok: bool)
      modifies `abi, `mac
      ensures ok <==> HasReadyStruct(p)
      ensures ok ==> var ev := Field(p, TAG_READY).value;
                     && |abi| == 6 && (forall i | 0 <= i < 6 :: abi[i] == Word(ev, 4 * i))
                     && |ev| >= 36 && mac == ev[24..30]
      ensures !ok ==> abi == old(abi) && mac == old(mac)
    {
      hide Tlv.Parse, Tlv.LastOf, Tlv.Shows;
      var tb := new View[MAX_TAG](_ => Absent);
      ok := Tlv.TlvParse(p, tb);
      if !ok {
        return;
      }
      ViewIsField(tb[..], p, TAG_READY);
      var v := tb[TAG_READY];
      if v.Absent? || v.len < 36 {
        return false;
      }
      var ev := p[v.off..v.off + v.len];
      abi := seq(6, i requires 0 <= i < 6 => Word(ev, 4 * i));
      mac := ev[24..30];
    }

    /** The frame `SendInit` puts on the ring. */
    ghost function InitFrame(seqNo: byte): seq<byte>
      requires |config| == WmiInit.CONFIG_WORDS
      reads htc
    {
      WmiInit.InitParses(config);
      H.WmiFrame(htc.wmiEid, seqNo, WmiInit.InitPayload(config))
    }

    method SendInit() returns (ok: bool, trapped: bool)
      requires Valid()
      modifies htc, htc.wmi.repr
      ensures Valid() && htc.wmiEid == old(htc.wmiEid) && htc.creditSize == old(htc.creditSize)
      ensures htc.granted == old(htc.granted) && htc.wmi.dst.Remaining() == old(htc.wmi.dst.Remaining())
      ensures old(htc.wmi.Outstanding()) == 1 ==> htc.wmi.Outstanding() == 1
      ensures || htc.wmi.log == old(htc.wmi.log)
              || htc.wmi.log == old(htc.wmi.log) + [Rang(InitFrame(old(htc.wmiSeq)))]
      ensures trapped <==> htc.wmiEid != H.NOT_CONNECTED && htc.creditSize == 0
      ensures trapped ==> !ok && htc.wmi.log == old(htc.wmi.log)
      ensures ok <==> htc.wmi.log != old(htc.wmi.log) && htc.wmi.src.hw.taken == htc.wmi.src.rung
      ensures old(htc.wmiEid != H.NOT_CONNECTED && htc.creditSize > 0 && htc.wmi.src.hw.taken == htc.wmi.src.rung
                  && htc.wmiCredits >= H.Needed(WmiInit.INIT_LEN, htc.creditSize))
              ==> htc.wmi.log != old(htc.wmi.log)
      ensures htc.charged == old(htc.charged) + (if ok then H.Needed(WmiInit.INIT_LEN, htc.creditSize) else 0)
    {
      hide CECopyPair.Valid, H.Htc.Ledger, H.WmiFrame, H.Needed, WmiInit.InitPayload, DestRing.Remaining;
      WmiInit.InitParses(config);
      var buf := WmiInit.BuildInit(config);
      ok, trapped := htc.SendWmi(buf[..]);
    }

    /** One event of phase 1: it is passed over, or it ends the wait, or it fails it. */
    method ServiceEvent(e: seq<byte>) returns (ok: bool)
      requires |e| >= 4 && Fresh()
      modifies this
      ensures mac == old(mac) && |abi| == 6 && (ok <==> !RejectedBefore(e))
      ensures ok ==> (Fresh() ==> SkippedBefore(e)) && (!Fresh() ==> Announces(e))
    {
      hide Field;
      ok := true;
      if EventId(e) == EVT_SERVICE_READY {
        ok := ParseServiceReady(e[4..]);
      }
    }

    /**
     Phase 1: takes events until one announces the service. It fails on an event it rejects, or
     if a receive takes nothing; `waited` is then how long that one polled: the caller's budget
     for the first event, ten seconds for any later one.
     */
    method AwaitService(timeoutMs: u32, buf: array<byte>)
      returns (ok: bool, ghost before: seq<seq<byte>>, ghost waited: Option<nat>)
      requires Valid() && buf.Length == EVENT_BUF && buf !in htc.wmi.repr
      modifies this, htc`wmiCredits, htc`granted, htc`peak, htc.wmi.repr, buf
      ensures Valid() && mac == old(mac)
      ensures htc.wmi.log == old(htc.wmi.log) + H.TookAll(before)
      ensures htc.wmi.src.rung == old(htc.wmi.src.rung)
      ensures old(htc.wmi.Outstanding()) == 1 ==> htc.wmi.Outstanding() == if EndsShort(before) then 0 else 1
      ensures ok ==> !Fresh() && !EndsShort(before)
      ensures !old(Fresh()) ==> ok && before == []
      ensures old(Fresh()) ==> (ok <==> before != [] && Announces(Event(before[|before| - 1], htc.wmiEid)))
      ensures forall i | 0 <= i < |before| - 1 :: SkippedBefore(Event(before[i], htc.wmiEid))
      ensures waited.Some? ==> !ok && waited.value == PollBudget(if before == [] then timeoutMs else EXCHANGE_TIMEOUT_MS)
      ensures !ok && waited.None? ==> before != [] && RejectedBefore(Event(before[|before| - 1], htc.wmiEid))
    {
      hide CECopyPair.Valid, H.Htc.Ledger, H.TookAll, H.ReportedBy, H.Delivered, DestRing.Remaining, DestRing.Shape;
      hide Announces, SkippedBefore, HasServiceStruct, HasBitmap, Field, EventId;
      before, waited := [], None;
      htc.TookAllEmpty();
      assert htc.wmi.log == old(htc.wmi.log) + H.TookAll(before);
      var budget := timeoutMs;
      while Fresh()
        invariant Valid() && mac == old(mac) && htc.wmi.src.rung == old(htc.wmi.src.rung)
        invariant htc.wmi.log == old(htc.wmi.log) + H.TookAll(before)
        invariant !old(Fresh()) ==> !Fresh() && before == []
        invariant old(htc.wmi.Outstanding()) == 1 ==> htc.wmi.Outstanding() == 1
        invariant !EndsShort(before)
        invariant waited.None? && budget == if before == [] then timeoutMs else EXCHANGE_TIMEOUT_MS
        invariant Fresh() ==> forall i | 0 <= i < |before| :: SkippedBefore(Event(before[i], htc.wmiEid))
        invariant !Fresh() && old(Fresh()) ==> before != [] && Announces(Event(before[|before| - 1], htc.wmiEid))
        invariant forall i | 0 <= i < |before| - 1 :: SkippedBefore(Event(before[i], htc.wmiEid))
        decreases htc.wmi.dst.Remaining()
      {
        ghost var polls;
        var n;
        n, polls := htc.RecvWmi(buf, budget);
        ghost var m := htc.wmi.Newest();
        if htc.wmi.log != old(htc.wmi.log) + H.TookAll(before) {
          H.TookAllAppend(before, m);
          before := before + [m];
        } else {
          waited := Some(polls);
        }
        if n < 4 {
          if before != [] { Apart(Event(before[|before| - 1], htc.wmiEid)); }
          return false, before, waited;
        }
        htc.ArmRecv();
        budget := EXCHANGE_TIMEOUT_MS;
        ok := ServiceEvent(buf[..n]);
        if !ok {
          Apart(Event(m, htc.wmiEid));
          return;
        }
      }
      ok := true;
    }

    /** The last of these frames carries no event of four bytes or more. */
    ghost predicate EndsShort(taken: seq<seq<byte>>)
      reads htc
    {
      taken != [] && |Event(taken[|taken| - 1], htc.wmiEid)| < 4
    }

    /** Phase 3: takes at most five events; READY must be among them. */
    method AwaitReady(buf: array<byte>) returns (ok: bool, ghost after: seq<seq<byte>>, ghost waited: Option<nat>)
      requires Valid() && buf.Length == EVENT_BUF && buf !in htc.wmi.repr
      modifies this, htc`wmiCredits, htc`granted, htc`peak, htc.wmi.repr, buf
      ensures Valid() && |after| <= READY_TRIES
      ensures htc.wmi.log == old(htc.wmi.log) + H.TookAll(after)
      ensures old(htc.wmi.Outstanding()) == 1 ==> htc.wmi.Outstanding() == if EndsShort(after) then 0 else 1
      ensures ok <==> after != [] && Ready(Event(after[|after| - 1], htc.wmiEid))
      ensures if ok then ReadyWithMac(Event(after[|after| - 1], htc.wmiEid)) else mac == old(mac)
      ensures forall i | 0 <= i < |after| - 1 :: SkippedAfter(Event(after[i], htc.wmiEid))
      ensures waited.Some? ==> !ok && waited.value == PollBudget(EXCHANGE_TIMEOUT_MS) && |after| < READY_TRIES
      ensures !ok && waited.None? ==>
                after != [] && var e := Event(after[|after| - 1], htc.wmiEid);
                               RejectedAfter(e) || (|after| == READY_TRIES && SkippedAfter(e))
    {
      hide CECopyPair.Valid, H.Htc.Ledger, H.TookAll, H.ReportedBy, H.Delivered, DestRing.Remaining, DestRing.Shape;
      hide HasReadyStruct, Field, EventId;
      after, waited := [], None;
      htc.TookAllEmpty();
      assert htc.wmi.log == old(htc.wmi.log) + H.TookAll(after);
      for tries := 0 to READY_TRIES
        invariant old(htc.wmi.Outstanding()) == 1 ==> htc.wmi.Outstanding() == 1 && !EndsShort(after)
        invariant Valid() && |after| == tries && mac == old(mac) && waited.None?
        invariant htc.wmi.log == old(htc.wmi.log) + H.TookAll(after)
        invariant forall i | 0 <= i < |after| :: SkippedAfter(Event(after[i], htc.wmiEid))
      {
        ghost var polls;
        var n;
        n, polls := htc.RecvWmi(buf, EXCHANGE_TIMEOUT_MS);
        ghost var m := htc.wmi.Newest();
        if htc.wmi.log != old(htc.wmi.log) + H.TookAll(after) {
          H.TookAllAppend(after, m);
          after := after + [m];
        } else {
          waited := Some(polls);
        }
        if n < 4 {
          return false, after, waited;
        }
        htc.ArmRecv();
        var e := buf[..n];
        if EventId(e) == EVT_READY {
          ok := ParseReady(e[4..]);
          return;
        }
      }
      ok := false;
    }

    /** A well-formed READY whose bytes are the recorded MAC address. */
    ghost predicate ReadyWithMac(e: seq<byte>)
      reads this
    {
      Ready(e) && mac == Field(e[4..], TAG_READY).value[24..30]
    }

    /** SERVICE_READY was recorded earlier, or the last of these frames announces it. */
    ghost predicate Announced(fresh0: bool, before: seq<seq<byte>>)
      reads htc
    {
      !fresh0 || (before != [] && Announces(Event(before[|before| - 1], htc.wmiEid)))
    }

    /**
     The whole handshake. `before` and `after` are the frames taken before and after INIT.

     From a fresh state, INIT is rung only after a SERVICE_READY that announces the firmware,
     and at most once. It succeeds exactly if: skipped events, that SERVICE_READY, one INIT that was
     sent and charged, at most four skipped events, and a READY, which carries the MAC. `trapped` is
     set where INIT is due and the credit size is zero. A failure that is not a rejected event, an
     INIT not sent, or a fifth skipped event has polled a whole budget in vain (`waited`). The
     receive buffer is posted all along, save after a frame without an event in it.
     */
    method WaitServiceAndReady(timeoutMs: u32)
      returns (ok: bool, trapped: bool, ghost before: seq<seq<byte>>, ghost rang: bool, ghost sent: bool,
               ghost after: seq<seq<byte>>, ghost waited: Option<nat>)
      requires Valid()
      modifies this, htc, htc.wmi.repr
      ensures Valid() && htc.wmiEid == old(htc.wmiEid)
      ensures htc.wmi.log == old(htc.wmi.log) + H.TookAll(before)
                             + (if rang then [Rang(InitFrame(old(htc.wmiSeq)))] else []) + H.TookAll(after)
      ensures rang || trapped ==> Announced(old(Fresh()), before)
      ensures (sent ==> rang) && (!sent ==> !ok && after == [])
      ensures htc.charged == old(htc.charged) + if sent then H.Needed(WmiInit.INIT_LEN, htc.creditSize) else 0
      ensures trapped <==> Announced(old(Fresh()), before) && htc.wmiEid != H.NOT_CONNECTED && htc.creditSize == 0
      ensures trapped ==> !rang
      ensures |after| <= 5 && (!old(Fresh()) ==> before == [])
      ensures htc.wmi.Outstanding() == if EndsShort(if after == [] then before else after) then 0 else 1
      ensures forall i | 0 <= i < |before| - 1 :: SkippedBefore(Event(before[i], htc.wmiEid))
      ensures forall i | 0 <= i < |after| - 1 :: SkippedAfter(Event(after[i], htc.wmiEid))
      ensures ok <==> sent && after != [] && Ready(Event(after[|after| - 1], htc.wmiEid))
      ensures ok ==> ReadyWithMac(Event(after[|after| - 1], htc.wmiEid))
      ensures waited.Some? ==>
                !ok && waited.value == PollBudget(if !sent && before == [] then timeoutMs else 10000)
      ensures !ok && waited.None? && !sent ==>
                Announced(old(Fresh()), before) || (before != [] && RejectedBefore(Event(before[|before| - 1], htc.wmiEid)))
      ensures !ok && waited.None? && sent ==>
                after != [] && var e := Event(after[|after| - 1], htc.wmiEid);
                               RejectedAfter(e) || (|after| == 5 && SkippedAfter(e))
    {
      hide CECopyPair.Valid, H.Htc.Ledger, H.TookAll, H.Delivered, H.WmiFrame, H.Needed, DestRing.Remaining;
      hide Announces, SkippedBefore, SkippedAfter, RejectedBefore, RejectedAfter, Ready, Field, WmiInit.InitPayload;
      trapped, before, rang, sent, after, waited := false, [], false, false, [], None;
      htc.TookAllEmpty();
      var buf := new byte[EVENT_BUF](_ => 0);
      htc.ArmRecv();
      ok, before, waited := AwaitService(timeoutMs, buf);
      if !ok {
        return;
      }
      ghost var seqNo, was := htc.wmiSeq, htc.wmi.log;
      ok, trapped := SendInit();
      rang, sent := htc.wmi.log != was, ok;
      if !ok {
        return;
      }
      ok, after, waited := AwaitReady(buf);
    }
  }
}
