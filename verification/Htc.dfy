/** Host-Target Communications: framing, credit flow control, and the connect handshake. */
module Htc {
  import opened Bytes
  import opened Rings
  import opened CopyPair
  import Trailer

  const HDR: nat := 8
  const MAX_PAYLOAD: nat := 2040
  const NOT_CONNECTED: byte := 0xFF
  const TX_NEED_CREDIT_UPDATE: byte := 1
  const SVC_WMI_CONTROL: u16 := 0x0100
  const MSG_READY: u16 := 1
  const MSG_CONNECT: u16 := 2
  const MSG_CONNECT_RESP: u16 := 3
  const CONN_DISABLE_CREDIT_FLOW: u16 := 8

  // ------------------------------------------------------------------------------ frames

  /** The frame `SendWmi` rings for a payload. */
  function WmiFrame(eid: byte, seqNo: byte, payload: seq<byte>): (f: seq<byte>)
    requires |payload| <= MAX_PAYLOAD
    ensures |f| == HDR + |payload|
  {
    [eid, TX_NEED_CREDIT_UPDATE] + Le16(|payload|) + [0, seqNo, 0, 0] + payload
  }

  /** How a receiver reads it: for that endpoint and no other, asking for a credit update. */
  lemma WmiFrameReads(eid: byte, seqNo: byte, payload: seq<byte>)
    requires |payload| <= MAX_PAYLOAD
    ensures var m := WmiFrame(eid, seqNo, payload);
            && Accepted(m, eid) && (forall other: byte | Accepted(m, other) :: eid == 0 || other == eid)
            && m[1] % 2 == 1 && m[1] / 2 == 0
            && BodyLen(m) == |payload| && m[4] == 0 && m[5] == seqNo && m[6] == m[7] == 0
  {
    var m := WmiFrame(eid, seqNo, payload);
    assert m[2] == Le16(|payload|)[0] && m[3] == Le16(|payload|)[1];
  }

  function BodyLen(m: seq<byte>): nat
    requires |m| >= HDR
  {
    Get16(m, 2)
  }

  /** The checks a received frame passes before anything in it is used. */
  predicate Accepted(m: seq<byte>, eid: byte) {
    && |m| >= HDR
    && (m[0] == eid || m[0] == 0)
    && HDR + BodyLen(m) <= |m|
    && m[4] <= BodyLen(m)
  }

  function Payload(m: seq<byte>, eid: byte): seq<byte>
    requires Accepted(m, eid)
  {
    m[HDR..HDR + BodyLen(m) - m[4]]
  }

  function TrailerOf(m: seq<byte>, eid: byte): seq<byte>
    requires Accepted(m, eid)
  {
    m[HDR + BodyLen(m) - m[4]..HDR + BodyLen(m)]
  }

  /** Bit 1 of the flags says a trailer is present. */
  predicate HasTrailer(m: seq<byte>)
    requires |m| >= HDR
  {
    m[4] > 0 && m[1] / 2 % 2 == 1
  }

  /** Credits a frame reports for endpoint `eid`. */
  function ReportedBy(m: seq<byte>, eid: byte): nat {
    if Accepted(m, eid) && HasTrailer(m) then Trailer.Reported(TrailerOf(m, eid), eid) else 0
  }

  /** What the caller of `RecvWmi` gets: the payload if it is non-empty and fits. */
  function Delivered(m: seq<byte>, eid: byte, room: nat): seq<byte> {
    if Accepted(m, eid) && |Payload(m, eid)| <= room then Payload(m, eid) else []
  }

  /** Payload and trailer partition the declared body of every accepted frame. */
  lemma PayloadAndTrailerPartition(m: seq<byte>, eid: byte)
    requires Accepted(m, eid)
    ensures Payload(m, eid) + TrailerOf(m, eid) == m[HDR..][..BodyLen(m)]
  {
  }

  /** A frame as the target may build it: any flags, payload and trailer. */
  function TargetFrame(eid: byte, flags: byte, payload: seq<byte>, trailer: seq<byte>, slack: seq<byte>): seq<byte>
    requires |trailer| < 0x100 && |payload| + |trailer| < 0x1_0000
  {
    [eid, flags] + Le16(|payload| + |trailer|) + [|trailer|, 0, 0, 0] + payload + trailer + slack
  }

  lemma DecodesTargetFrame(eid: byte, flags: byte, payload: seq<byte>, trailer: seq<byte>, slack: seq<byte>)
    requires |trailer| < 0x100 && |payload| + |trailer| < 0x1_0000
    ensures var m := TargetFrame(eid, flags, payload, trailer, slack);
            Accepted(m, eid) && Payload(m, eid) == payload && TrailerOf(m, eid) == trailer
  {
    var m := TargetFrame(eid, flags, payload, trailer, slack);
    assert m[2..4] == Le16(|payload| + |trailer|);
    assert m[2] == Le16(|payload| + |trailer|)[0] && m[3] == Le16(|payload| + |trailer|)[1];
    assert BodyLen(m) == |payload| + |trailer|;
    assert m[HDR..HDR + |payload|] == payload;
    assert m[HDR + |payload|..HDR + |payload| + |trailer|] == trailer;
  }

  /** Its credits count exactly if bit 1 of the flags announces the trailer. */
  lemma TargetCredits(eid: byte, flags: byte, payload: seq<byte>, trailer: seq<byte>, slack: seq<byte>)
    requires |trailer| < 0x100 && |payload| + |trailer| < 0x1_0000
    ensures ReportedBy(TargetFrame(eid, flags, payload, trailer, slack), eid) ==
            if flags / 2 % 2 == 1 then Trailer.Reported(trailer, eid) else 0
  {
    hide Trailer.Reported, Trailer.StartsWithRecord;
    DecodesTargetFrame(eid, flags, payload, trailer, slack);
    if trailer == [] { NoRecords(eid); }
  }

  lemma NoRecords(eid: byte)
    ensures Trailer.Reported([], eid) == 0
  {
  }

  /** Every payload the host may send fits the ring's buffer, and decodes to itself. */
  lemma SentFrameRoundTrip(eid: byte, seqNo: byte, payload: seq<byte>, room: nat)
    requires 1 <= |payload| <= MAX_PAYLOAD <= room
    ensures |WmiFrame(eid, seqNo, payload)| <= TX_BUF_SZ
    ensures Delivered(WmiFrame(eid, seqNo, payload), eid, room) == payload
    ensures ReportedBy(WmiFrame(eid, seqNo, payload), eid) == 0
  {
    var m := WmiFrame(eid, seqNo, payload);
    assert m[2] == Le16(|payload|)[0] && m[3] == Le16(|payload|)[1];
    assert BodyLen(m) == |payload|;
    assert m[HDR..HDR + |payload|] == payload;
  }

  const CTRL_MAX: nat := 256

  function CtrlFrame(seqNo: byte, payload: seq<byte>): (f: seq<byte>)
    requires |payload| <= CTRL_MAX
    ensures |f| == HDR + |payload|
  {
    [0, 0] + Le16(|payload|) + [0, seqNo, 0, 0] + payload
  }

  /** A control frame is for every endpoint's receiver, asks for no credits, and decodes to its payload. */
  lemma CtrlFrameReads(seqNo: byte, payload: seq<byte>, eid: byte, room: nat)
    requires |payload| <= CTRL_MAX <= room
    ensures var m := CtrlFrame(seqNo, payload);
            && Accepted(m, eid) && Delivered(m, eid, room) == payload && ReportedBy(m, eid) == 0
            && m[0] == 0 && m[1] == 0 && BodyLen(m) == |payload| && m[5] == seqNo && m[6] == m[7] == 0
  {
    var m := CtrlFrame(seqNo, payload);
    assert m[2] == Le16(|payload|)[0] && m[3] == Le16(|payload|)[1];
    assert m[HDR..HDR + |payload|] == payload;
  }

  /** Credit flow is on for WMI control only, whose request carries the credit count. */
  function ConnectRequest(serviceId: u16, totalCredits: u16): (p: seq<byte>)
    ensures |p| == 8
  {
    Le16(MSG_CONNECT) + Le16(serviceId)
    + Le16(if serviceId == SVC_WMI_CONTROL then totalCredits % 0x100 * 0x100 else CONN_DISABLE_CREDIT_FLOW)
    + [0, 0]
  }

  /**
   How the target reads it: message 2, the service, and flags that turn credit flow off (bit 3) for
   every service but 0x100. For that one the high byte is the credit count, which is the number
   the host opens its ledger with only below 256.
   */
  lemma ConnectRequestReads(seqNo: byte, serviceId: u16, totalCredits: u16)
    ensures var m := CtrlFrame(seqNo, ConnectRequest(serviceId, totalCredits));
            var flags := Get16(m, HDR + 4);
            && |m| == 16 && IsMessage(m, 2) && Get16(m, HDR + 2) == serviceId
            && (flags / 8 % 2 == 1 <==> serviceId != 0x0100)
            && (if serviceId == 0x0100 then flags % 0x100 == 0 && flags / 0x100 == totalCredits % 0x100 else flags == 8)
            && (serviceId == 0x0100 ==> (flags / 0x100 == totalCredits <==> totalCredits < 0x100))
            && m[14] == m[15] == 0
  {
    var p := ConnectRequest(serviceId, totalCredits);
    var m := CtrlFrame(seqNo, p);
    assert m[HDR..] == p;
    assert forall i | 0 <= i < 8 :: m[HDR + i] == p[i];
    var id := Le16(MSG_CONNECT);
    var flags := Le16(if serviceId == SVC_WMI_CONTROL then totalCredits % 0x100 * 0x100 else CONN_DISABLE_CREDIT_FLOW);
    assert p[0] == id[0] && p[1] == id[1];
    assert p[2] == Le16(serviceId)[0] && p[3] == Le16(serviceId)[1];
    assert p[4] == flags[0] && p[5] == flags[1];
  }

  /** A control frame carrying message `id`. */
  predicate IsMessage(m: seq<byte>, id: u16) {
    |m| >= HDR + 2 && Get16(m, HDR) == id
  }

  /** A READY that is long enough. */
  predicate Readable(m: seq<byte>) {
    IsMessage(m, MSG_READY) && |m| >= HDR + 8
  }

  /** A READY as the target sends it, message 1 with the credit count and size, however it goes on. */
  lemma TargetReadyFrame(flags: byte, credits: u16, size: u16, more: seq<byte>, trailer: seq<byte>)
    requires |trailer| < 0x100 && 6 + |more| + |trailer| < 0x1_0000 && 2 <= |more|
    ensures var m := TargetFrame(0, flags, Le16(1) + Le16(credits) + Le16(size) + more, trailer, []);
            Readable(m) && Get16(m, HDR + 2) == credits && Get16(m, HDR + 4) == size
  {
    hide Le16, TargetFrame;
    var p := Le16(1) + Le16(credits) + Le16(size) + more;
    var m := TargetFrame(0, flags, p, trailer, []);
    DecodesTargetFrame(0, flags, p, trailer, []);
    assert forall i | 0 <= i < |p| :: m[HDR + i] == Payload(m, 0)[i];
    assert p[0..2] == Le16(1) && p[2..4] == Le16(credits) && p[4..6] == Le16(size);
    Get16Of(m, HDR, Le16(1));
    Get16Of(m, HDR + 2, Le16(credits));
    Get16Of(m, HDR + 4, Le16(size));
  }

  lemma Get16Of(s: seq<byte>, off: nat, t: seq<byte>)
    requires |t| == 2 && off + 2 <= |s| && s[off] == t[0] && s[off + 1] == t[1]
    ensures Get16(s, off) == Get16(t, 0)
  {
  }

  /** A connect response as the target sends it, message 3, grants exactly the service it names, with status 0. */
  lemma TargetResponse(flags: byte, service: u16, status: byte, eid: byte, maxMsg: u16, serviceId: u16)
    ensures var m := TargetFrame(0, flags, Le16(3) + Le16(service) + [status, eid] + Le16(maxMsg), [], []);
            && (Grants(m, serviceId) <==> service == serviceId && status == 0)
            && |m| == 16 && m[HDR + 5] == eid && Get16(m, HDR + 6) == maxMsg
  {
    hide Le16;
    var p := Le16(3) + Le16(service) + [status, eid] + Le16(maxMsg);
    var m := TargetFrame(0, flags, p, [], []);
    assert forall i | 0 <= i < |p| :: m[HDR + i] == p[i];
    assert p[0..2] == Le16(3) && p[2..4] == Le16(service) && p[6..8] == Le16(maxMsg);
    Get16Of(m, HDR, Le16(3));
    Get16Of(m, HDR + 2, Le16(service));
    Get16Of(m, HDR + 6, Le16(maxMsg));
  }

  /** Frames taken one after another. */
  function TookAll(ms: seq<seq<byte>>): seq<HostEvent> {
    seq(|ms|, i requires 0 <= i < |ms| => Took(ms[i]))
  }

  lemma TookAllAppend(ms: seq<seq<byte>>, m: seq<byte>)
    ensures TookAll(ms + [m]) == TookAll(ms) + [Took(m)]
  {
  }

  /** A connect response that grants the service. */
  predicate Grants(m: seq<byte>, serviceId: u16) {
    |m| >= HDR + 8 && IsMessage(m, MSG_CONNECT_RESP) && Get16(m, HDR + 2) == serviceId && m[HDR + 4] == 0
  }

  /** Credits a payload costs: its length over the credit size, rounded up. */
  function Needed(len: nat, creditSize: nat): nat {
    if creditSize == 0 then 0 else (len + creditSize - 1) / creditSize
  }

  /** The least number of credits that covers the payload. */
  lemma NeededIsLeast(len: nat, creditSize: nat, n: nat)
    requires creditSize >= 1
    ensures Needed(len, creditSize) <= n <==> len <= n * creditSize
  {
    var q := Needed(len, creditSize);
    var r := (len + creditSize - 1) % creditSize;
    assert len + creditSize - 1 == q * creditSize + r;
    if n < q {
      TimesAtLeast(q - 1, n, creditSize);
      assert (q - 1) * creditSize == q * creditSize - creditSize;
    } else {
      TimesAtLeast(n, q, creditSize);
    }
  }

  lemma NeededBound(len: nat, creditSize: nat)
    requires len >= 1 && creditSize >= 1
    ensures 1 <= Needed(len, creditSize) <= len
  {
    var n := Needed(len, creditSize);
    var r := (len + creditSize - 1) % creditSize;
    assert len + creditSize - 1 == n * creditSize + r;
    if n > len {
      TimesAtLeast(n, len + 1, creditSize);
      assert (len + 1) * creditSize == len * creditSize + creditSize;
      TimesAtLeast(creditSize, 1, len);
    }
  }

  lemma TimesAtLeast(x: nat, y: nat, m: nat)
    requires x >= y
    ensures x * m >= y * m
  {
  }

  /** Credit entries for `eid` that add up to n. */
  function CreditEntries(eid: byte, n: nat): (e: seq<byte>)
    ensures |e| <= 4 + 4 * (n / 255)
  {
    if n < 0x100 then [eid, n, 0, 0] else [eid, 255, 0, 0] + CreditEntries(eid, n - 255)
  }

  lemma {:induction false} EntriesAddUp(eid: byte, n: nat)
    ensures Trailer.EntryCredits(CreditEntries(eid, n), eid) == n
  {
    var e := CreditEntries(eid, n);
    if n < 0x100 {
      assert e[4..] == [];
    } else {
      EntriesAddUp(eid, n - 255);
      assert e[4..] == CreditEntries(eid, n - 255);
    }
  }

  /** One record that returns n credits. */
  function RefundTrailer(eid: byte, n: nat): (t: seq<byte>)
    requires n <= MAX_PAYLOAD
    ensures 1 <= |t| < 0x100
  {
    var rs := [Trailer.Record(1, 0, 0, CreditEntries(eid, n))];
    assert Trailer.Encode(rs) == Trailer.EncodeRecord(rs[0]) + Trailer.Encode([]);
    Trailer.Encode(rs)
  }

  /** A frame without payload whose trailer is that record. */
  function Refund(eid: byte, n: nat): (f: seq<byte>)
    requires n <= MAX_PAYLOAD
    ensures 1 <= |f| <= TX_BUF_SZ
  {
    TargetFrame(eid, 2, [], RefundTrailer(eid, n), [])
  }

  /** What a target owes for a payload of this length. */
  function RefundFor(eid: byte, len: nat, creditSize: nat): seq<byte>
    requires 1 <= len <= MAX_PAYLOAD && creditSize >= 1
  {
    NeededBound(len, creditSize);
    Refund(eid, Needed(len, creditSize))
  }

  lemma RefundTrailerReports(eid: byte, n: nat)
    requires n <= MAX_PAYLOAD
    ensures Trailer.Reported(RefundTrailer(eid, n), eid) == n
  {
    hide Trailer.Records, CreditEntries, Trailer.EntryCredits;
    var rs := [Trailer.Record(1, 0, 0, CreditEntries(eid, n))];
    Trailer.EncodedRecordsRoundTrip(rs);
    EntriesAddUp(eid, n);
    assert rs[1..] == [];
    assert Trailer.Credits(rs, eid) == n;
  }

  lemma RefundReports(eid: byte, n: nat)
    requires n <= MAX_PAYLOAD
    ensures ReportedBy(Refund(eid, n), eid) == n
  {
    hide RefundTrailer, Trailer.Reported;
    DecodesTargetFrame(eid, 2, [], RefundTrailer(eid, n), []);
    RefundTrailerReports(eid, n);
  }

  // --------------------------------------------------------------------------- the layer

  class Htc {
    const ctrl: CECopyPair
    const wmi: CECopyPair
    var totalCredits: u16
    var creditSize: u16
    var wmiCredits: u16
    var wmiEid: byte
    var ctrlSeq: byte
    var wmiSeq: byte

    // the credit ledger since the WMI service was connected
    ghost var allotted: nat  // credits at connect
    ghost var charged: nat   // deducted for sends that returned true
    ghost var unpaid: nat    // cost of frames that were rung but whose send timed out
    ghost var granted: nat   // reported back by the target
    ghost var peak: nat      // the most that `granted` ever exceeded `charged` by

    ghost predicate Valid()
      reads this, wmi.repr
      ensures Valid() ==> wmi.Valid() && this !in wmi.repr
    {
      && this !in wmi.repr && wmi.Valid()
      && wmi.Outstanding() <= 1 && !wmi.dst.overrun
      && Ledger()
    }

    /** The control pair, which the WMI operations below never touch. */
    ghost predicate CtrlValid()
      reads ctrl.repr
      ensures CtrlValid() ==> ctrl.Valid()
    {
      ctrl.Valid() && ctrl.repr !! wmi.repr && this !in ctrl.repr
    }

    /**
     The counter is the ledger modulo 2^16, whatever the target reports, and exact while what
     the target returned beyond what was charged still fits beside the allotment. No charge ever
     exceeds what was allotted and returned.
     */
    ghost predicate Ledger()
      reads `wmiCredits, `allotted, `granted, `charged, `peak
    {
      && wmiCredits == (allotted + granted - charged) % 0x1_0000
      && granted <= charged + peak && charged <= allotted + granted
      && (allotted + peak < 0x1_0000 ==> wmiCredits == allotted + granted - charged)
    }

    constructor (ctrl: CECopyPair, wmi: CECopyPair)
      requires ctrl.Valid() && wmi.Valid() && ctrl.repr !! wmi.repr && wmi.Outstanding() <= 1 && !wmi.dst.overrun
      ensures Valid() && CtrlValid() && fresh(this) && this.ctrl == ctrl && this.wmi == wmi && wmiEid == NOT_CONNECTED == 255
      ensures totalCredits == creditSize == wmiCredits == 0 && ctrlSeq == wmiSeq == 0
      ensures allotted == charged == unpaid == granted == peak == 0
    {
      hide CECopyPair.Valid;
      this.ctrl, this.wmi := ctrl, wmi;
      totalCredits, creditSize, wmiCredits, wmiEid, ctrlSeq, wmiSeq := 0, 0, 0, NOT_CONNECTED, 0, 0;
      allotted, charged, unpaid, granted, peak := 0, 0, 0, 0, 0;
    }

    /**
     Conservation. If the target never returned more than was charged (`peak` is 0), credits in
     hand and credits out always make up the allotment, with no wrap; the same balance holds as
     long as whatever it returned in excess would still have fitted the counter.
     */
    lemma CreditsConserved()
      requires Valid() && allotted + peak < 0x1_0000
      ensures wmiCredits + charged == allotted + granted && (peak == 0 ==> granted <= charged && wmiCredits <= allotted)
    {
    }

    /**
     What credits in hand can come to. While the target has reported no more than the frames rung
     cost, they exceed the allotment by at most the cost of the sends that timed out after their
     doorbell; if there was none, they do not exceed it. `RefundedTimeout` shows the excess.
     */
    lemma CreditsBounded()
      requires Valid() && granted <= charged + unpaid
      ensures wmiCredits <= allotted + unpaid && (unpaid == 0 ==> wmiCredits <= allotted)
    {
    }

    lemma LedgerFacts()
      requires Valid()
      ensures wmi.Outstanding() <= 1 && wmiCredits == (allotted + granted - charged) % 0x1_0000 && granted <= charged + peak
      ensures wmiCredits <= allotted + granted - charged
      ensures allotted + peak < 0x1_0000 ==> wmiCredits + charged == allotted + granted
    {
    }

    lemma LedgerAfterReport(sum: nat)
      requires Ledger()
      ensures (wmiCredits + sum) % 0x1_0000 == (allotted + (granted + sum) - charged) % 0x1_0000
    {
      assert (wmiCredits + sum) % 0x1_0000 == (allotted + granted - charged + sum) % 0x1_0000;
    }

    /** The credit entries of one record, 4 bytes each; a short tail is ignored. */
    method AddEntries(trailer: seq<byte>, off: nat, recLen: byte)
      requires off + recLen <= |trailer|
      modifies `wmiCredits
      ensures wmiCredits == (old(wmiCredits) + Trailer.EntryCredits(trailer[off..off + recLen], wmiEid)) % 0x1_0000
    {
      hide Trailer.EntryCredits;
      ghost var body := trailer[off..off + recLen];
      ghost var sum: nat := 0;
      var i := 0;
      while i + 4 <= recLen
        invariant i <= recLen && wmiCredits == (old(wmiCredits) + sum) % 0x1_0000
        invariant sum + Trailer.EntryCredits(body[i..], wmiEid) == Trailer.EntryCredits(body, wmiEid)
      {
        Trailer.EntryStep(body, i, wmiEid);
        var eid, credits := trailer[off + i], trailer[off + i + 1];
        if eid == wmiEid {
          AddMod(old(wmiCredits), sum, credits);
          wmiCredits := (wmiCredits + credits) % 0x1_0000;
          sum := sum + credits;
        }
        i := i + 4;
      }
    }

    lemma AddMod(start: nat, sum: nat, more: nat)
      ensures ((start + sum) % 0x1_0000 + more) % 0x1_0000 == (start + (sum + more)) % 0x1_0000
    {
    }

    /** Walks the trailer's records, stopping at the first that is cut short. */
    method AddRecords(trailer: seq<byte>)
      modifies `wmiCredits
      ensures wmiCredits == (old(wmiCredits) + Trailer.Reported(trailer, wmiEid)) % 0x1_0000
    {
      hide Trailer.Reported, Trailer.EntryCredits;
      ghost var total := Trailer.Reported(trailer, wmiEid);
      ghost var sum := 0;
      var off := 0;
      while off + 2 <= |trailer|
        invariant off <= |trailer| && wmiCredits == (old(wmiCredits) + sum) % 0x1_0000
        invariant sum + Trailer.Reported(trailer[off..], wmiEid) == total
        decreases |trailer| - off
      {
        ghost var rest := trailer[off..];
        Trailer.ReportedStep(rest, wmiEid);
        var recId, recLen := trailer[off], trailer[off + 1];
        off := off + 4;
        if off + recLen > |trailer| {
          assert !Trailer.StartsWithRecord(rest) && sum == total;
          return;
        }
        assert rest[4..4 + recLen] == trailer[off..off + recLen];
        assert rest[4 + recLen..] == trailer[off + recLen..];
        if recId == Trailer.RECORD_CREDITS && recLen >= 4 {
          AddEntries(trailer, off, recLen);
          sum := sum + Trailer.EntryCredits(trailer[off..off + recLen], wmiEid);
        }
        off := off + recLen;
      }
      Trailer.ReportedStep(trailer[off..], wmiEid);
    }

    method ApplyCreditReport(trailer: seq<byte>)
      requires Ledger()
      modifies `wmiCredits, `granted, `peak
      ensures Ledger()
      ensures granted == old(granted) + Trailer.Reported(trailer, wmiEid)
      ensures wmiCredits == (old(wmiCredits) + Trailer.Reported(trailer, wmiEid)) % 0x1_0000
      ensures peak == if granted - charged > old(peak) then granted - charged else old(peak)
    {
      ghost var sum := Trailer.Reported(trailer, wmiEid);
      LedgerAfterReport(sum);
      AddRecords(trailer);
      granted := granted + sum;
      peak := if granted - charged > peak then granted - charged else peak;
    }

    /**
     Sends one WMI command. At most one frame goes on the ring; credits are deducted exactly
     when the call succeeds, which it does exactly if a frame was rung and the engine has taken
     it. A frame whose send timed out after its doorbell is not paid for. Every attempt that gets
     as far as the frame uses up a sequence number.
     `trapped` is set where the code divides by a credit size of zero, having done nothing.
     */
    method SendWmi(payload: seq<byte>) returns (ok: bool, trapped: bool)
      requires Valid()
      modifies this, wmi.repr
      ensures Valid() && totalCredits == old(totalCredits) && creditSize == old(creditSize) && wmiEid == old(wmiEid)
      ensures wmi.dst.Remaining() == old(wmi.dst.Remaining()) && wmi.dst.consumed == old(wmi.dst.consumed)
      ensures allotted == old(allotted) && granted == old(granted) && peak == old(peak)
      ensures trapped <==> wmiEid != NOT_CONNECTED && creditSize == 0 && 1 <= |payload| <= MAX_PAYLOAD
      ensures trapped ==> !ok && wmi.log == old(wmi.log)
      ensures || wmi.log == old(wmi.log)
              || (CanSend(payload) && wmi.log == old(wmi.log) + [Rang(WmiFrame(wmiEid, old(wmiSeq), payload))])
      ensures ok <==> wmi.log != old(wmi.log) && wmi.src.hw.taken == wmi.src.rung
      ensures wmiSeq == (old(wmiSeq) + if old(CanSend(payload) && wmiCredits >= Needed(|payload|, creditSize)) then 1 else 0) % 0x100
      ensures wmi.Outstanding() ==
              if old(CanSend(payload) && wmiCredits >= Needed(|payload|, creditSize)) then 1 else old(wmi.Outstanding())
      ensures var cost := if wmi.log == old(wmi.log) then 0 else Needed(|payload|, creditSize);
              && charged == old(charged) + (if ok then cost else 0)
              && wmiCredits == old(wmiCredits) - (if ok then cost else 0)
              && unpaid == old(unpaid) + (if ok then 0 else cost)
      ensures old(CanSend(payload) && wmiCredits >= Needed(|payload|, creditSize) && wmi.src.hw.taken == wmi.src.rung)
              ==> wmi.log != old(wmi.log)
    {
      hide CECopyPair.Valid, WmiFrame, Needed, Ledger, DestRing.Remaining, DestRing.Ready, DestRing.Shape;
      ok, trapped := false, false;
      if wmiEid == NOT_CONNECTED || |payload| == 0 || |payload| > MAX_PAYLOAD {
        return;
      }
      if creditSize == 0 {
        return false, true;
      }
      var needed := Needed(|payload|, creditSize);
      if wmiCredits < needed {
        return;
      }
      ok := Attempt(payload);
      if !ok {
        if wmi.log != old(wmi.log) {
          Forgo(needed);
        }
        return;
      }
      Charge(needed);
    }

    /** Arms the receive buffer, numbers the frame and sends it. */
    method Attempt(payload: seq<byte>) returns (ok: bool)
      requires Valid() && 1 <= |payload| <= MAX_PAYLOAD
      modifies `wmiSeq, wmi.repr
      ensures Valid() && wmiSeq == (old(wmiSeq) + 1) % 0x100 && wmi.Outstanding() == 1
      ensures wmi.dst.Remaining() == old(wmi.dst.Remaining()) && wmi.dst.consumed == old(wmi.dst.consumed)
      ensures wmi.log == old(wmi.log) || wmi.log == old(wmi.log) + [Rang(WmiFrame(wmiEid, old(wmiSeq), payload))]
      ensures ok <==> wmi.log != old(wmi.log) && wmi.src.hw.taken == wmi.src.rung
      ensures old(wmi.src.hw.taken == wmi.src.rung) ==> wmi.log != old(wmi.log)
    {
      hide CECopyPair.Valid, WmiFrame, Ledger, DestRing.Remaining, DestRing.Ready, DestRing.Shape;
      ok := wmi.PostRecvIfIdle();
      var frame := WmiFrame(wmiEid, wmiSeq, payload);
      wmiSeq := (wmiSeq + 1) % 0x100;
      ok := wmi.Send(frame);
      assert wmi.log != old(wmi.log) ==> |wmi.log| == |old(wmi.log)| + 1;
    }

    ghost method Forgo(cost: nat)
      requires Ledger()
      modifies `unpaid
      ensures Ledger() && unpaid == old(unpaid) + cost
    {
      unpaid := unpaid + cost;
    }

    method Charge(needed: nat)
      requires Ledger() && needed <= wmiCredits
      modifies `wmiCredits, `charged
      ensures Ledger() && wmiCredits == old(wmiCredits) - needed && charged == old(charged) + needed
    {
      wmiCredits := wmiCredits - needed;
      charged := charged + needed;
    }

    ghost predicate CanSend(payload: seq<byte>)
      reads this
    {
      wmiEid != NOT_CONNECTED && creditSize > 0 && 1 <= |payload| <= 2040
    }

    /** Arms the receive buffer if it is idle: the one arming point of the event loop. */
    method ArmRecv()
      requires Valid()
      modifies wmi.repr
      ensures Valid() && wmi.Outstanding() >= 1 && wmi.log == old(wmi.log) && wmi.src.rung == old(wmi.src.rung)
      ensures wmi.dst.Remaining() == old(wmi.dst.Remaining())
    {
      hide CECopyPair.Valid, Ledger, DestRing.Remaining, DestRing.Ready, DestRing.Shape;
      var ok := wmi.PostRecvIfIdle();
    }

    /**
     Receives one frame. The frame consumed is the target's next one, whole; its credits are
     applied if it is well-formed, and its payload is copied if it also fits. Taking none, it has
     polled its whole budget through.
     */
    method RecvWmi(buf: array<byte>, timeoutMs: u32) returns (n: nat, ghost polls: nat)
      requires Valid() && buf !in wmi.repr
      modifies `wmiCredits, `granted, `peak, wmi.repr, buf
      ensures Valid()
      ensures || (n == 0 && wmi.log == old(wmi.log) && granted == old(granted) && buf[..] == old(buf[..])
                  && wmi.dst.Remaining() == old(wmi.dst.Remaining()))
              || (wmi.log == old(wmi.log) + [Took(wmi.Newest())]
                  && granted == old(granted) + ReportedBy(wmi.Newest(), wmiEid)
                  && n == |Delivered(wmi.Newest(), wmiEid, buf.Length)| <= buf.Length
                  && buf[..n] == Delivered(wmi.Newest(), wmiEid, buf.Length)
                  && wmi.dst.Remaining() == old(wmi.dst.Remaining()) - 1 && wmi.Outstanding() == 0)
      ensures wmiCredits == (old(wmiCredits) + granted - old(granted)) % 0x1_0000
      ensures peak == if granted - charged > old(peak) then granted - charged else old(peak)
      ensures wmi.src.rung == old(wmi.src.rung) && old(wmi.src.hw.taken) <= wmi.src.hw.taken
      ensures old(wmi.dst.Ready()) && PollBudget(timeoutMs) > 0 ==> wmi.log != old(wmi.log)
      ensures old(wmi.dst.hw.delivered) <= wmi.dst.hw.delivered
      ensures wmi.dst.consumed == old(wmi.dst.consumed) + if wmi.log == old(wmi.log) then 0 else 1
      ensures unpaid == old(unpaid) && (wmi.log == old(wmi.log) ==> polls == PollBudget(timeoutMs))
      ensures wmi.dst.posted == old(wmi.dst.posted)
    {
      hide CECopyPair.Valid, Delivered, ReportedBy, DestRing.Remaining;
      var ok;
      ok, polls := wmi.RecvWait(timeoutMs);
      if !ok {
        return 0, polls;
      }
      wmi.Interfere();
      var raw := wmi.dst.rx[..wmi.dst.rxNbytes];
      assert raw == wmi.Newest();
      n := Decode(raw, buf);
    }

    /** What `RecvWmi` does with a frame it has consumed. */
    method Decode(raw: seq<byte>, buf: array<byte>) returns (n: nat)
      requires Ledger()
      modifies `wmiCredits, `granted, `peak, buf
      ensures Ledger()
      ensures granted == old(granted) + ReportedBy(raw, wmiEid)
      ensures wmiCredits == (old(wmiCredits) + ReportedBy(raw, wmiEid)) % 0x1_0000
      ensures peak == if granted - charged > old(peak) then granted - charged else old(peak)
      ensures n == |Delivered(raw, wmiEid, buf.Length)| <= buf.Length && buf[..n] == Delivered(raw, wmiEid, buf.Length)
    {
      hide Trailer.Reported;
      var rawLen := |raw|;
      if rawLen < HDR {
        return 0;
      }
      var eid, len, trailerLen := raw[0], Get16(raw, 2), raw[4];
      if eid != wmiEid && eid != 0 {
        return 0;
      }
      if len > rawLen - HDR {
        return 0;
      }
      if trailerLen > len {
        return 0;
      }
      if trailerLen != 0 && raw[1] / 2 % 2 == 1 {
        var trOff := HDR + len - trailerLen;
        if trOff >= HDR && trOff + trailerLen <= rawLen {
          ApplyCreditReport(raw[trOff..trOff + trailerLen]);
        }
      }
      var payloadLen := len - trailerLen;
      if payloadLen == 0 || payloadLen > buf.Length {
        return 0;
      }
      forall i | 0 <= i < payloadLen { buf[i] := raw[HDR + i]; }
      assert buf[..payloadLen] == Payload(raw, wmiEid);
      return payloadLen;
    }

    /** The steps of `SendWmi` with a buffer posted already, when the engine does not stir. */
    method SendTimedOut(payload: seq<byte>) returns (ok: bool)
      requires Valid() && CanSend(payload) && Needed(|payload|, creditSize) <= wmiCredits
      requires wmi.src.hw.taken == wmi.src.rung && wmi.Outstanding() == 1
      modifies `wmiSeq, `unpaid, wmi.repr
      ensures Valid() && !ok && unpaid == old(unpaid) + Needed(|payload|, creditSize) && wmiSeq == (old(wmiSeq) + 1) % 0x100
      ensures wmi.log == old(wmi.log) + [Rang(WmiFrame(wmiEid, old(wmiSeq), payload))]
      ensures unchanged(wmi.dst, wmi.dst.hw)
    {
      hide CECopyPair.Valid, WmiFrame, Needed, Ledger;
      var frame := WmiFrame(wmiEid, wmiSeq, payload);
      wmiSeq := (wmiSeq + 1) % 0x100;
      ok := wmi.TimedOutSend(frame);
      Forgo(Needed(|payload|, creditSize));
    }

    /**
     How credits in hand come to exceed the allotment with an honest target. For any legal
     payload that can be paid for, from any state with the buffer posted and both engines idle:
     the send times out after its doorbell, the engine takes the frame late, and the target
     returns exactly what it cost. The call failed and nothing was charged, but the credits are in.
     */
    method RefundedTimeout(payload: seq<byte>, buf: array<byte>, timeoutMs: u32) returns (ok: bool)
      requires Valid() && CanSend(payload) && buf !in wmi.repr && PollBudget(timeoutMs) > 0
      requires Needed(|payload|, creditSize) <= wmiCredits && wmiCredits + Needed(|payload|, creditSize) < 0x1_0000
      requires wmi.src.hw.taken == wmi.src.rung && wmi.Outstanding() == 1
      requires wmi.dst.hw.inbound.Idle? && wmi.dst.hw.completed == wmi.dst.consumed && wmi.dst.hw.supply > 0
      modifies this, wmi.repr, buf
      ensures Valid() && !ok && allotted == old(allotted) && charged == old(charged)
      ensures var cost := Needed(|payload|, creditSize);
              && unpaid == old(unpaid) + cost && granted == old(granted) + cost
              && wmiCredits == old(wmiCredits) + cost > old(wmiCredits)
      ensures wmi.log == old(wmi.log) + [Rang(WmiFrame(wmiEid, old(wmiSeq), payload)),
                                         Took(RefundFor(wmiEid, |payload|, creditSize))]
    {
      hide CECopyPair.Valid, WmiFrame, Needed, Ledger, Refund, ReportedBy, Delivered, DestRing.Ready, DestRing.Remaining;
      ghost var log := wmi.log;
      NeededBound(|payload|, creditSize);
      var cost := Needed(|payload|, creditSize);
      RefundReports(wmiEid, cost);
      ok := SendTimedOut(payload);
      var msg := Refund(wmiEid, cost);
      wmi.LateExchange(msg);
      var n, polls := RecvWmi(buf, timeoutMs);
      assert wmi.Newest() == msg;
    }

    // ------------------------------------------------------------------ the boot handshake

    method SendCtrlFrame(payload: seq<byte>) returns (ok: bool)
      requires CtrlValid()
      modifies `ctrlSeq, ctrl.repr
      ensures CtrlValid() && ctrl.Outstanding() == old(ctrl.Outstanding()) && ctrl.dst.posted == old(ctrl.dst.posted)
      ensures ctrl.dst.overrun == old(ctrl.dst.overrun)
      ensures || ctrl.log == old(ctrl.log)
              || (|payload| <= CTRL_MAX && ctrl.log == old(ctrl.log) + [Rang(CtrlFrame(old(ctrlSeq), payload))])
      ensures ok <==> ctrl.log != old(ctrl.log) && ctrl.src.hw.taken == ctrl.src.rung
      ensures ctrlSeq == (old(ctrlSeq) + if |payload| <= 256 then 1 else 0) % 0x100
      ensures |payload| <= 256 && old(ctrl.src.hw.taken == ctrl.src.rung) ==> ctrl.log != old(ctrl.log)
    {
      hide CECopyPair.Valid, DestRing.Shape, DestRing.Ready, DestRing.Remaining, CtrlFrame;
      if |payload| > CTRL_MAX {
        return false;
      }
      var frame := CtrlFrame(ctrlSeq, payload);
      ctrlSeq := (ctrlSeq + 1) % 0x100;
      ok := ctrl.Send(frame);
    }

    /**
     Waits for READY, skipping other messages, and takes the credit parameters from it. `taken`
     are the frames consumed; what was read from them is claimed if no buffer was left posted.
     */
    method WaitTarget(timeoutMs: u32) returns (ok: bool, ghost taken: seq<seq<byte>>)
      requires Valid() && CtrlValid()
      modifies `totalCredits, `creditSize, ctrl.repr
      ensures Valid() && CtrlValid() && ctrl.log == old(ctrl.log) + TookAll(taken)
      ensures ok ==> taken != [] && totalCredits > 0 && creditSize > 0
      ensures |taken| <= PollBudget(timeoutMs)
      ensures old(ctrl.dst.posted) + |taken| <= ctrl.dst.posted <= old(ctrl.dst.posted) + |taken| + 1
      ensures old(ctrl.Idle()) && (taken == [] || !Readable(taken[|taken| - 1])) ==>
                !ok && totalCredits == old(totalCredits) && creditSize == old(creditSize)
      ensures old(ctrl.Idle()) ==> forall i | 0 <= i < |taken| - 1 :: !IsMessage(taken[i], MSG_READY)
      ensures ok && old(ctrl.Idle()) ==>
                var m := taken[|taken| - 1];
                IsMessage(m, MSG_READY) && |m| >= HDR + 8 && ctrl.Idle()
      ensures old(ctrl.Idle()) && taken != [] && Readable(taken[|taken| - 1]) ==>
                var m := taken[|taken| - 1];
                && totalCredits == Get16(m, HDR + 2) && creditSize == Get16(m, HDR + 4)
                && (ok <==> totalCredits > 0 && creditSize > 0)
    {
      hide CECopyPair.Valid, DestRing.Shape, DestRing.Ready, DestRing.Remaining, TookAll, Ledger, IsMessage;
      ok, taken := SkipToReady(timeoutMs);
      if !ok {
        return;
      }
      ctrl.Interfere();
      var raw := ctrl.dst.rx[..ctrl.dst.rxNbytes];
      if |raw| < HDR + 8 {
        return false, taken;
      }
      totalCredits := Get16(raw, HDR + 2);
      creditSize := Get16(raw, HDR + 4);
      ok := totalCredits > 0 && creditSize > 0;
    }

    /** Takes frames until one is READY, at most one a poll step. */
    method SkipToReady(timeoutMs: u32) returns (got: bool, ghost taken: seq<seq<byte>>)
      requires CtrlValid()
      modifies ctrl.repr
      ensures CtrlValid() && ctrl.log == old(ctrl.log) + TookAll(taken) && |taken| <= PollBudget(timeoutMs)
      ensures old(ctrl.dst.posted) + |taken| <= ctrl.dst.posted <= old(ctrl.dst.posted) + |taken| + 1
      ensures got ==> taken != [] && ctrl.dst.rxNbytes <= RX_BUF_SZ
      ensures old(ctrl.Idle()) ==> forall j | 0 <= j < |taken| :: IsMessage(taken[j], MSG_READY) <==> got && j == |taken| - 1
      ensures got && old(ctrl.Idle()) ==> ctrl.Idle() && Held(taken[|taken| - 1])
    {
      hide CECopyPair.Valid, DestRing.Shape, DestRing.Ready, DestRing.Remaining, TookAll, IsMessage;
      var deadline := PollBudget(timeoutMs);
      var i := 0;
      got, taken := false, [];
      TookAllEmpty();
      assert ctrl.log == old(ctrl.log) + TookAll(taken);
      while i < deadline && !got
        invariant CtrlValid() && (old(ctrl.Idle()) ==> ctrl.Idle()) && |taken| == i <= deadline
        invariant ctrl.log == old(ctrl.log) + TookAll(taken) && ctrl.dst.posted == old(ctrl.dst.posted) + |taken|
        invariant got ==> taken != [] && ctrl.dst.rxNbytes <= RX_BUF_SZ
        invariant old(ctrl.Idle()) ==> forall j | 0 <= j < |taken| :: IsMessage(taken[j], MSG_READY) <==> got && j == |taken| - 1
        invariant got && old(ctrl.Idle()) ==> Held(taken[|taken| - 1])
      {
        i := i + 1;
        var ok, raw := TakeNext(timeoutMs);
        if !ok {
          return;
        }
        TookAllAppend(taken, ctrl.Newest());
        taken := taken + [ctrl.Newest()];
        got := IsMessage(raw, MSG_READY);
      }
    }

    /** The control buffer holds this frame, and the driver knows its length. */
    ghost predicate Held(m: seq<byte>)
      reads ctrl.dst, ctrl.dst.rx
    {
      ctrl.dst.RxHolds(m) && ctrl.dst.rxNbytes == |m|
    }

    /** Posts the control buffer and takes the target's next frame. */
    method TakeNext(timeoutMs: u32) returns (ok: bool, raw: seq<byte>)
      requires CtrlValid()
      modifies ctrl.repr
      ensures CtrlValid() && ctrl.src.rung == old(ctrl.src.rung) && ctrl.dst.posted == old(ctrl.dst.posted) + 1
      ensures !ok ==> ctrl.log == old(ctrl.log)
      ensures ok ==> ctrl.log == old(ctrl.log) + [Took(ctrl.Newest())] && ctrl.dst.rxNbytes <= RX_BUF_SZ
      ensures ok && old(ctrl.Idle()) ==> ctrl.Idle() && Held(ctrl.Newest()) && raw == ctrl.Newest()
    {
      hide CECopyPair.Valid, DestRing.Shape, DestRing.Ready, DestRing.Remaining;
      raw := [];
      ok := ctrl.PostRecv();
      ghost var polls;
      ok, polls := ctrl.RecvWait(timeoutMs);
      if ok {
        ctrl.Interfere();
        raw := ctrl.dst.rx[..ctrl.dst.rxNbytes];
      }
    }

    lemma TookAllEmpty()
      ensures TookAll([]) == []
    {
    }

    /** Posts the receive buffer, sends a request and takes the target's next frame. */
    method CtrlExchange(request: seq<byte>) returns (ok: bool, raw: seq<byte>)
      requires CtrlValid()
      modifies `ctrlSeq, ctrl.repr
      ensures CtrlValid() && ctrlSeq == (old(ctrlSeq) + if |request| <= CTRL_MAX then 1 else 0) % 0x100
      ensures ctrl.dst.posted == old(ctrl.dst.posted) + 1
      ensures ok ==> && |request| <= CTRL_MAX
                     && ctrl.log == old(ctrl.log) + [Rang(CtrlFrame(old(ctrlSeq), request)), Took(ctrl.Newest())]
      ensures !ok ==> || ctrl.log == old(ctrl.log)
                      || (|request| <= CTRL_MAX && ctrl.log == old(ctrl.log) + [Rang(CtrlFrame(old(ctrlSeq), request))])
      ensures old(ctrl.src.hw.taken == ctrl.src.rung) && |request| <= CTRL_MAX ==> ctrl.log != old(ctrl.log)
      ensures ok && old(ctrl.Idle()) ==> raw == ctrl.Newest() && ctrl.Idle()
    {
      hide CECopyPair.Valid, DestRing.Shape, DestRing.Ready, DestRing.Remaining, CtrlFrame;
      raw := [];
      ok := ctrl.PostRecv();
      ok := SendCtrlFrame(request);
      if !ok {
        return;
      }
      ghost var polls;
      ok, polls := ctrl.RecvWait(EXCHANGE_TIMEOUT_MS);
      if ok {
        ctrl.Interfere();
        raw := ctrl.dst.rx[..ctrl.dst.rxNbytes];
      }
    }

    /**
     Connects a service; for WMI control, opens a fresh credit ledger. What was read from the
     response is claimed if no control buffer was left posted.
     */
    method ConnectService(serviceId: u16) returns (ok: bool, eid: byte, maxMsg: u16)
      requires Valid() && CtrlValid()
      modifies this, ctrl.repr
      ensures Valid() && CtrlValid()
      ensures totalCredits == old(totalCredits) && creditSize == old(creditSize)
      ensures ok ==> ctrl.log == old(ctrl.log) + [Rang(CtrlFrame(old(ctrlSeq), ConnectRequest(serviceId, totalCredits))),
                                                  Took(ctrl.Newest())]
      ensures || ctrl.log == old(ctrl.log)
              || ctrl.log == old(ctrl.log) + [Rang(CtrlFrame(old(ctrlSeq), ConnectRequest(serviceId, totalCredits)))]
              || (ctrl.log == old(ctrl.log) + [Rang(CtrlFrame(old(ctrlSeq), ConnectRequest(serviceId, totalCredits))),
                                               Took(ctrl.Newest())]
                  && (old(ctrl.Idle()) ==> (ok <==> Grants(ctrl.Newest(), serviceId))))
      ensures old(ctrl.src.hw.taken == ctrl.src.rung) ==> ctrl.log != old(ctrl.log)
      ensures ctrlSeq == (old(ctrlSeq) + 1) % 0x100 && ctrl.dst.posted == old(ctrl.dst.posted) + 1
      ensures ok && old(ctrl.Idle()) ==>
                && Grants(ctrl.Newest(), serviceId) && ctrl.Idle()
                && eid == ctrl.Newest()[HDR + 5] && maxMsg == Get16(ctrl.Newest(), HDR + 6)
      ensures if ok && serviceId == SVC_WMI_CONTROL
              then wmiEid == eid && wmiCredits == allotted == totalCredits && charged == granted == unpaid == peak == 0
              else wmiEid == old(wmiEid) && wmiCredits == old(wmiCredits) && allotted == old(allotted)
                   && charged == old(charged) && granted == old(granted) && unpaid == old(unpaid) && peak == old(peak)
    {
      hide CECopyPair.Valid, DestRing.Shape, DestRing.Ready, DestRing.Remaining, CtrlFrame, ConnectRequest;
      hide Ledger;
      eid, maxMsg := 0, 0;
      var raw;
      ok, raw := CtrlExchange(ConnectRequest(serviceId, totalCredits));
      if !ok {
        return;
      }
      if |raw| < HDR + 8 || Get16(raw, HDR) != MSG_CONNECT_RESP {
        return false, eid, maxMsg;
      }
      if Get16(raw, HDR + 2) != serviceId || raw[HDR + 4] != 0 {
        return false, eid, maxMsg;
      }
      eid, maxMsg := raw[HDR + 5], Get16(raw, HDR + 6);
      if serviceId == SVC_WMI_CONTROL {
        wmiEid := eid;
        OpenLedger();
      }
    }

    /** All transmit credits go to WMI control. */
    method OpenLedger()
      modifies `wmiCredits, `allotted, `charged, `unpaid, `granted, `peak
      ensures Ledger()
      ensures wmiCredits == allotted == totalCredits && charged == granted == unpaid == peak == 0
    {
      wmiCredits := totalCredits;
      allotted, charged, unpaid, granted, peak := totalCredits, 0, 0, 0, 0;
    }
  }

  // -------------------------------------------------------------------------- whole runs

  /** Credits the frames taken in this stretch of the log report for `eid`. */
  ghost function ReportedIn(log: seq<HostEvent>, eid: byte): nat {
    if log == [] then 0
    else
      var last := log[|log| - 1];
      ReportedIn(log[..|log| - 1], eid) + if last.Took? then ReportedBy(last.msg, eid) else 0
  }

  /** What the frames rung in it cost. */
  ghost function CostIn(log: seq<HostEvent>, creditSize: nat): nat {
    if log == [] then 0
    else
      var last := log[|log| - 1];
      CostIn(log[..|log| - 1], creditSize)
      + if last.Rang? && |last.frame| >= HDR then Needed(|last.frame| - HDR, creditSize) else 0
  }

  lemma {:induction false} SumsAppend(log: seq<HostEvent>, more: seq<HostEvent>, eid: byte, creditSize: nat)
    requires |more| <= 1
    ensures ReportedIn(log + more, eid) == ReportedIn(log, eid) + ReportedIn(more, eid)
    ensures CostIn(log + more, creditSize) == CostIn(log, creditSize) + CostIn(more, creditSize)
  {
    hide ReportedBy, Needed;
    if more == [] {
      assert log + more == log;
    } else {
      assert (log + more)[..|log|] == log && more[..0] == [];
    }
  }

  /** What the WMI layer may call. */
  datatype Call = Command(payload: seq<byte>) | Receive(timeoutMs: u32) | Arm

  /** Every command so far returned true. */
  predicate Succeeded(calls: seq<Call>, oks: seq<bool>)
    requires |oks| <= |calls|
  {
    forall i | 0 <= i < |oks| && calls[i].Command? :: oks[i]
  }

  lemma SucceededNext(calls: seq<Call>, oks: seq<bool>, ok: bool)
    requires |oks| < |calls|
    ensures Succeeded(calls, oks + [ok]) <==> Succeeded(calls, oks) && (calls[|oks|].Command? ==> ok)
  {
    assert (oks + [ok])[|oks|] == ok && forall i | 0 <= i < |oks| :: (oks + [ok])[i] == oks[i];
  }

  /** How many of them are commands. */
  function Commands(calls: seq<Call>): nat {
    if calls == [] then 0 else Commands(calls[..|calls| - 1]) + if calls[|calls| - 1].Command? then 1 else 0
  }

  lemma CommandsNext(calls: seq<Call>, i: nat)
    requires i < |calls|
    ensures Commands(calls[..i + 1]) == Commands(calls[..i]) + if calls[i].Command? then 1 else 0
  {
    assert calls[..i + 1][..i] == calls[..i];
  }

  /** Every command's frame carries the number of commands before it, counted on from `first`. */
  ghost predicate Numbered(calls: seq<Call>, events: seq<seq<HostEvent>>, eid: byte, first: byte)
    requires |events| <= |calls|
  {
    forall i {:trigger events[i]} | 0 <= i < |events| && calls[i].Command? ::
      && |calls[i].payload| <= MAX_PAYLOAD
      && events[i] == [Rang(WmiFrame(eid, (first + Commands(calls[..i])) % 0x100, calls[i].payload))]
  }

  lemma NumberedNext(calls: seq<Call>, events: seq<seq<HostEvent>>, e: seq<HostEvent>, eid: byte, first: byte)
    requires |events| < |calls| && Numbered(calls, events, eid, first)
    requires var call := calls[|events|];
             call.Command? ==>
               && |call.payload| <= MAX_PAYLOAD
               && e == [Rang(WmiFrame(eid, (first + Commands(calls[..|events|])) % 0x100, call.payload))]
    ensures Numbered(calls, events + [e], eid, first)
  {
    hide WmiFrame, Commands;
    forall i | 0 <= i <= |events| && calls[i].Command?
      ensures |calls[i].payload| <= MAX_PAYLOAD
      ensures (events + [e])[i] == [Rang(WmiFrame(eid, (first + Commands(calls[..i])) % 0x100, calls[i].payload))]
    {
      assert (events + [e])[i] == if i < |events| then events[i] else e;
    }
  }

  /** The ceiling costs of the commands that succeeded. */
  ghost function Paid(calls: seq<Call>, oks: seq<bool>, creditSize: nat): nat
    requires |oks| == |calls|
  {
    if calls == [] then 0
    else
      var n := |calls| - 1;
      Paid(calls[..n], oks[..n], creditSize)
      + if calls[n].Command? && oks[n] then Needed(|calls[n].payload|, creditSize) else 0
  }

  lemma PaidNext(calls: seq<Call>, oks: seq<bool>, ok: bool, creditSize: nat)
    requires |oks| < |calls|
    ensures var n := |oks|;
            Paid(calls[..n + 1], oks + [ok], creditSize) ==
            Paid(calls[..n], oks, creditSize)
            + if calls[n].Command? && ok then Needed(|calls[n].payload|, creditSize) else 0
  {
    hide Needed;
    var n := |oks|;
    assert calls[..n + 1][..n] == calls[..n] && (oks + [ok])[..n] == oks;
  }

  /** What the calls added to the log, end to end. */
  ghost function Flat(events: seq<seq<HostEvent>>): seq<HostEvent> {
    if events == [] then [] else Flat(events[..|events| - 1]) + events[|events| - 1]
  }

  /** The most by which, after any of the calls, the credits returned exceeded the charge. */
  ghost function Excess(calls: seq<Call>, oks: seq<bool>, events: seq<seq<HostEvent>>, eid: byte, creditSize: nat): nat
    requires |oks| == |calls| == |events|
  {
    if calls == [] then 0
    else
      var n := |calls| - 1;
      var before := Excess(calls[..n], oks[..n], events[..n], eid, creditSize);
      var now := ReportedIn(Flat(events), eid) - Paid(calls, oks, creditSize);
      if now > before then now else before
  }

  /** It is 0 exactly if the target never returned more than was charged. */
  lemma {:induction false} ExcessIsMost(calls: seq<Call>, oks: seq<bool>, events: seq<seq<HostEvent>>,
                                        eid: byte, creditSize: nat)
    requires |oks| == |calls| == |events|
    ensures forall k | 0 <= k <= |calls| ::
              ReportedIn(Flat(events[..k]), eid)
              <= Paid(calls[..k], oks[..k], creditSize) + Excess(calls, oks, events, eid, creditSize)
    ensures Excess(calls, oks, events, eid, creditSize) > 0 ==>
              exists k | 0 <= k <= |calls| ::
                ReportedIn(Flat(events[..k]), eid)
                == Paid(calls[..k], oks[..k], creditSize) + Excess(calls, oks, events, eid, creditSize)
  {
    hide ReportedIn, Paid, Flat;
    assert calls[..|calls|] == calls && oks[..|calls|] == oks && events[..|calls|] == events;
    if calls == [] {
      SumsOfNothing(calls, eid, creditSize);
    } else {
      var n := |calls| - 1;
      var c, o, v := calls[..n], oks[..n], events[..n];
      ExcessIsMost(c, o, v, eid, creditSize);
      forall k | 0 <= k <= n
        ensures calls[..k] == c[..k] && oks[..k] == o[..k] && events[..k] == v[..k]
      {
      }
      var x := Excess(c, o, v, eid, creditSize);
      if x > 0 {
        var k :| 0 <= k <= n && ReportedIn(Flat(v[..k]), eid) == Paid(c[..k], o[..k], creditSize) + x;
        assert ReportedIn(Flat(events[..k]), eid) == Paid(calls[..k], oks[..k], creditSize) + x;
      }
    }
  }

  lemma ExcessNext(calls: seq<Call>, oks: seq<bool>, ok: bool, events: seq<seq<HostEvent>>, e: seq<HostEvent>,
                   eid: byte, creditSize: nat)
    requires |oks| == |events| < |calls|
    ensures var n := |oks|;
            var now := ReportedIn(Flat(events) + e, eid) - Paid(calls[..n + 1], oks + [ok], creditSize);
            var before := Excess(calls[..n], oks, events, eid, creditSize);
            && Flat(events + [e]) == Flat(events) + e
            && Excess(calls[..n + 1], oks + [ok], events + [e], eid, creditSize) == if now > before then now else before
  {
    hide ReportedIn, Paid;
    var n := |oks|;
    assert calls[..n + 1][..n] == calls[..n] && (oks + [ok])[..n] == oks && (events + [e])[..n] == events;
  }

  /** One call; `e` is what it added to the log, and only a successful command is charged. */
  method Perform(h: Htc, buf: array<byte>, call: Call) returns (ok: bool, ghost e: seq<HostEvent>)
    requires h.Valid() && buf !in h.wmi.repr
    modifies h, h.wmi.repr, buf
    ensures h.Valid() && h.wmiEid == old(h.wmiEid) && h.creditSize == old(h.creditSize) && h.allotted == old(h.allotted)
    ensures (if call.Command? then ok ==> e != [] else ok) && (call.Arm? ==> h.wmi.Outstanding() == 1)
    ensures |e| <= 1 && h.wmi.log == old(h.wmi.log) + e
    ensures h.granted == old(h.granted) + ReportedIn(e, h.wmiEid)
    ensures h.charged == old(h.charged) + if call.Command? && ok then Needed(|call.payload|, h.creditSize) else 0
    ensures h.charged + h.unpaid == old(h.charged + h.unpaid) + CostIn(e, h.creditSize)
    ensures !call.Command? || ok ==> h.unpaid == old(h.unpaid)
    ensures h.peak == if h.granted - h.charged > old(h.peak) then h.granted - h.charged else old(h.peak)
    ensures if call.Command? then ok ==> h.wmiSeq == (old(h.wmiSeq) + 1) % 0x100 else h.wmiSeq == old(h.wmiSeq)
    ensures call.Command? && ok ==>
              |call.payload| <= MAX_PAYLOAD && e == [Rang(WmiFrame(h.wmiEid, old(h.wmiSeq), call.payload))]
  {
    hide CECopyPair.Valid, Htc.Ledger, DestRing.Remaining, DestRing.Shape, DestRing.Ready;
    hide WmiFrame, Needed, ReportedBy, Delivered, ReportedIn, CostIn;
    e := [];
    SumsOfNothing([], h.wmiEid, h.creditSize);
    h.LedgerFacts();
    match call {
      case Command(payload) =>
        ghost var ev := Rang(if |payload| <= MAX_PAYLOAD then WmiFrame(h.wmiEid, h.wmiSeq, payload) else []);
        SumsOfOne(ev, h.wmiEid, h.creditSize);
        var trapped;
        ok, trapped := h.SendWmi(payload);
        e := if h.wmi.log == old(h.wmi.log) then [] else [ev];
      case Receive(timeoutMs) =>
        var n, polls := h.RecvWmi(buf, timeoutMs);
        ok := true;
        SumsOfOne(Took(h.wmi.Newest()), h.wmiEid, h.creditSize);
        e := if h.wmi.log == old(h.wmi.log) then [] else [Took(h.wmi.Newest())];
      case Arm =>
        h.ArmRecv();
        ok := true;
    }
  }

  lemma SumsOfOne(ev: HostEvent, eid: byte, creditSize: nat)
    ensures ReportedIn([ev], eid) == if ev.Took? then ReportedBy(ev.msg, eid) else 0
    ensures CostIn([ev], creditSize) ==
            if ev.Rang? && |ev.frame| >= HDR then Needed(|ev.frame| - HDR, creditSize) else 0
  {
    hide ReportedBy, Needed;
    assert [ev][..0] == [];
  }

  /**
   Any script of commands, receives and arms, timeouts included, performed in order: never more
   than one buffer posted; the credits counted are the sum over the frames taken; the charge is
   the sum of the ceiling costs of the commands that returned true, and what timed out after its
   doorbell is the rest of the cost of the frames rung. The counter is the allotment plus the
   credits returned less the charge, modulo 2^16, and exactly that while the target's excess
   returns, taken over every prefix of the run, fit beside the allotment. An honest target, one
   that returns no more than the frames rung cost, leaves at most the allotment and the cost of
   the sends that timed out; if every command returned true, at most the allotment, and the frames
   carry successive sequence numbers.
   */
  method AnyRun(h: Htc, buf: array<byte>, calls: seq<Call>)
    returns (oks: seq<bool>, ghost events: seq<seq<HostEvent>>)
    requires h.Valid() && buf !in h.wmi.repr
    requires h.granted == h.charged == h.unpaid == h.peak == 0 && h.allotted < 0x1_0000
    modifies h, h.wmi.repr, buf
    ensures h.Valid() && h.wmi.Outstanding() <= 1 && h.allotted == old(h.allotted)
    ensures |oks| == |calls| == |events| && h.wmi.log == old(h.wmi.log) + Flat(events)
    ensures var reported, paid := ReportedIn(Flat(events), h.wmiEid), Paid(calls, oks, h.creditSize);
            var cost := CostIn(Flat(events), h.creditSize);
            var excess := Excess(calls, oks, events, h.wmiEid, h.creditSize);
            && h.granted == reported && h.charged == paid && h.unpaid == cost - paid
            && h.wmiCredits == (h.allotted + reported - paid) % 0x1_0000
            && (h.allotted + excess < 0x1_0000 ==> h.wmiCredits == h.allotted + reported - paid)
            && (reported <= cost ==> h.wmiCredits <= h.allotted + (cost - paid))
            && (Succeeded(calls, oks) ==>
                  cost == paid && Numbered(calls, events, h.wmiEid, old(h.wmiSeq)))
  {
    hide WmiFrame, Succeeded, Numbered, Htc.Valid, ReportedIn, CostIn, Paid, Flat, Excess, Books;
    hide CECopyPair.Valid, CECopyPair.Outstanding, Htc.Ledger;
    oks, events := [], [];
    BooksOpen(h, calls);
    while |oks| < |calls|
      invariant h.Valid() && h.wmiEid == old(h.wmiEid) && h.creditSize == old(h.creditSize) && h.allotted == old(h.allotted)
      invariant |oks| == |events| <= |calls| && Books(h, old(h.wmi.log), old(h.wmiSeq), calls, oks, events)
    {
      oks, events := PerformNext(h, buf, calls, oks, events, old(h.wmi.log), old(h.wmiSeq));
    }
    BooksClosed(h, old(h.wmi.log), old(h.wmiSeq), calls, oks, events);
    h.LedgerFacts();
  }

  /** What the ledger, the log and the sequence number are after the first |oks| calls. */
  ghost predicate Books(h: Htc, log0: seq<HostEvent>, seq0: byte, calls: seq<Call>, oks: seq<bool>, events: seq<seq<HostEvent>>)
    requires |oks| == |events| <= |calls|
    reads h, h.wmi
  {
    var done := calls[..|oks|];
    && h.wmi.log == log0 + Flat(events)
    && h.granted == ReportedIn(Flat(events), h.wmiEid) && h.charged == Paid(done, oks, h.creditSize)
    && h.charged + h.unpaid == CostIn(Flat(events), h.creditSize)
    && h.peak == Excess(done, oks, events, h.wmiEid, h.creditSize)
    && (Succeeded(calls, oks) ==>
          && h.unpaid == 0 && h.wmiSeq == (seq0 + Commands(done)) % 0x100 && Numbered(calls, events, h.wmiEid, seq0))
  }

  lemma BooksOpen(h: Htc, calls: seq<Call>)
    requires h.granted == h.charged == h.unpaid == h.peak == 0
    ensures Books(h, h.wmi.log, h.wmiSeq, calls, [], [])
  {
    hide Numbered, Succeeded;
    SumsOfNothing(calls, h.wmiEid, h.creditSize);
    NoneNumbered(calls, h.wmiEid, h.wmiSeq);
  }

  lemma BooksClosed(h: Htc, log0: seq<HostEvent>, seq0: byte, calls: seq<Call>, oks: seq<bool>, events: seq<seq<HostEvent>>)
    requires |oks| == |events| == |calls| && Books(h, log0, seq0, calls, oks, events)
    ensures h.wmi.log == log0 + Flat(events)
    ensures h.granted == ReportedIn(Flat(events), h.wmiEid) && h.charged == Paid(calls, oks, h.creditSize)
    ensures h.charged + h.unpaid == CostIn(Flat(events), h.creditSize)
    ensures h.peak == Excess(calls, oks, events, h.wmiEid, h.creditSize)
    ensures Succeeded(calls, oks) ==> h.unpaid == 0 && Numbered(calls, events, h.wmiEid, seq0)
  {
    hide Numbered, Succeeded, ReportedIn, CostIn, Paid, Flat, Excess;
    assert calls[..|calls|] == calls;
  }

  /** The next call, and what it does to the books. */
  method PerformNext(h: Htc, buf: array<byte>, calls: seq<Call>, oks: seq<bool>, ghost events: seq<seq<HostEvent>>,
                     ghost log0: seq<HostEvent>, ghost seq0: byte)
    returns (oks': seq<bool>, ghost events': seq<seq<HostEvent>>)
    requires h.Valid() && buf !in h.wmi.repr
    requires |oks| == |events| < |calls| && Books(h, log0, seq0, calls, oks, events)
    modifies h, h.wmi.repr, buf
    ensures h.Valid() && h.wmiEid == old(h.wmiEid) && h.creditSize == old(h.creditSize) && h.allotted == old(h.allotted)
    ensures |oks'| == |events'| == |oks| + 1 && Books(h, log0, seq0, calls, oks', events')
  {
    hide WmiFrame, Commands, Numbered, Succeeded, Htc.Valid, ReportedIn, CostIn, Paid, Flat, Excess;
    hide CECopyPair.Valid, CECopyPair.Outstanding, Htc.Ledger;
    var ok;
    ghost var e;
    ok, e := Perform(h, buf, calls[|oks|]);
    oks', events' := oks + [ok], events + [e];
    SumsAppend(Flat(events), e, h.wmiEid, h.creditSize);
    PaidNext(calls, oks, ok, h.creditSize);
    CommandsNext(calls, |oks|);
    SucceededNext(calls, oks, ok);
    if Succeeded(calls, oks') {
      NumberedNext(calls, events, e, h.wmiEid, seq0);
    }
    ExcessNext(calls, oks, ok, events, e, h.wmiEid, h.creditSize);
  }

  lemma SumsOfNothing(calls: seq<Call>, eid: byte, creditSize: nat)
    ensures ReportedIn([], eid) == 0 && CostIn([], creditSize) == 0 && Paid(calls[..0], [], creditSize) == 0
    ensures Commands(calls[..0]) == 0 && Flat([]) == [] && Excess(calls[..0], [], [], eid, creditSize) == 0
  {
  }

  lemma NoneNumbered(calls: seq<Call>, eid: byte, first: byte)
    ensures Numbered(calls, [], eid, first)
  {
  }
}
