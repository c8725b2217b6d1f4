/** One ring pair: CE0/CE1 for control traffic, CE3/CE2 for WMI. */
module CopyPair {
  import opened Bytes
  import opened Rings

  const ALIGN: nat := 4096
  const EXCHANGE_TIMEOUT_MS: u32 := 10000

  /** What crossed the pair, in the order the host did it. */
  datatype HostEvent = Rang(frame: seq<byte>) | Took(msg: seq<byte>)

  function FramesRung(log: seq<HostEvent>): seq<seq<byte>> {
    if log == [] then []
    else
      var last := log[|log| - 1];
      FramesRung(log[..|log| - 1]) + if last.Rang? then [last.frame] else []
  }

  function FramesTook(log: seq<HostEvent>): seq<seq<byte>> {
    if log == [] then []
    else
      var last := log[|log| - 1];
      FramesTook(log[..|log| - 1]) + if last.Took? then [last.msg] else []
  }

  lemma LogAppend(log: seq<HostEvent>, e: HostEvent)
    ensures FramesRung(log + [e]) == FramesRung(log) + if e.Rang? then [e.frame] else []
    ensures FramesTook(log + [e]) == FramesTook(log) + if e.Took? then [e.msg] else []
  {
    assert (log + [e])[..|log|] == log;
  }

  class CECopyPair {
    const src: SourceRing
    const dst: DestRing
    ghost const repr: set<object>
    ghost var log: seq<HostEvent>

    /**
     No buffer is posted, and 16 never were at once: the host may read the receive buffer. The
     driver's own test is `RxArmed() == 0`, as long as it tests below 15 before each post.
     */
    ghost predicate Idle()
      reads dst
    {
      !dst.overrun && Outstanding() == 0
    }

    ghost predicate Valid()
      reads repr
      ensures Valid() ==> this in repr && src in repr && dst in repr && src.hw in repr && dst.hw in repr && dst.rx in repr
      ensures Valid() ==> dst.consumed <= |dst.hw.delivered| <= dst.posted && dst.Remaining() >= 0
      ensures Valid() ==> dst.rx.Length == RX_BUF_SZ
    {
      && repr == {this} + src.Footprint() + dst.Footprint()
      && src.Footprint() !! dst.Footprint() && this !in src.Footprint() + dst.Footprint()
      && src.Valid() && dst.Valid()
      && FramesRung(log) == src.rung
      && FramesTook(log) == dst.hw.delivered[..dst.consumed]
    }

    /** Buffers posted and not yet consumed. */
    ghost function Outstanding(): int
      reads dst
    {
      dst.posted - dst.consumed
    }

    constructor (base: nat, supply: nat)
      ensures Valid() && fresh(repr)
      ensures log == [] && Idle() && dst.Remaining() == supply
      ensures src.txPhys == base + 8192 && dst.rxPhys == base + 12288
    {
      hide SourceRing.Valid, DestRing.Valid;
      var s := new SourceRing(base + 2 * ALIGN);
      var d := new DestRing(base + 3 * ALIGN, supply);
      src, dst := s, d;
      repr := {this} + s.Footprint() + d.Footprint();
      log := [];
    }

    /** The two rings share no memory, so the receive engine's steps are run after the send. */
    method Send(buf: seq<byte>) returns (ok: bool)
      requires Valid()
      modifies repr
      ensures Valid() && dst.posted == old(dst.posted) && dst.consumed == old(dst.consumed) && dst.overrun == old(dst.overrun)
      ensures dst.Remaining() == old(dst.Remaining())
      ensures old(dst.hw.delivered) <= dst.hw.delivered && (old(dst.Ready()) ==> dst.Ready())
      ensures old(src.hw.taken) <= src.hw.taken
      ensures log == old(log) || (1 <= |buf| <= TX_BUF_SZ && log == old(log) + [Rang(buf)])
      ensures src.rung == if log == old(log) then old(src.rung) else old(src.rung) + [buf]
      ensures ok <==> log != old(log) && src.hw.taken == src.rung
      ensures 1 <= |buf| <= TX_BUF_SZ && old(src.hw.taken == src.rung) ==> log == old(log) + [Rang(buf)]
    {
      hide DestRing.Valid, SourceRing.Valid, DestRing.Ready, FramesRung, FramesTook;
      ghost var polls;
      ok, polls := src.Send(buf, EXCHANGE_TIMEOUT_MS);
      dst.Interfere();
      if src.rung != old(src.rung) {
        LogAppend(log, Rang(buf));
        log := log + [Rang(buf)];
      }
    }

    /** The send whose polls run out after the doorbell, and with it nothing else. */
    method TimedOutSend(buf: seq<byte>) returns (ok: bool)
      requires Valid() && src.hw.taken == src.rung && 1 <= |buf| <= TX_BUF_SZ
      modifies repr
      ensures Valid() && !ok && log == old(log) + [Rang(buf)] && src.rung == old(src.rung) + [buf]
      ensures unchanged(dst, dst.hw, dst.desc, dst.rx)
    {
      hide DestRing.Valid, SourceRing.Valid, FramesRung, FramesTook;
      ok := src.TimedOutSend(buf);
      LogAppend(log, Rang(buf));
      log := log + [Rang(buf)];
    }

    /** Later the engine takes the frame after all, and the target answers with a frame of its own. */
    method LateExchange(msg: seq<byte>)
      requires Valid() && !dst.overrun && Outstanding() == 1 && dst.hw.inbound.Idle? && dst.hw.completed == dst.consumed
      requires dst.hw.supply > 0 && 1 <= |msg| <= RX_BUF_SZ
      modifies repr
      ensures Valid() && log == old(log) && src.rung == old(src.rung) == src.hw.taken
      ensures unchanged(dst) && dst.hw.delivered == old(dst.hw.delivered) + [msg] && |dst.hw.delivered| == dst.consumed + 1
      ensures dst.Ready()
    {
      hide DestRing.Valid, SourceRing.Valid, DestRing.Ready, FramesRung, FramesTook;
      src.CatchUp();
      dst.Deliver(msg);
    }

    method PostRecv() returns (ok: bool)
      requires Valid()
      modifies repr
      ensures Valid() && log == old(log) && src.rung == old(src.rung) && src.hw.taken == old(src.hw.taken)
      ensures dst.Remaining() == old(dst.Remaining())
      ensures ok && dst.posted == old(dst.posted) + 1 && dst.consumed == old(dst.consumed)
      ensures dst.overrun == (old(dst.overrun) || old(Outstanding()) >= RING_N)
      ensures old(dst.hw.delivered) <= dst.hw.delivered
      ensures old(dst.Ready()) && Outstanding() < RING_N ==> dst.Ready()
    {
      ok := dst.PostRecv();
    }

    function RxArmed(): nat
      reads dst
    {
      dst.RxArmed()
    }

    /** Posts only when the indices show nothing outstanding: below 16, never twice. */
    method PostRecvIfIdle() returns (ok: bool)
      requires Valid()
      modifies repr
      ensures Valid() && log == old(log) && src.rung == old(src.rung) && src.hw.taken == old(src.hw.taken)
      ensures dst.Remaining() == old(dst.Remaining())
      ensures ok && dst.consumed == old(dst.consumed)
      ensures Outstanding() == old(Outstanding()) + if old(RxArmed()) == 0 then 1 else 0
      ensures old(Outstanding()) < RING_N ==> (old(RxArmed()) == 0 <==> old(Outstanding()) == 0)
      ensures dst.overrun == (old(dst.overrun) || (old(RxArmed()) == 0 && old(Outstanding()) >= RING_N))
      ensures old(dst.hw.delivered) <= dst.hw.delivered && (old(dst.Ready()) ==> dst.Ready())
    {
      dst.RxArmedIsOutstanding();
      if RxArmed() != 0 {
        return true;
      }
      ok := PostRecv();
    }

    /** A success takes the next frame the target delivered: no skip, no repeat. */
    method RecvWait(timeoutMs: u32) returns (ok: bool, ghost polls: nat)
      requires Valid()
      modifies repr
      ensures Valid() && src.rung == old(src.rung) && src.hw.taken == old(src.hw.taken)
      ensures dst.posted == old(dst.posted) && old(dst.hw.delivered) <= dst.hw.delivered && dst.overrun == old(dst.overrun)
      ensures !ok ==> log == old(log) && dst.consumed == old(dst.consumed) && dst.Remaining() == old(dst.Remaining())
      ensures ok ==> dst.consumed == old(dst.consumed) + 1 && dst.Remaining() == old(dst.Remaining()) - 1
      ensures ok ==> log == old(log) + [Took(Newest())] && dst.rxNbytes <= RX_BUF_SZ
      ensures ok && !dst.overrun ==> dst.rxNbytes == |Newest()|
      ensures ok && Outstanding() == 0 ==> dst.RxHolds(Newest())
      ensures ok && !dst.overrun && RxArmed() == 0 ==> Outstanding() == 0
      ensures old(dst.Ready()) && PollBudget(timeoutMs) > 0 ==> ok
      ensures if ok then polls <= PollBudget(timeoutMs) else polls == PollBudget(timeoutMs)
    {
      hide DestRing.Valid, SourceRing.Valid, DestRing.Ready, FramesRung, FramesTook;
      ok, polls := dst.RecvWait(timeoutMs);
      if ok {
        dst.RxArmedIsOutstanding();
        ghost var msg := Newest();
        assert dst.hw.delivered[..dst.consumed] == old(dst.hw.delivered[..dst.consumed]) + [msg];
        LogAppend(log, Took(msg));
        log := log + [Took(msg)];
      } else {
        assert dst.hw.delivered[..dst.consumed] == old(dst.hw.delivered[..dst.consumed]);
      }
    }

    /** Both engines run on, at any point where the host reads shared memory or does other work. */
    method Interfere()
      requires Valid()
      modifies repr
      ensures Valid() && log == old(log) && src.rung == old(src.rung) && dst.rxNbytes == old(dst.rxNbytes)
      ensures dst.posted == old(dst.posted) && dst.consumed == old(dst.consumed) && dst.overrun == old(dst.overrun)
      ensures old(dst.hw.delivered) <= dst.hw.delivered && old(src.hw.taken) <= src.hw.taken
      ensures dst.Remaining() == old(dst.Remaining()) && Newest() == old(Newest()) && RxArmed() == old(RxArmed())
      ensures Outstanding() == 0 ==> dst.rx[..] == old(dst.rx[..])
      ensures old(dst.Ready()) ==> dst.Ready()
      ensures old(src.hw.taken == src.rung) ==> src.hw.taken == src.rung
    {
      hide DestRing.Valid, SourceRing.Valid, DestRing.Ready, FramesRung, FramesTook;
      src.IdleIffCaughtUp();
      src.Interfere();
      src.IdleIffCaughtUp();
      dst.Interfere();
    }

    /** The frame consumed last. */
    ghost function Newest(): seq<byte>
      reads dst, dst.hw
    {
      if 0 < dst.consumed <= |dst.hw.delivered| then dst.hw.delivered[dst.consumed - 1] else []
    }

    /** The host's next call in an arbitrary run. */
    method AnyCall()
      requires Valid()
      modifies repr
      ensures Valid()
    {
      var choice: int, buf: seq<byte>, timeoutMs: u32 := *, *, *;
      match choice
      case 0 => var _ := Send(buf);
      case 1 => var _ := PostRecv();
      case 2 => var _ := PostRecvIfIdle();
      case 3 => Interfere();
      case _ => var _, _ := RecvWait(timeoutMs);
    }
  }

  /**
   Whatever the host calls, and however the engine's steps interleave, timeouts included: the
   frames taken are the frames rung, in order, lacking at most the last; the host's log is
   consistent with both engines; and unless it posted with 16 buffers outstanding, the lengths
   received are those of the frames delivered, in order.
   */
  method AnyRun(base: nat, supply: nat, calls: nat) returns (p: CECopyPair)
    ensures fresh(p) && p.Valid()
    ensures p.src.hw.taken == p.src.rung || (p.src.rung != [] && p.src.hw.taken == p.src.rung[..|p.src.rung| - 1])
    ensures |p.dst.received| <= |p.dst.hw.delivered|
    ensures !p.dst.overrun ==> forall k | 0 <= k < |p.dst.received| :: p.dst.received[k] == |p.dst.hw.delivered[k]|
    ensures FramesRung(p.log) == p.src.rung && FramesTook(p.log) == p.dst.hw.delivered[..|p.dst.received|]
  {
    p := new CECopyPair(base, supply);
    for i := 0 to calls
      invariant fresh(p) && fresh(p.repr) && p.Valid()
    {
      p.AnyCall();
    }
    if !p.dst.overrun {
      p.dst.LengthsInOrder();
    }
  }
}
