/**
 The two rings of a Copy Engine pair. Each ring has two actors: the polling host, and a DMA
 engine that shares one descriptor ring and one data buffer with it. The engine's steps are
 the `Engine*` methods; `Interfere` runs any number of them in any order, and stands at every
 point where the host reads a register or shared memory.
 */
module Rings {
  import opened Bytes

  const RING_N: nat := 16
  const TX_BUF_SZ: nat := 2048
  const RX_BUF_SZ: nat := 2048
  const POLL_STEP_US: nat := 50

  /** Number of register reads in a poll of the given length; the product wraps at 32 bits. */
  function PollBudget(timeoutMs: u32): nat {
    timeoutMs * 1000 % 0x1_0000_0000 / POLL_STEP_US
  }

  /** Twenty reads a millisecond up to 4,294,967 ms; one more, and the product wraps to almost none. */
  lemma BudgetWraps(timeoutMs: u32)
    ensures timeoutMs <= 4_294_967 ==> PollBudget(timeoutMs) == 20 * timeoutMs
    ensures PollBudget(4_294_968) == 14
  {
  }

  /** Ring slot of the k-th descriptor ever written. */
  function Slot(k: nat): (s: nat)
    ensures s < RING_N
  {
    k % RING_N
  }

  lemma SlotNext(k: nat)
    ensures Slot(k + 1) == (Slot(k) + 1) % RING_N
    ensures Slot(k + 1) != Slot(k)
    ensures Slot(k + RING_N) == Slot(k)
  {
    var q, r := k / 16, k % 16;
    assert k == 16 * q + r;
    assert r < 15 ==> k + 1 == 16 * q + (r + 1);
    assert r == 15 ==> k + 1 == 16 * (q + 1);
    assert k + 16 == 16 * (q + 1) + r;
  }

  /** Fewer than 16 apart, two descriptors never share a slot. */
  lemma SlotsDiffer(k: nat)
    ensures forall j: nat {:trigger Slot(j)} | j != k && j < k + RING_N && k < j + RING_N :: Slot(j) != Slot(k)
  {
  }

  /** Within 32 places of k its slot comes round once. */
  lemma SameSlot(k: nat)
    ensures forall c: nat {:trigger Slot(c)} | k < c < k + 2 * RING_N && Slot(c) == Slot(k) :: c == k + RING_N
  {
  }

  lemma SmallSlots()
    ensures forall k: nat {:trigger Slot(k)} | k < RING_N :: Slot(k) == k
  {
  }

  /** The masked difference counts what is outstanding exactly while fewer than 16 are. */
  lemma MaskedDifference(posted: nat, consumed: nat)
    requires consumed <= posted
    ensures (Slot(posted) - Slot(consumed)) % RING_N == posted - consumed <==> posted < consumed + RING_N
    ensures posted == consumed + RING_N ==> (Slot(posted) - Slot(consumed)) % RING_N == 0
  {
  }

  datatype Descriptor = Descriptor(addr: nat, nbytes: nat, flags: nat)

  // -------------------------------------------------------------------------- source ring

  /** The host-to-target engine: its registers and the transfer in progress. */
  class SourceEngine {
    var wrIndex: nat
    var srri: nat
    var fetching: bool
    var latched: Descriptor
    var fetched: seq<byte>
    ghost var taken: seq<seq<byte>>  // frames read out of host memory, in order

    constructor ()
      ensures wrIndex == srri == 0 && !fetching && taken == []
    {
      wrIndex, srri, fetching, latched, fetched, taken := 0, 0, false, Descriptor(0, 0, 0), [], [];
    }
  }

  class SourceRing {
    const hw: SourceEngine
    const txPhys: nat
    const desc: array<Descriptor>
    const tx: array<byte>
    var srcWrite: nat
    ghost var rung: seq<seq<byte>>  // frames the host rang the doorbell for, in order

    ghost predicate Shape() {
      desc.Length == RING_N && tx.Length == TX_BUF_SZ
    }

    ghost function Footprint(): set<object> {
      {this, hw, desc, tx}
    }

    /** The ring is a FIFO with at most one frame in flight, and that frame is still intact. */
    ghost predicate Valid()
      reads this, hw, desc, tx
      ensures Valid() ==> Shape()
    {
      && Shape()
      && srcWrite == hw.wrIndex == Slot(|rung|)
      && hw.srri == Slot(|hw.taken|)
      && (hw.taken == rung || (rung != [] && hw.taken == rung[..|rung| - 1] && Pending(rung[|rung| - 1])))
      && (hw.fetching ==>
          && hw.taken != rung
          && hw.latched == desc[hw.srri]
          && hw.fetched <= rung[|rung| - 1])
    }

    /** The shared buffer and the next descriptor hold `frame`, whole. */
    ghost predicate Pending(frame: seq<byte>)
      requires Shape()
      reads hw, desc, tx
    {
      && hw.srri < RING_N
      && 1 <= |frame| <= TX_BUF_SZ
      && desc[hw.srri] == Descriptor(txPhys, |frame|, 0)
      && tx[..|frame|] == frame
    }

    constructor (txPhys: nat)
      ensures Valid() && fresh(Footprint()) && rung == [] && this.txPhys == txPhys
    {
      this.txPhys := txPhys;
      hw := new SourceEngine();
      desc := new Descriptor[RING_N](_ => Descriptor(0, 0, 0));
      tx := new byte[TX_BUF_SZ](_ => 0);
      srcWrite, rung := 0, [];
    }

    function BusRead(addr: nat): byte
      requires Shape()
      reads tx
    {
      if txPhys <= addr < txPhys + TX_BUF_SZ then tx[addr - txPhys] else 0
    }

    method EngineLatch()
      requires Valid()
      modifies hw
      ensures Valid() && hw.taken == old(hw.taken)
      ensures hw.fetching == (old(hw.fetching) || hw.srri != hw.wrIndex)
    {
      hide Slot;
      if !hw.fetching && hw.srri != hw.wrIndex {
        hw.fetching, hw.latched, hw.fetched := true, desc[hw.srri], [];
      }
    }

    method EngineFetchByte()
      requires Valid()
      modifies hw
      ensures Valid() && hw.taken == old(hw.taken) && hw.fetching == old(hw.fetching) && hw.latched == old(hw.latched)
      ensures |hw.fetched| == |old(hw.fetched)| + if hw.fetching && |old(hw.fetched)| < hw.latched.nbytes then 1 else 0
    {
      hide Slot;
      if hw.fetching && |hw.fetched| < hw.latched.nbytes {
        hw.fetched := hw.fetched + [BusRead(hw.latched.addr + |hw.fetched|)];
      }
    }

    method EngineFinish()
      requires Valid()
      modifies hw
      ensures Valid() && old(hw.taken) <= hw.taken
      ensures old(hw.fetching && |hw.fetched| == hw.latched.nbytes) ==> hw.taken == rung
    {
      hide Slot;
      if hw.fetching && |hw.fetched| == hw.latched.nbytes {
        SlotNext(|hw.taken|);
        assert hw.fetched == rung[|rung| - 1];
        assert rung == rung[..|rung| - 1] + [hw.fetched];
        hw.taken := hw.taken + [hw.fetched];
        hw.srri := (hw.srri + 1) % RING_N;
        hw.fetching := false;
      }
    }

    /** From any state, left to itself, the engine takes the frame in flight: a late send still arrives. */
    method CatchUp()
      requires Valid()
      modifies hw
      ensures Valid() && hw.taken == rung
    {
      IdleIffCaughtUp();
      if hw.srri == srcWrite {
        return;
      }
      EngineLatch();
      FetchFits();
      while |hw.fetched| < hw.latched.nbytes
        invariant Valid() && hw.fetching && |hw.fetched| <= hw.latched.nbytes
        decreases hw.latched.nbytes - |hw.fetched|
      {
        EngineFetchByte();
        FetchFits();
      }
      EngineFinish();
    }

    lemma FetchFits()
      requires Valid() && hw.fetching
      ensures |hw.fetched| <= hw.latched.nbytes
    {
    }

    /** Any number of engine steps, in any order. */
    method Interfere()
      requires Valid()
      modifies hw
      ensures Valid() && old(hw.taken) <= hw.taken
    {
      hide Valid;
      var steps: int := *;
      while steps > 0
        invariant Valid() && old(hw.taken) <= hw.taken
      {
        steps := steps - 1;
        var choice: int := *;
        match choice
        case 0 => EngineLatch();
        case 1 => EngineFetchByte();
        case _ => EngineFinish();
      }
    }

    /** Polls SRRI until it reaches the write index or the budget runs out, after `polls` reads. */
    method PollSrri(deadline: nat) returns (srri: nat, ghost polls: nat)
      requires Valid()
      modifies hw
      ensures Valid() && old(hw.taken) <= hw.taken && srri == hw.srri
      ensures if srri == srcWrite then polls <= deadline + 1 else polls == deadline + 1
    {
      hide Valid;
      Interfere();
      srri, polls := hw.srri, 1;
      var i := 0;
      while i < deadline && srri != srcWrite
        invariant Valid() && old(hw.taken) <= hw.taken && srri == hw.srri
        invariant i <= deadline && polls == i + 1
      {
        Interfere();
        srri, polls := hw.srri, polls + 1;
        i := i + 1;
      }
    }

    /**
     Sends one frame: waits until the engine has caught up, fills the shared buffer and the
     next descriptor, rings the doorbell, and waits for the engine to take the frame.
     A call rings for at most its own frame, and does ring whenever the ring was idle on entry.
     Once rung it succeeds exactly if the engine has taken the frame. A legal frame fails only
     after one of the two waits has read SRRI its whole budget through (`polls`).
     */
    method Send(buf: seq<byte>, timeoutMs: u32) returns (ok: bool, ghost polls: nat)
      requires Valid()
      modifies this, hw, desc, tx
      ensures Valid()
      ensures rung == old(rung) || (1 <= |buf| <= 2048 && rung == old(rung) + [buf])
      ensures ok <==> rung != old(rung) && hw.taken == rung
      ensures !ok && 1 <= |buf| <= TX_BUF_SZ ==> polls == PollBudget(timeoutMs) + 1
      ensures 1 <= |buf| <= 2048 && old(hw.taken == rung) ==> rung == old(rung) + [buf]
      ensures old(hw.taken) <= hw.taken
    {
      hide Slot;
      polls := 0;
      if |buf| == 0 || |buf| > TX_BUF_SZ || |buf| > 0xFFFF {
        return false, polls;
      }
      var deadline := PollBudget(timeoutMs);
      var srri;
      srri, polls := PollSrri(deadline);
      IdleIffCaughtUp();
      if srri != srcWrite {
        return false, polls;
      }
      FillAndRing(buf);
      srri, polls := PollSrri(deadline);
      IdleIffCaughtUp();
      ok := srri == srcWrite;
    }

    /** The one register comparison the driver makes decides whether a frame is in flight. */
    lemma IdleIffCaughtUp()
      requires Valid()
      ensures hw.srri == srcWrite <==> hw.taken == rung
      ensures hw.taken <= rung
    {
      hide Slot;
      if hw.taken != rung { SlotNext(|hw.taken|); }
    }

    /** Buffer, then descriptor, then doorbell, with the engine running in between. */
    method FillAndRing(buf: seq<byte>)
      requires Valid() && hw.taken == rung && 1 <= |buf| <= TX_BUF_SZ
      modifies this, hw, desc, tx
      ensures Valid() && rung == old(rung) + [buf] && old(hw.taken) <= hw.taken
    {
      hide Valid;
      Fill(buf);
      Interfere();
      IdleIffCaughtUp();
      Describe(|buf|);
      Interfere();
      IdleIffCaughtUp();
      RingDoorbell(buf);
      Interfere();
    }

    method Fill(buf: seq<byte>)
      requires Valid() && hw.taken == rung && 1 <= |buf| <= TX_BUF_SZ
      modifies tx
      ensures Valid() && |buf| <= tx.Length && tx[..|buf|] == buf
    {
      hide Slot;
      forall j | 0 <= j < |buf| { tx[j] := buf[j]; }
    }

    method Describe(len: nat)
      requires Valid() && hw.taken == rung
      modifies desc
      ensures Valid() && srcWrite < RING_N && desc[srcWrite] == Descriptor(txPhys, len, 0)
    {
      hide Slot;
      desc[srcWrite] := Descriptor(txPhys, len, 0);
    }

    method RingDoorbell(ghost buf: seq<byte>)
      requires Valid() && hw.taken == rung && 1 <= |buf| <= TX_BUF_SZ && tx[..|buf|] == buf
      requires srcWrite < RING_N && desc[srcWrite] == Descriptor(txPhys, |buf|, 0)
      modifies `srcWrite, `rung, hw`wrIndex
      ensures Valid() && rung == old(rung) + [buf]
    {
      hide Slot;
      SlotNext(|rung|);
      srcWrite := (srcWrite + 1) % RING_N;
      hw.wrIndex := srcWrite;
      rung := rung + [buf];
    }

    /** A send from an idle ring during which the engine does not stir: every poll reads the same SRRI. */
    method TimedOutSend(buf: seq<byte>) returns (ok: bool)
      requires Valid() && hw.taken == rung && 1 <= |buf| <= TX_BUF_SZ
      modifies this, desc, tx, hw`wrIndex
      ensures Valid() && !ok && rung == old(rung) + [buf]
    {
      hide Valid;
      Fill(buf);
      Describe(|buf|);
      RingDoorbell(buf);
      IdleIffCaughtUp();
      ok := hw.srri == srcWrite;
    }
  }

  // --------------------------------------------------------------------- destination ring

  /** The engine's progress on the frame it is delivering. */
  datatype Inbound = Idle | Filling(addr: nat, msg: seq<byte>, put: nat) | Filled

  /** The target-to-host engine. `unlanded` holds lengths not yet written back, by slot. */
  class DestEngine {
    var wrIndex: nat
    var drri: nat
    var inbound: Inbound
    var unlanded: map<nat, nat>
    var supply: nat                       // frames the target will still send: any finite number
    ghost var delivered: seq<seq<byte>>   // frames written into host memory, in order
    ghost var completed: nat              // how many of them DRRI has counted

    constructor (supply: nat)
      ensures wrIndex == drri == completed == 0 && inbound == Idle && unlanded == map[]
      ensures delivered == [] && this.supply == supply
    {
      wrIndex, drri, inbound, unlanded := 0, 0, Idle, map[];
      delivered, completed := [], 0;
      this.supply := supply;
    }
  }

  class DestRing {
    const hw: DestEngine
    const rxPhys: nat
    const desc: array<Descriptor>
    const rx: array<byte>
    var dstWrite: nat
    var dstSw: nat
    var rxNbytes: nat
    ghost var posted: nat         // buffers ever posted
    ghost var consumed: nat       // completions the host has taken
    ghost var received: seq<nat>  // the lengths it was told
    ghost var overrun: bool       // a buffer was posted with 16 outstanding already

    ghost predicate Shape() {
      desc.Length == RING_N && rx.Length == RX_BUF_SZ
    }

    ghost function Footprint(): set<object> {
      {this, hw, desc, rx}
    }

    ghost predicate Valid()
      reads this, hw, desc, rx
      ensures Valid() ==> Shape() && consumed <= hw.completed <= |hw.delivered| <= posted
      ensures Valid() && !overrun ==> posted <= consumed + RING_N
    {
      Shape() && Indices() && Slots() && Buffer()
    }

    ghost predicate Indices()
      reads `posted, `consumed, `received, `overrun, `dstWrite, `dstSw
      reads hw`wrIndex, hw`drri, hw`inbound, hw`delivered, hw`completed
    {
      && consumed <= hw.completed <= posted && (if overrun then RING_N <= posted else posted <= consumed + RING_N)
      && dstWrite == hw.wrIndex == Slot(posted)
      && dstSw == Slot(consumed) && hw.drri == Slot(hw.completed)
      && |hw.delivered| == hw.completed + (if hw.inbound.Filled? then 1 else 0) <= posted
      && (hw.inbound.Filling? ==>
          && hw.completed < posted && hw.inbound.addr == rxPhys
          && 1 <= |hw.inbound.msg| <= RX_BUF_SZ && hw.inbound.put <= |hw.inbound.msg|)
      && (forall k | 0 <= k < |hw.delivered| :: 1 <= |hw.delivered[k]| <= RX_BUF_SZ)
      && |received| == consumed
      && (!overrun ==> forall k | 0 <= k < consumed :: received[k] == |hw.delivered[k]|)
    }

    /**
     Every descriptor ever posted names the one buffer, and no length exceeds it. Unless a slot
     was reused too soon, all 16 slots are accounted for: completed, posted and untouched, or free.
     */
    ghost predicate Slots()
      requires Shape()
      reads `posted, `consumed, `overrun, hw`delivered, hw`unlanded, desc
    {
      && (forall k: nat {:trigger Slot(k)} | k < posted :: desc[Slot(k)].addr == rxPhys)
      && (forall s | 0 <= s < RING_N :: desc[s].nbytes <= RX_BUF_SZ)
      && (forall s | s in hw.unlanded :: 1 <= hw.unlanded[s] <= RX_BUF_SZ)
      && (!overrun ==> Accounted())
    }

    ghost predicate Accounted()
      requires Shape()
      reads `posted, `consumed, hw`delivered, hw`unlanded, desc
    {
      && (forall k: nat {:trigger Slot(k)} | consumed <= k < |hw.delivered| :: SlotDone(Slot(k), |hw.delivered[k]|))
      && (forall k: nat {:trigger Slot(k)} | |hw.delivered| <= k < posted :: SlotOpen(Slot(k)))
      && (forall k: nat {:trigger Slot(k)} | posted <= k < consumed + RING_N :: Slot(k) !in hw.unlanded)
    }

    /** A completion of n bytes: either its length has landed, or the slot still reads 0. */
    ghost predicate SlotDone(slot: nat, n: nat)
      requires Shape() && slot < RING_N
      reads hw`unlanded, desc
    {
      if slot in hw.unlanded then desc[slot].nbytes == 0 && hw.unlanded[slot] == n
      else desc[slot].nbytes == n
    }

    /** A posted buffer the engine has not used: length 0, nothing about to land. */
    ghost predicate SlotOpen(slot: nat)
      requires Shape() && slot < RING_N
      reads hw`unlanded, desc
    {
      desc[slot] == Descriptor(rxPhys, 0, 0) && slot !in hw.unlanded
    }

    /** The receive buffer holds the newest frame: whole once written, a prefix before. */
    ghost predicate Buffer()
      reads hw`inbound, hw`delivered, rx
    {
      match hw.inbound
      case Filling(_, msg, put) => put <= |msg| <= rx.Length && rx[..put] == msg[..put]
      case _ => hw.delivered != [] ==> RxHolds(hw.delivered[|hw.delivered| - 1])
    }

    ghost predicate RxHolds(msg: seq<byte>)
      reads rx
    {
      |msg| <= rx.Length && rx[..|msg|] == msg
    }

    /** Frames still to be sent, being sent, or sent and not yet consumed. */
    ghost function Remaining(): int
      reads this, hw
    {
      hw.supply + (if hw.inbound.Filling? then 1 else 0) + |hw.delivered| - consumed
    }

    /** The oldest posted buffer has completed, its length has landed, and the indices show it. */
    ghost predicate Ready()
      requires Shape()
      reads this, hw, desc
    {
      consumed < hw.completed && posted < consumed + RING_N && dstSw < RING_N && desc[dstSw].nbytes != 0
    }

    /** What the host may rely on whatever the engine does meanwhile. */
    twostate predicate Rely()
      requires Shape()
      reads this, hw, desc, rx
    {
      && old(hw.delivered) <= hw.delivered && old(hw.completed) <= hw.completed
      && Remaining() == old(Remaining())
      && (old(|hw.delivered|) == posted ==> rx[..] == old(rx[..]) && hw.delivered == old(hw.delivered))
      && (old(Ready()) ==> Ready())
      && (!overrun ==> forall k: nat {:trigger Slot(k)} | posted <= k < consumed + RING_N :: desc[Slot(k)] == old(desc[Slot(k)]))
    }

    constructor (rxPhys: nat, supply: nat)
      ensures Valid() && fresh(Footprint()) && this.rxPhys == rxPhys
      ensures posted == consumed == 0 && received == [] && hw.delivered == [] && Remaining() == supply && !overrun
    {
      this.rxPhys := rxPhys;
      hw := new DestEngine(supply);
      desc := new Descriptor[RING_N](_ => Descriptor(0, 0, 0));
      rx := new byte[RX_BUF_SZ](_ => 0);
      dstWrite, dstSw, rxNbytes, posted, consumed, received, overrun := 0, 0, 0, 0, 0, [], false;
    }

    method BusWrite(addr: nat, b: byte)
      requires Shape()
      modifies rx
      ensures forall i | 0 <= i < RX_BUF_SZ :: rx[i] == if rxPhys + i == addr then b else old(rx[i])
    {
      if rxPhys <= addr < rxPhys + RX_BUF_SZ {
        rx[addr - rxPhys] := b;
      }
    }

    method EngineBegin(msg: seq<byte>)
      requires Valid()
      modifies hw`inbound, hw`supply
      ensures Valid() && Rely()
      ensures old(hw.inbound.Idle? && hw.drri != hw.wrIndex && hw.supply > 0) && 1 <= |msg| <= RX_BUF_SZ ==>
                hw.inbound.Filling? && hw.inbound.msg == msg && hw.inbound.put == 0 && hw.supply == old(hw.supply) - 1
    {
      hide Slot;
      if hw.inbound.Idle? && hw.drri != hw.wrIndex && hw.supply > 0 && 1 <= |msg| <= RX_BUF_SZ {
        assert desc[Slot(hw.completed)].addr == rxPhys;
        hw.inbound := Filling(desc[hw.drri].addr, msg, 0);
        hw.supply := hw.supply - 1;
      }
    }

    method EnginePutByte()
      requires Valid()
      modifies hw`inbound, rx
      ensures Valid() && Rely()
      ensures var was := old(hw.inbound);
              hw.inbound == if was.Filling? && was.put < |was.msg| then was.(put := was.put + 1) else was
    {
      hide Slot, Slots;
      match hw.inbound
      case Filling(addr, msg, put) =>
        if put < |msg| {
          BusWrite(addr + put, msg[put]);
          hw.inbound := Filling(addr, msg, put + 1);
          assert rx[..put + 1] == msg[..put + 1] by {
            assert old(rx[..put]) == msg[..put];
            assert forall i | 0 <= i < put :: rx[i] == old(rx[..put])[i];
          }
        }
      case _ =>
    }

    method EngineFinishPayload()
      requires Valid()
      modifies hw`inbound, hw`unlanded, hw`delivered
      ensures Valid() && Rely()
      ensures var was := old(hw.inbound);
              was.Filling? && was.put == |was.msg| ==>
                && hw.delivered == old(hw.delivered) + [was.msg] && hw.inbound.Filled?
                && hw.unlanded == old(hw.unlanded)[hw.drri := |was.msg|]
    {
      hide Slot, Slots;
      match hw.inbound
      case Filling(_, msg, put) =>
        if put == |msg| {
          assert RxHolds(msg) by { assert msg[..put] == msg; }
          hw.unlanded := hw.unlanded[hw.drri := |msg|];
          hw.delivered := hw.delivered + [msg];
          hw.inbound := Filled;
          LengthNoted(msg);
        }
      case _ =>
    }

    /** Another frame delivered, its length about to land in the first slot that was open. */
    twostate lemma LengthNoted(msg: seq<byte>)
      requires Shape() && old(Slots()) && unchanged(`posted, `consumed, `overrun, desc) && 1 <= |msg| <= RX_BUF_SZ
      requires consumed <= |old(hw.delivered)| < posted && (!overrun ==> posted <= consumed + RING_N)
      requires hw.delivered == old(hw.delivered) + [msg]
      requires hw.unlanded == old(hw.unlanded)[Slot(|old(hw.delivered)|) := |msg|]
      ensures Slots()
    {
      hide Slot;
      SlotsDiffer(|old(hw.delivered)|);
      assert !overrun ==> old(SlotOpen(Slot(|hw.delivered|)));
    }

    method EngineAdvanceDrri()
      requires Valid()
      modifies hw`inbound, hw`drri, hw`completed
      ensures Valid() && Rely()
      ensures if old(hw.inbound).Filled?
              then hw.inbound.Idle? && hw.completed == old(hw.completed) + 1 && hw.drri == (old(hw.drri) + 1) % RING_N
              else hw.inbound == old(hw.inbound) && hw.completed == old(hw.completed) && hw.drri == old(hw.drri)
    {
      hide Slot, Slots;
      if hw.inbound.Filled? {
        SlotNext(hw.completed);
        hw.drri := (hw.drri + 1) % RING_N;
        hw.completed := hw.completed + 1;
        hw.inbound := Idle;
      }
    }

    /** The length write-back; it may come before or after the index moves. */
    method EngineLand(slot: nat)
      requires Valid()
      modifies hw`unlanded, desc
      ensures Valid() && Rely()
      ensures if slot in old(hw.unlanded) && slot < RING_N
              then hw.unlanded == old(hw.unlanded) - {slot}
                   && desc[..] == old(desc[..])[slot := old(desc[slot]).(nbytes := old(hw.unlanded)[slot])]
              else hw.unlanded == old(hw.unlanded) && desc[..] == old(desc[..])
    {
      hide Slot, Indices, Buffer;
      if slot in hw.unlanded && slot < RING_N {
        desc[slot] := desc[slot].(nbytes := hw.unlanded[slot]);
        hw.unlanded := hw.unlanded - {slot};
      }
    }

    /** While its indices differ the engine can deliver any frame, and land its length at once. */
    method DeliverNext(msg: seq<byte>)
      requires Valid() && hw.inbound.Idle? && hw.drri != hw.wrIndex && hw.drri < RING_N
      requires hw.supply > 0 && 1 <= |msg| <= RX_BUF_SZ
      modifies hw, desc, rx
      ensures Valid() && hw.delivered == old(hw.delivered) + [msg] && hw.inbound.Idle? && RxHolds(msg)
      ensures hw.completed == old(hw.completed) + 1 == |hw.delivered| && hw.supply == old(hw.supply) - 1
      ensures hw.wrIndex == old(hw.wrIndex) && hw.drri == (old(hw.drri) + 1) % RING_N
      ensures desc[..] == old(desc[..])[old(hw.drri) := old(desc[hw.drri]).(nbytes := |msg|)]
    {
      hide Slot, Slots, Rely;
      EngineBegin(msg);
      while hw.inbound.put < |msg|
        invariant Valid() && hw.inbound.Filling? && hw.inbound.msg == msg && hw.inbound.put <= |msg|
        invariant unchanged(desc, hw`delivered, hw`completed, hw`drri, hw`wrIndex) && hw.supply == old(hw.supply) - 1
        decreases |msg| - hw.inbound.put
      {
        EnginePutByte();
      }
      var slot := hw.drri;
      EngineFinishPayload();
      EngineAdvanceDrri();
      EngineLand(slot);
      NewestIsHeld();
    }

    /** With a buffer posted and free, a frame so delivered is ready for the host to take. */
    method Deliver(msg: seq<byte>)
      requires Valid() && !overrun && posted < consumed + RING_N
      requires hw.inbound.Idle? && hw.completed < posted && hw.supply > 0 && 1 <= |msg| <= RX_BUF_SZ
      modifies hw, desc, rx
      ensures Valid() && hw.delivered == old(hw.delivered) + [msg] && hw.inbound.Idle? && RxHolds(msg)
      ensures hw.completed == old(hw.completed) + 1 == |hw.delivered| && hw.supply == old(hw.supply) - 1 && Ready()
      ensures Remaining() == old(Remaining())
    {
      hide Valid, Slot;
      IndicesDiffer();
      DeliverNext(msg);
      EngineLand(dstSw);
      LandedIsReady();
    }

    lemma IndicesDiffer()
      requires Valid()
      ensures hw.drri < RING_N && dstSw < RING_N
      ensures hw.completed < posted < hw.completed + RING_N ==> hw.drri != hw.wrIndex
    {
      hide Slot, Slots, Buffer;
      SlotsDiffer(hw.completed);
    }

    lemma NewestIsHeld()
      requires Valid() && !hw.inbound.Filling? && hw.delivered != []
      ensures RxHolds(hw.delivered[|hw.delivered| - 1])
    {
      hide Slot, Slots;
    }

    lemma LandedIsReady()
      requires Valid() && !overrun && posted < consumed + RING_N && dstSw !in hw.unlanded && consumed < hw.completed
      ensures Ready()
    {
      hide Slot;
      assert SlotDone(Slot(consumed), |hw.delivered[consumed]|);
    }

    /** Any number of engine steps, in any order. */
    method Interfere()
      requires Valid()
      modifies hw, desc, rx
      ensures Valid() && Rely()
    {
      hide Valid, Slot;
      var steps: int := *;
      while steps > 0
        invariant Valid() && Rely()
      {
        steps := steps - 1;
        var choice: int, slot: int, msg: seq<byte> := *, *, *;
        match choice
        case 0 => EngineBegin(msg);
        case 1 => EnginePutByte();
        case 2 => EngineFinishPayload();
        case 3 => EngineAdvanceDrri();
        case _ => EngineLand(if slot < 0 then 0 else slot);
      }
    }

    /** Posted minus consumed, as the driver computes it from the masked indices. */
    function RxArmed(): nat
      reads this
    {
      (dstWrite - dstSw) % RING_N
    }

    /** It is right exactly while fewer than 16 are outstanding. */
    lemma RxArmedIsOutstanding()
      requires Valid()
      ensures RxArmed() == posted - consumed <==> posted < consumed + RING_N
      ensures posted == consumed + RING_N ==> RxArmed() == 0
    {
      hide Slot, Slots, Buffer;
      MaskedDifference(posted, consumed);
    }

    /** No skip, no duplicate, no stale length, over any number of wraps of the ring. */
    lemma LengthsInOrder()
      requires Valid() && !overrun
      ensures |received| == consumed <= |hw.delivered|
      ensures forall k | 0 <= k < |received| :: received[k] == |hw.delivered[k]|
      ensures forall k | 0 <= k < |hw.delivered| :: 1 <= |hw.delivered[k]| <= RX_BUF_SZ
    {
      hide Slot;
    }

    /**
     Posts the shared receive buffer once more, whether or not it is already posted. With 16
     outstanding the post reuses the oldest one's descriptor; with fewer it disturbs nothing.
     */
    method PostRecv() returns (ok: bool)
      requires Valid()
      modifies this, hw, desc, rx
      ensures Valid() && Remaining() == old(Remaining())
      ensures ok && posted == old(posted) + 1 && consumed == old(consumed) && received == old(received)
      ensures overrun == (old(overrun) || old(posted) >= consumed + RING_N)
      ensures old(hw.delivered) <= hw.delivered
      ensures old(Ready()) && posted < consumed + RING_N ==> Ready()
    {
      hide Valid, Slot;
      IndexFacts();
      WriteFree();
      Interfere();
      RingDoorbell();
      Interfere();
      ok := true;
    }

    /** Writes the next descriptor, length 0: a free slot, or the oldest completion's if 16 are outstanding. */
    method WriteFree()
      requires Valid()
      modifies desc, `overrun
      ensures Valid() && desc[Slot(posted)] == Descriptor(rxPhys, 0, 0)
      ensures overrun == (old(overrun) || posted >= consumed + RING_N)
      ensures Remaining() == old(Remaining()) && (old(Ready()) ==> Ready())
      ensures posted == consumed + RING_N ==> desc[dstSw].nbytes == 0
    {
      hide Valid, Slot;
      IndexFacts();
      SlotNext(consumed);
      NoteOverrun();
      WriteSlot();
    }

    ghost method NoteOverrun()
      requires Valid()
      modifies `overrun
      ensures Valid() && overrun == (old(overrun) || posted >= consumed + RING_N)
      ensures !overrun ==> posted < consumed + RING_N
    {
      hide Slot, Accounted, Buffer;
      overrun := overrun || posted >= consumed + RING_N;
    }

    method WriteSlot()
      requires Valid() && (!overrun ==> posted < consumed + RING_N)
      modifies desc
      ensures Valid() && desc[Slot(posted)] == Descriptor(rxPhys, 0, 0) && (old(Ready()) ==> Ready())
    {
      hide Slot, Buffer;
      SlotsDiffer(posted);
      desc[dstWrite] := Descriptor(rxPhys, 0, 0);
    }

    lemma NextIsOpen()
      requires Valid() && (!overrun ==> desc[Slot(posted)] == Descriptor(rxPhys, 0, 0) && posted < consumed + RING_N)
      ensures desc[Slot(posted)].addr == rxPhys && (!overrun ==> SlotOpen(Slot(posted)))
    {
      hide Slot, Buffer;
      if overrun { SlotNext(posted - RING_N); }
    }

    method RingDoorbell()
      requires Valid() && (!overrun ==> desc[Slot(posted)] == Descriptor(rxPhys, 0, 0) && posted < consumed + RING_N)
      modifies `dstWrite, `posted, hw`wrIndex
      ensures Valid() && posted == old(posted) + 1
    {
      hide Slot, Buffer, Accounted, SlotOpen;
      SlotNext(posted);
      NextIsOpen();
      dstWrite := (dstWrite + 1) % RING_N;
      hw.wrIndex := dstWrite;
      posted := posted + 1;
      if !overrun { OnePosted(); }
    }

    /** The slot posted next was open already. */
    twostate lemma OnePosted()
      requires Shape() && old(Accounted()) && unchanged(`consumed, hw`delivered, hw`unlanded, desc)
      requires posted == old(posted) + 1 && SlotOpen(Slot(old(posted)))
      ensures Accounted()
    {
      hide Slot, SlotOpen, SlotDone;
    }

    /**
     The one register comparison the driver makes: it never sees a completion that is not there,
     and misses none while fewer than 16 wait.
     */
    lemma IndexFacts()
      requires Valid()
      ensures dstSw == Slot(consumed) && hw.drri == Slot(hw.completed)
      ensures hw.drri != dstSw ==> consumed < hw.completed
      ensures hw.completed < consumed + RING_N ==> (hw.drri != dstSw <==> consumed < hw.completed)
    {
      hide Slot;
      SlotsDiffer(consumed);
    }

    /**
     Waits for the oldest posted buffer. DRRI may move before the length lands, so a zero
     length keeps polling. A success consumes exactly the next completion; a failure has polled
     its whole budget through.
     */
    method RecvWait(timeoutMs: u32) returns (ok: bool, ghost polls: nat)
      requires Valid()
      modifies this, hw, desc, rx
      ensures Valid() && posted == old(posted) && old(hw.delivered) <= hw.delivered
      ensures !ok ==> consumed == old(consumed) && received == old(received) && Remaining() == old(Remaining())
      ensures ok ==> consumed == old(consumed) + 1 && Remaining() == old(Remaining()) - 1
      ensures if ok then polls <= PollBudget(timeoutMs) else polls == PollBudget(timeoutMs)
      ensures overrun == old(overrun) && (old(|hw.delivered|) == posted ==> rx[..] == old(rx[..]))
      ensures ok ==> 1 <= rxNbytes <= RX_BUF_SZ && received == old(received) + [rxNbytes]
      ensures ok && !overrun ==> rxNbytes == |hw.delivered[consumed - 1]|
      ensures ok && consumed == posted ==> RxHolds(hw.delivered[consumed - 1])
      ensures ok && !overrun && RxArmed() == 0 ==> RxHolds(hw.delivered[consumed - 1])
      ensures old(Ready()) && PollBudget(timeoutMs) > 0 ==> ok
    {
      hide Valid, Slot;
      var deadline := PollBudget(timeoutMs);
      var i := 0;
      polls := 0;
      while i < deadline
        invariant Valid() && Rely() && unchanged(this)
        invariant old(Ready()) ==> i == 0
        invariant polls == i <= deadline
      {
        polls := polls + 1;
        Interfere();
        var drri := hw.drri;
        IndexFacts();
        if drri != dstSw {
          Interfere();
          var d := desc[dstSw];
          if d.nbytes != 0 {
            Consume(d.nbytes);
            RxArmedIsOutstanding();
            return true, polls;
          }
        }
        i := i + 1;
      }
      Interfere();
      return false, polls;
    }

    /** Takes the completion at dstSw, whose length has been read as n. */
    method Consume(n: nat)
      requires Valid() && consumed < hw.completed && n == desc[dstSw].nbytes != 0
      modifies this
      ensures Valid() && posted == old(posted) && consumed == old(consumed) + 1
      ensures rxNbytes == n <= RX_BUF_SZ && received == old(received) + [n] && overrun == old(overrun)
      ensures !overrun ==> n == |hw.delivered[consumed - 1]|
      ensures consumed == posted ==> RxHolds(hw.delivered[consumed - 1])
    {
      hide Slot, Buffer, Accounted;
      SlotNext(consumed);
      if !overrun { OldestShows(); }
      rxNbytes := n;
      dstSw := (dstSw + 1) % RING_N;
      received := received + [n];
      consumed := consumed + 1;
      if !overrun { OneConsumed(); }
      if consumed == posted {
        NewestIsHeld();
      }
    }

    /** A length that shows at the oldest completion's slot is that frame's, and has landed. */
    lemma OldestShows()
      requires Shape() && Accounted() && consumed < |hw.delivered| && desc[Slot(consumed)].nbytes != 0
      ensures desc[Slot(consumed)].nbytes == |hw.delivered[consumed]| && Slot(consumed) !in hw.unlanded
    {
      hide Slot;
      assert SlotDone(Slot(consumed), |hw.delivered[consumed]|);
    }

    /** Its slot is free for the post 16 later. */
    twostate lemma OneConsumed()
      requires Shape() && old(Accounted()) && unchanged(`posted, hw`delivered, hw`unlanded, desc)
      requires consumed == old(consumed) + 1 <= |hw.delivered| && Slot(old(consumed)) !in hw.unlanded
      ensures Accounted()
    {
      hide Slot, SlotOpen, SlotDone;
      SlotNext(old(consumed));
      assert forall k: nat {:trigger Slot(k)} | posted <= k < consumed + RING_N ::
               k < old(consumed) + RING_N || k == old(consumed) + RING_N;
    }

    /** What the host does in one poll that finds something: the two checks, then the consumption. */
    method TakeNow() returns (ok: bool)
      requires Valid() && consumed < hw.completed < consumed + RING_N && desc[dstSw].nbytes != 0
      modifies this
      ensures Valid() && ok && posted == old(posted) && consumed == old(consumed) + 1 && overrun == old(overrun)
      ensures rxNbytes == desc[old(dstSw)].nbytes && (!overrun ==> rxNbytes == |hw.delivered[consumed - 1]|)
    {
      hide Valid, Slot;
      IndexFacts();
      var n := desc[dstSw].nbytes;
      ok := hw.drri != dstSw && n != 0;
      Consume(n);
    }

    /**
     Why the buffer may be read only when `RxArmed()` is 0 afterwards. From any state with two to
     fifteen buffers posted and none of them used, whatever two frames that differ in their first
     byte: the target can deliver so that the host takes the first frame with its own length
     while the buffer holds the second.
     */
    method AliasedReceive(one: seq<byte>, two: seq<byte>) returns (ok: bool)
      requires Valid() && !overrun && consumed + 2 <= posted < consumed + RING_N && hw.completed == consumed
      requires hw.inbound.Idle? && hw.supply >= 2
      requires 1 <= |one| <= RX_BUF_SZ && 1 <= |two| <= RX_BUF_SZ && one[0] != two[0]
      modifies this, hw, desc, rx
      ensures Valid() && ok && consumed == old(consumed) + 1 && RxArmed() == posted - consumed > 0
      ensures hw.delivered[consumed - 1] == one && rxNbytes == |one| && !RxHolds(one)
    {
      hide Valid, Slot;
      Deliver(one);
      Deliver(two);
      IndicesDiffer();
      ok := TakeNow();
      RxArmedIsOutstanding();
      assert rx[..|two|][0] == two[0];
    }

    /**
     Why sixteen outstanding are too many. From any state with sixteen buffers posted and all of
     them used, and any frame whose length is not the oldest one's: after one more post the target
     can deliver so that the host takes the oldest frame and is told the new one's length.
     */
    method OverrunMisreports(msg: seq<byte>) returns (ok: bool)
      requires Valid() && !overrun && posted == consumed + RING_N == hw.completed
      requires hw.inbound.Idle? && hw.supply > 0 && 1 <= |msg| <= RX_BUF_SZ && |msg| != |hw.delivered[consumed]|
      modifies this, hw, desc, rx
      ensures Valid() && ok && consumed == old(consumed) + 1
      ensures hw.delivered[consumed - 1] == old(hw.delivered[consumed]) && rxNbytes == |msg| != |hw.delivered[consumed - 1]|
    {
      hide Valid, Slot;
      SlotNext(consumed);
      SlotNext(posted);
      IndexFacts();
      IndicesDiffer();
      WriteFree();
      RingDoorbell();
      DoorbellShows();
      DeliverNext(msg);
      ok := hw.drri != dstSw && desc[dstSw].nbytes != 0;
      Consume(desc[dstSw].nbytes);
    }

    lemma DoorbellShows()
      requires Valid()
      ensures dstWrite == hw.wrIndex == Slot(posted)
    {
      hide Slot, Slots, Buffer;
    }
  }
}
