/**
 CE7, the diagnostic window: one engine that copies from the address in a source descriptor
 to the address in a destination descriptor. All memory it reaches, host bounce buffer and
 target memory alike, is one address space here (`bus`).
 */
module Diag {
  import opened Bytes
  import opened Common
  import opened Rings

  const DIAG_MAX: nat := 512
  const WAIT_POLLS: nat := 200
  const MIB: nat := 0x10_0000

  // ------------------------------------------------------------------------- address map

  /** Target CPU address to interconnect address: window key, DRAM flag, low 20 bits. */
  function ToCe(core: nat, addr: nat): nat {
    core * 0x20_0000 + (if addr >= MIB then MIB else 0) + addr % MIB
  }

  /**
   That is the driver's bit expression: the low 11 bits of CORE_CTRL shifted up by 21, joined by
   OR with the flag and the low 20 bits of the address.
   */
  lemma ToCeBits(coreCtrl: u32, addr: u32)
    ensures var flag := if addr >= MIB then MIB else 0;
            Or(And(coreCtrl, 0x7ff) * 0x20_0000, Or(flag, And(addr, 0xf_ffff))) == ToCe(coreCtrl % 0x800, addr)
  {
    hide Or, And;
    PowersOf2();
    AndLow(coreCtrl, 11);
    AndLow(addr, 20);
    var key, flag, low := coreCtrl % 0x800, if addr >= MIB then 1 else 0, addr % MIB;
    OrDisjoint(flag, low, 20);
    OrDisjoint(key, flag * MIB + low, 21);
  }

  lemma PowersOf2()
    ensures Pow2(11) == 0x800 && Pow2(20) == MIB && Pow2(21) == 0x20_0000
  {
    assert Pow2(4) == 0x10;
    assert Pow2(8) == 0x100;
    assert Pow2(12) == 0x1000;
    assert Pow2(16) == 0x1_0000;
  }

  /** Which addresses share a cell: those on the same side of 1 MiB with equal low 20 bits. */
  lemma AliasesExactly(core: nat, a: nat, b: nat)
    ensures ToCe(core, a) == ToCe(core, b) <==> (a >= MIB <==> b >= MIB) && a % MIB == b % MIB
  {
  }

  predicate OneWindow(addr: nat, len: nat) {
    addr / MIB == (addr + len - 1) / MIB || addr + len <= 2 * MIB
  }

  predicate InLine(core: nat, addr: nat, i: nat) {
    ToCe(core, addr + i) == ToCe(core, addr) + i
  }

  /** A transfer is contiguous in the map exactly when it crosses no 1 MiB boundary past the first. */
  lemma ContiguousExactly(core: nat, addr: nat, len: nat)
    requires 1 <= len <= MIB
    ensures OneWindow(addr, len) <==> forall i | 0 <= i < len :: InLine(core, addr, i)
  {
    forall i | 0 <= i < len && OneWindow(addr, len) ensures InLine(core, addr, i) {
      StepInWindow(core, addr, len, i);
    }
    if !OneWindow(addr, len) {
      var q, r := addr / MIB, addr % MIB;
      var i := MIB - r;
      assert addr == q * MIB + r && addr + i == (q + 1) * MIB;
      assert i < len && q >= 1;
      assert (addr + i) % MIB == 0;
      assert !InLine(core, addr, i);
    }
  }

  lemma StepInWindow(core: nat, addr: nat, len: nat, i: nat)
    requires 1 <= len <= MIB && i < len && OneWindow(addr, len)
    ensures ToCe(core, addr + i) == ToCe(core, addr) + i
  {
    var q, r := addr / MIB, addr % MIB;
    assert addr == q * MIB + r;
    if r + i < MIB {
      assert (addr + i) % MIB == r + i && (addr + i) / MIB == q;
    } else {
      assert addr + i == (q + 1) * MIB + (r + i - MIB);
      assert (addr + i) / MIB == q + 1;
      assert (addr + len - 1) / MIB != q;
    }
  }

  // ------------------------------------------------------------------------------ copies

  predicate Apart(a: nat, b: nat, len: nat) {
    a + len <= b || b + len <= a
  }

  /** `m` is `before` with the first k bytes at `send` copied to `post`. */
  ghost predicate Moved(before: Memory, m: Memory, post: nat, send: nat, k: nat) {
    forall a: nat {:trigger m(a)} :: m(a) == if post <= a < post + k then before(send + (a - post)) else before(a)
  }

  lemma MovedStep(before: Memory, m: Memory, m': Memory, post: nat, send: nat, k: nat)
    requires Moved(before, m, post, send, k)
    requires forall a: nat {:trigger m'(a)} :: m'(a) == if a == post + k then before(send + k) else m(a)
    ensures Moved(before, m', post, send, k + 1)
  {
  }

  function Slice(m: Memory, addr: nat, len: nat): (s: seq<byte>)
    ensures |s| == len
  {
    seq(len, i requires 0 <= i < len => m(addr + i))
  }

  /** One transfer the host has asked for. */
  datatype Transfer = Transfer(post: nat, send: nat, len: nat)

  /** The engine's progress on one transfer: `data` read from the source, `put` of it written. */
  datatype Stage =
    | Resting
    | Copying(src: Descriptor, dst: Descriptor, data: seq<byte>, put: nat, noted: bool, srcDone: bool, dstDone: bool)

  class DiagEngine {
    var srcWr: nat
    var dstWr: nat
    var srri: nat
    var drri: nat
    var stage: Stage
    var unlanded: map<nat, nat>
    var bus: Memory

    constructor (bus: Memory)
      ensures srcWr == dstWr == srri == drri == 0 && stage == Resting && unlanded == map[] && this.bus == bus
    {
      srcWr, dstWr, srri, drri, stage, unlanded := 0, 0, 0, 0, Resting, map[];
      this.bus := bus;
    }

    ghost function SrcAhead(): nat
      reads `stage
    {
      if stage.Copying? && stage.srcDone then 1 else 0
    }

    ghost function DstAhead(): nat
      reads `stage
    {
      if stage.Copying? && stage.dstDone then 1 else 0
    }
  }

  /** How a transfer ended for the host: a poll ran out, or the oldest completion was taken, of this length. */
  datatype Outcome = RanOut(polls: nat) | Saw(nbytes: nat)

  class CEDiag {
    const hw: DiagEngine
    const core: nat        // CORE_CTRL & 0x7ff
    const bouncePhys: nat
    const srcDesc: array<Descriptor>
    const dstDesc: array<Descriptor>
    var srcWrite: nat
    var dstWrite: nat
    var dstSw: nat
    ghost var asked: seq<Transfer>      // transfers posted, in order
    ghost var rung: nat                 // how many of them have been sent too
    ghost var done: nat                 // how many lie behind the engine
    ghost var taken: nat                // how many completions the host has consumed
    ghost var overrun: bool             // a descriptor was reused before the engine came to it
    ghost var clean: Option<Memory>     // memory when the newest was posted, if the window was in step then

    ghost predicate Shape()
    {
      && srcDesc.Length == dstDesc.Length == RING_N && srcDesc != dstDesc
      // the bounce buffer lies outside the window, so the interconnect tells them apart
      && (bouncePhys + DIAG_MAX <= core * 0x20_0000 || (core + 1) * 0x20_0000 + DIAG_MAX <= bouncePhys)
    }

    /** Posts the host has not consumed a completion for. */
    ghost function Outstanding(): int
      reads `asked, `taken
    {
      |asked| - taken
    }

    /** The engine has nothing to do. */
    predicate Drained()
      reads `srcWrite, `dstWrite, hw`srcWr, hw`dstWr, hw`srri, hw`drri, hw`stage
    {
      srcWrite == dstWrite == hw.srcWr == hw.dstWr == hw.srri == hw.drri && hw.stage == Resting
    }

    /** In step: nothing to do, and the host's consume index agrees. */
    predicate InStep()
      reads `srcWrite, `dstWrite, `dstSw, hw`srcWr, hw`dstWr, hw`srri, hw`drri, hw`stage
    {
      Drained() && dstSw == dstWrite
    }

    /** Holds throughout, timeouts or not. */
    ghost predicate Core()
      reads this, hw, srcDesc, dstDesc
      ensures Core() ==> Shape() && Indices()
    {
      Shape() && Indices() && (!overrun ==> Queue(done) && AtWork()) && (|asked| <= RING_N ==> Lengths()) && (clean.Some? ==> Progress())
    }

    /** Between calls. */
    ghost predicate Valid()
      reads this, hw, srcDesc, dstDesc
      ensures Valid() ==> Shape()
    {
      Core() && rung == |asked|
    }

    ghost predicate Indices()
      reads `asked, `rung, `done, `taken, `overrun, `srcWrite, `dstWrite, `dstSw
      reads hw`srcWr, hw`dstWr, hw`srri, hw`drri, hw`stage
    {
      && done <= rung <= |asked| <= rung + 1 && taken <= |asked|
      && dstWrite == hw.dstWr == Slot(|asked|) && srcWrite == hw.srcWr == Slot(rung) && dstSw == Slot(taken)
      && hw.srri == Slot(done + hw.SrcAhead()) && hw.drri == Slot(done + hw.DstAhead())
      && (hw.stage.Copying? ==> done < rung && !(hw.stage.srcDone && hw.stage.dstDone))
      && (taken == |asked| ==> InStep())
      && (overrun ==> |asked| > RING_N)
    }

    /** The transfers from this one on lie in the descriptors, in order. */
    ghost predicate Queue(from: nat)
      requires Shape()
      reads `asked, `rung, srcDesc, dstDesc
    {
      QueueOf(asked, from)
    }

    ghost predicate QueueOf(asked: seq<Transfer>, from: nat)
      requires Shape()
      reads `rung, srcDesc, dstDesc
    {
      && from <= rung <= |asked| <= from + RING_N
      && (forall k: nat | from <= k < |asked| :: 1 <= asked[k].len <= DIAG_MAX && Apart(asked[k].post, asked[k].send, asked[k].len))
      && (forall k: nat {:trigger Slot(k)} | from <= k < |asked| :: dstDesc[Slot(k)].addr == asked[k].post)
      && (forall k: nat {:trigger Slot(k)} | from <= k < rung ::
            srcDesc[Slot(k)].addr == asked[k].send && srcDesc[Slot(k)].nbytes == asked[k].len)
    }

    /** The engine is at the first of it. */
    ghost predicate AtWork()
      reads `asked, `done, hw`stage
    {
      hw.stage.Copying? ==>
        && done < |asked|
        && var s, t := hw.stage, asked[done];
           && 1 <= t.len <= DIAG_MAX && Apart(t.post, t.send, t.len)
           && s.src.addr == t.send && s.src.nbytes == t.len && s.dst.addr == t.post
           && s.put <= |s.data| <= t.len && (s.srcDone ==> |s.data| == t.len)
           && (s.dstDone ==> s.noted) && (s.noted ==> s.put == t.len)
    }

    /** Until the ring wraps, a descriptor holds its own transfer's length, or still 0. */
    ghost predicate Lengths()
      requires Shape()
      reads `asked, hw`unlanded, dstDesc
    {
      LengthsOf(asked)
    }

    ghost predicate LengthsOf(asked: seq<Transfer>)
      requires Shape()
      reads hw`unlanded, dstDesc
    {
      && (forall k: nat {:trigger Slot(k)} | k < |asked| :: dstDesc[Slot(k)].nbytes == 0 || dstDesc[Slot(k)].nbytes == asked[k].len)
      && (forall s: nat | s in hw.unlanded :: s < |asked| && hw.unlanded[s] == asked[s].len)
    }

    /** The newest transfer is the only one unfinished, and memory shows exactly how far it is. */
    ghost predicate Progress()
      requires clean.Some?
      reads `asked, `done, `overrun, `clean, `dstSw, hw`stage, hw`bus
    {
      && !overrun && asked != [] && |asked| <= done + 1 && dstSw == Slot(|asked| - 1)
      && var t := asked[|asked| - 1];
         if done == |asked| then Moved(clean.value, hw.bus, t.post, t.send, t.len)
         else match hw.stage
              case Resting => hw.bus == clean.value
              case Copying(_, _, data, put, _, _, _) =>
                data == Slice(clean.value, t.send, |data|) && Moved(clean.value, hw.bus, t.post, t.send, put)
    }

    /** Whatever is unfinished only reads the target. */
    ghost predicate ReadsOnly()
      reads `asked, `done, `overrun
      ensures ReadsOnly() ==> !overrun
    {
      !overrun && forall k | done <= k < |asked| :: asked[k].post == bouncePhys
    }

    /** Outside the bounce buffer, memory is as before. */
    ghost predicate BounceOnly(m: Memory, m': Memory) {
      forall a: nat {:trigger m'(a)} :: m'(a) == m(a) || bouncePhys <= a < bouncePhys + DIAG_MAX
    }

    /** Post c is the next to use its slot, which until then never shows the length n. */
    ghost predicate Odd(c: nat, n: nat)
      reads `asked, `done, `overrun, hw`unlanded, dstDesc
    {
      && Shape() && !overrun && |asked| <= c < |asked| + RING_N
      && dstDesc[Slot(c)].nbytes != n && (Slot(c) in hw.unlanded ==> hw.unlanded[Slot(c)] != n)
      && (done + RING_N <= c ==> asked[c - RING_N].len != n)
    }

    /** That lasts until post c, unless the ring is overrun. */
    twostate predicate OddKept()
      reads this, hw, dstDesc
    {
      forall c: nat, n: nat | old(Odd(c, n)) && |asked| <= c && !overrun :: Odd(c, n)
    }

    /** What the driver may rely on while the engine runs. */
    twostate predicate Rely()
      reads this, hw, dstDesc
    {
      && old(done) <= done && unchanged(`asked, `rung, `taken, `overrun, `clean)
      && (old(InStep()) ==> InStep() && hw.bus == old(hw.bus))
      && (clean.Some? && rung == |asked| && old(hw.srri) == srcWrite ==> hw.srri == srcWrite)
      && (clean.Some? && old(hw.drri) != dstSw ==> hw.drri != dstSw)
      && (old(ReadsOnly()) ==> ReadsOnly() && BounceOnly(old(hw.bus), hw.bus))
      && OddKept()
    }

    constructor (core: nat, bouncePhys: nat, bus: Memory)
      requires bouncePhys + DIAG_MAX <= core * 0x20_0000 || (core + 1) * 0x20_0000 + DIAG_MAX <= bouncePhys
      ensures Valid() && InStep() && asked == [] && fresh(hw) && fresh(srcDesc) && fresh(dstDesc)
      ensures this.core == core && this.bouncePhys == bouncePhys && hw.bus == bus
    {
      this.core, this.bouncePhys := core, bouncePhys;
      hw := new DiagEngine(bus);
      srcDesc := new Descriptor[RING_N](_ => Descriptor(0, 0, 0));
      dstDesc := new Descriptor[RING_N](_ => Descriptor(0, 0, 0));
      srcWrite, dstWrite, dstSw := 0, 0, 0;
      asked, rung, done, taken, overrun, clean := [], 0, 0, 0, false, None;
    }

    /** While fewer than 16 posts are outstanding, one comparison of the driver's own indices decides. */
    lemma InStepTest()
      requires Valid() && Outstanding() < RING_N
      ensures InStep() <==> dstSw == dstWrite
      ensures InStep() <==> Outstanding() == 0
    {
      hide Slot;
      SlotsDiffer(taken);
    }

    /** At 16 the comparison no longer tells: the index has come round. */
    lemma SixteenRound()
      requires Valid() && Outstanding() == RING_N
      ensures dstSw == dstWrite
    {
      hide Slot;
      SlotNext(taken);
    }

    method EngineStart()
      requires Core()
      modifies hw`stage
      ensures Core() && Rely()
      ensures hw.stage == if old(hw.stage).Resting? && hw.srri != hw.srcWr && hw.drri != hw.dstWr
                          then Copying(srcDesc[hw.srri], dstDesc[hw.drri], [], 0, false, false, false)
                          else old(hw.stage)
    {
      hide Slot, Odd;
      if hw.stage.Resting? && hw.srri != hw.srcWr && hw.drri != hw.dstWr {
        hw.stage := Copying(srcDesc[hw.srri], dstDesc[hw.drri], [], 0, false, false, false);
      }
    }

    method EngineFetchByte()
      requires Core()
      modifies hw`stage
      ensures Core() && Rely()
      ensures hw.stage == if old(hw.stage).Copying? && |old(hw.stage).data| < old(hw.stage).src.nbytes
                          then var s := old(hw.stage); s.(data := s.data + [hw.bus(s.src.addr + |s.data|)])
                          else old(hw.stage)
    {
      hide Slot, Queue, Lengths, Odd;
      if hw.stage.Copying? && |hw.stage.data| < hw.stage.src.nbytes {
        var n := |hw.stage.data|;
        if clean.Some? {
          assert hw.bus(asked[done].send + n) == clean.value(asked[done].send + n);
        }
        hw.stage := hw.stage.(data := hw.stage.data + [hw.bus(hw.stage.src.addr + n)]);
      }
    }

    method EnginePutByte()
      requires Core()
      modifies hw`stage, hw`bus
      ensures Core() && Rely()
      ensures var s := old(hw.stage);
              if s.Copying? && s.put < |s.data|
              then hw.stage == s.(put := s.put + 1)
                   && forall a: nat {:trigger hw.bus(a)} ::
                        hw.bus(a) == if a == s.dst.addr + s.put then s.data[s.put] else old(hw.bus)(a)
              else hw.stage == s && hw.bus == old(hw.bus)
    {
      hide Slot, Queue, Lengths, Moved, Apart, Odd;
      match hw.stage
      case Copying(_, dst, data, put, _, _, _) =>
        if put < |data| {
          var m := hw.bus;
          hw.bus := (a: nat) => if a == dst.addr + put then data[put] else m(a);
          hw.stage := hw.stage.(put := put + 1);
          if clean.Some? {
            MovedStep(clean.value, m, hw.bus, asked[done].post, asked[done].send, put);
          }
        }
      case Resting =>
    }

    /** The length of a finished copy becomes ready to land. */
    method EngineNoteLength()
      requires Core()
      modifies hw`stage, hw`unlanded
      ensures Core() && Rely()
      ensures var s := old(hw.stage);
              if s.Copying? && !s.noted && s.put == s.src.nbytes
              then hw.stage == s.(noted := true) && hw.unlanded == old(hw.unlanded)[hw.drri := s.put]
              else hw.stage == s && hw.unlanded == old(hw.unlanded)
    {
      hide Slot, Queue, Apart, Moved, Odd;
      SmallSlots();
      if !overrun { QueueFits(done); }
      if hw.stage.Copying? && !hw.stage.noted && hw.stage.put == hw.stage.src.nbytes {
        hw.unlanded := hw.unlanded[hw.drri := hw.stage.put];
        hw.stage := hw.stage.(noted := true);
        OddNoted();
      }
    }

    /** Only the slot of the transfer at work gains a length to land, and that one's own. */
    twostate lemma OddNoted()
      requires done < |asked| && unchanged(`asked, `done, `overrun, dstDesc) && (!overrun ==> |asked| <= done + RING_N)
      requires !overrun ==> hw.unlanded == old(hw.unlanded)[Slot(done) := asked[done].len]
      ensures OddKept()
    {
      hide Slot;
      SameSlot(done);
    }

    twostate lemma OddDone()
      requires old(done) <= done && unchanged(`asked, `overrun, dstDesc, hw`unlanded)
      ensures OddKept()
    {
      hide Slot;
    }

    lemma QueueFits(from: nat)
      requires Shape() && Queue(from)
      ensures from <= |asked| <= from + RING_N
    {
    }

    lemma QueueLater(from: nat)
      requires Shape() && Queue(from) && from < rung
      ensures Queue(from + 1)
    {
      hide Slot, Apart;
    }

    /** SRRI moves once the source is read. */
    method EngineSourceDone()
      requires Core()
      modifies hw`stage, hw`srri, `done
      ensures Core() && Rely()
      ensures var s := old(hw.stage);
              if s.Copying? && !s.srcDone && |s.data| == s.src.nbytes
              then hw.srri == (old(hw.srri) + 1) % RING_N && hw.stage == if s.dstDone then Resting else s.(srcDone := true)
              else hw.stage == s && hw.srri == old(hw.srri)
    {
      hide Slot, Queue, Lengths, Apart, Moved, Odd, BounceOnly;
      SlotNext(done);
      BounceNone(hw.bus);
      if hw.stage.Copying? && !overrun { QueueLater(done); }
      match hw.stage
      case Copying(src, _, data, _, _, srcDone, dstDone) =>
        if !srcDone && |data| == src.nbytes {
          hw.srri := (hw.srri + 1) % RING_N;
          done := done + if dstDone then 1 else 0;
          hw.stage := if dstDone then Resting else hw.stage.(srcDone := true);
          OddDone();
        }
      case Resting =>
    }

    /** DRRI moves once the destination is written. */
    method EngineDestDone()
      requires Core()
      modifies hw`stage, hw`drri, `done
      ensures Core() && Rely()
      ensures var s := old(hw.stage);
              if s.Copying? && !s.dstDone && s.noted && s.put == s.src.nbytes
              then hw.drri == (old(hw.drri) + 1) % RING_N && hw.stage == if s.srcDone then Resting else s.(dstDone := true)
              else hw.stage == s && hw.drri == old(hw.drri)
    {
      hide Slot, Queue, Lengths, Apart, Moved, Odd, BounceOnly;
      SlotNext(done);
      BounceNone(hw.bus);
      if hw.stage.Copying? && !overrun { QueueLater(done); }
      match hw.stage
      case Copying(src, _, _, put, noted, srcDone, dstDone) =>
        if !dstDone && noted && put == src.nbytes {
          hw.drri := (hw.drri + 1) % RING_N;
          done := done + if srcDone then 1 else 0;
          hw.stage := if srcDone then Resting else hw.stage.(dstDone := true);
          OddDone();
        }
      case Resting =>
    }

    /** The length write-back, at any time after the copy. */
    method EngineLand(slot: nat)
      requires Core()
      modifies hw`unlanded, dstDesc
      ensures Core() && Rely()
      ensures if slot in old(hw.unlanded) && slot < RING_N
              then dstDesc[..] == old(dstDesc[..])[slot := old(dstDesc[slot]).(nbytes := old(hw.unlanded)[slot])]
                   && hw.unlanded == old(hw.unlanded) - {slot}
              else dstDesc[..] == old(dstDesc[..]) && hw.unlanded == old(hw.unlanded)
    {
      hide Slot, Indices, Progress, AtWork, ReadsOnly, InStep, Apart;
      SmallSlots();
      if slot in hw.unlanded && slot < RING_N {
        dstDesc[slot] := dstDesc[slot].(nbytes := hw.unlanded[slot]);
        hw.unlanded := hw.unlanded - {slot};
      }
    }

    method Interfere()
      requires Core()
      modifies hw, dstDesc, `done
      ensures Core() && Rely()
    {
      hide Core, Odd;
      var steps: int := *;
      while steps > 0
        invariant Core() && Rely()
      {
        steps := steps - 1;
        var choice: int, slot: int := *, *;
        match choice
        case 0 => EngineStart();
        case 1 => EngineFetchByte();
        case 2 => EnginePutByte();
        case 3 => EngineNoteLength();
        case 4 => EngineSourceDone();
        case 5 => EngineDestDone();
        case _ => EngineLand(if slot < 0 then 0 else slot);
      }
    }

    // ------------------------------------------------------------------ the host's operations

    /** The receiving descriptor and its doorbell. A window in step has nothing behind it to mind. */
    method PostDst(post: nat, ghost send: nat, ghost len: nat)
      requires Valid() && 1 <= len <= DIAG_MAX && Apart(post, send, len)
      modifies `dstWrite, `asked, `done, `overrun, `clean, hw`dstWr, dstDesc
      ensures Core() && rung + 1 == |asked| && asked == old(asked) + [Transfer(post, send, len)]
      ensures OddKept() && done >= old(done)
      ensures dstDesc[..] == old(dstDesc[..])[old(dstWrite) := Descriptor(post, 0, 0)]
      ensures dstWrite == hw.dstWr == (old(dstWrite) + 1) % RING_N
      ensures clean == if old(InStep()) then Some(hw.bus) else None
      ensures old(ReadsOnly()) && post == bouncePhys && |asked| <= old(done) + RING_N ==> ReadsOnly()
    {
      hide Core, Room, Apart, ReadsOnly, InStep, Odd;
      Settle();
      WriteDst(post);
      RingDst(Transfer(post, send, len));
    }

    /** The destination doorbell; from here on the transfer counts as asked for. */
    method RingDst(ghost t: Transfer)
      requires Room() && dstDesc[Slot(|asked|)] == Descriptor(t.post, 0, 0)
      requires 1 <= t.len <= DIAG_MAX && Apart(t.post, t.send, t.len)
      requires if InStep() then done == |asked| && !overrun && clean == Some(hw.bus) else clean == None
      modifies `dstWrite, `asked, `overrun, hw`dstWr
      ensures Core() && rung + 1 == |asked| && asked == old(asked) + [t]
      ensures dstWrite == hw.dstWr == (old(dstWrite) + 1) % RING_N
      ensures old(ReadsOnly()) && t.post == bouncePhys && |asked| <= done + RING_N ==> ReadsOnly()
      ensures OddKept() && (old(overrun) ==> overrun)
    {
      hide Slot, Apart, QueueOf, LengthsOf;
      SlotNext(|asked|);
      NextQueued(t);
      overrun := overrun || |asked| >= done + RING_N;
      asked := asked + [t];
      dstWrite := (dstWrite + 1) % RING_N;
      hw.dstWr := dstWrite;
    }

    /** Everything `Core` says but the progress of the newest transfer, with room for one more. */
    ghost predicate Room()
      reads this, hw, srcDesc, dstDesc
    {
      && Shape() && Indices() && rung == |asked| && (|asked| <= RING_N ==> Lengths())
      && (!overrun && |asked| < done + RING_N ==> Queue(done) && AtWork())
    }

    /** In step, what lies behind the window no longer counts. */
    ghost method Settle()
      requires Valid()
      modifies `done, `overrun, `clean
      ensures Room()
      ensures if old(InStep()) then done == |asked| && !overrun && clean == Some(hw.bus) else done == old(done) && clean == None
      ensures (old(ReadsOnly()) ==> ReadsOnly()) && OddKept()
    {
      hide Slot, Apart, Lengths;
      if InStep() {
        done, overrun, clean := |asked|, false, Some(hw.bus);
      } else {
        clean := None;
      }
    }

    /** With the engine idle, what lies behind it no longer counts. */
    ghost method Rest()
      requires Valid() && Drained()
      modifies `done, `overrun
      ensures Valid() && done == |asked| && !overrun
    {
      hide Apart, LengthsOf;
      done, overrun := |asked|, false;
    }

    method WriteDst(post: nat)
      requires Room()
      modifies dstDesc
      ensures forall c: nat, n: nat | old(Odd(c, n)) && |asked| < c :: Odd(c, n)
      ensures Room() && dstWrite == Slot(|asked|) && dstDesc[..] == old(dstDesc[..])[dstWrite := Descriptor(post, 0, 0)]
    {
      hide Slot, Apart, AtWork;
      SlotsDiffer(|asked|);
      dstDesc[dstWrite] := Descriptor(post, 0, 0);
    }

    /** The next descriptor, once written, joins the queue. */
    lemma NextQueued(t: Transfer)
      requires Room() && dstDesc[Slot(|asked|)] == Descriptor(t.post, 0, 0)
      requires 1 <= t.len <= DIAG_MAX && Apart(t.post, t.send, t.len)
      ensures !overrun && |asked| < done + RING_N ==> QueueOf(asked + [t], done)
      ensures |asked| < RING_N ==> LengthsOf(asked + [t])
    {
      hide Slot, Apart;
    }

    /** The sending descriptor and its doorbell. */
    method RingSrc(send: nat, len: nat)
      requires Core() && rung + 1 == |asked| && send == asked[rung].send && len == asked[rung].len
      modifies `srcWrite, `rung, hw`srcWr, srcDesc
      ensures Valid()
      ensures srcDesc[..] == old(srcDesc[..])[old(srcWrite) := Descriptor(send, len, 0)]
      ensures srcWrite == hw.srcWr == (old(srcWrite) + 1) % RING_N
    {
      hide Slot, Apart, Lengths, AtWork;
      SlotNext(rung);
      SlotsDiffer(rung);
      srcDesc[srcWrite] := Descriptor(send, len, 0);
      rung := rung + 1;
      srcWrite := (srcWrite + 1) % RING_N;
      hw.srcWr := srcWrite;
    }

    /** Takes the completion at dstSw: a clean transfer has moved its bytes, and the window is in step. */
    method TakeDone() returns (nbytes: nat)
      requires Valid() && taken < |asked| && (taken + 1 < |asked| || clean.Some?)
      requires clean.Some? ==> hw.srri == srcWrite && hw.drri != dstSw
      modifies `dstSw, `taken, `clean
      ensures Valid() && nbytes == dstDesc[old(dstSw)].nbytes && dstSw == (old(dstSw) + 1) % RING_N
      ensures taken == old(taken) + 1 && clean == None
      ensures forall c: nat, n: nat | old(Odd(c, n)) :: Odd(c, n) && (nbytes == n ==> Slot(c) != old(dstSw))
      ensures |asked| <= RING_N ==> nbytes == 0 || nbytes == asked[old(taken)].len
      ensures old(clean).Some? ==>
                var t := asked[|asked| - 1];
                InStep() && Moved(old(clean).value, hw.bus, t.post, t.send, t.len)
    {
      hide Slot, Queue, AtWork, Moved;
      SlotNext(taken);
      if clean.Some? { SlotNext(|asked| - 1); }
      nbytes := dstDesc[dstSw].nbytes;
      dstSw := (dstSw + 1) % RING_N;
      taken, clean := taken + 1, None;
    }

    /**
     One transfer. It succeeds exactly if the completion taken was of its length, and takes none
     only after polling all 200 times. From a window in step, it either ends in step with the bytes moved, whether or
     not the length had landed when it was checked, or times out with only itself unfinished. Out
     of step a success is another transfer's: until the ring wraps, one of the same length.
     */
    method Xfer(post: nat, send: nat, len: nat) returns (ok: bool, ghost out: Outcome)
      requires Valid() && 1 <= len <= DIAG_MAX && Apart(post, send, len)
      modifies this, hw, srcDesc, dstDesc
      ensures Valid() && asked == old(asked) + [Transfer(post, send, len)]
      ensures (ok <==> out == Saw(len)) && Ends(out, old(taken))
      ensures out.Saw? ==> old(dstSw) < RING_N && out.nbytes == dstDesc[old(dstSw)].nbytes
      ensures done >= old(done) && OddKept()
      ensures forall c: nat | ok && old(Odd(c, len)) && |asked| <= c && !overrun :: Slot(c) != old(dstSw)
      ensures old(InStep()) ==>
                if InStep() then taken == old(taken) + 1 && Moved(old(hw.bus), hw.bus, post, send, len)
                else !ok && clean == Some(old(hw.bus)) && taken == old(taken)
      ensures ok ==> taken == old(taken) + 1
      ensures ok && |asked| <= RING_N ==> asked[old(taken)].len == len
      ensures old(ReadsOnly()) && post == bouncePhys && |asked| <= old(done) + RING_N ==> ReadsOnly() && BounceOnly(old(hw.bus), hw.bus)
    {
      hide Core, Moved, Apart, ReadsOnly, BounceOnly, Odd;
      ghost var m := hw.bus;
      Ask(post, send, len);
      ghost var m1 := hw.bus;
      ghost var polls;
      var caught;
      caught, polls := Await();
      BounceTwice(m, m1, hw.bus);
      TimedOut();
      if !caught {
        return false, RanOut(polls);
      }
      var nbytes := TakeDone();
      ok, out := nbytes == len, Saw(nbytes);
    }

    /** What an outcome says: a completion taken, or none after 200 polls. */
    ghost predicate Ends(out: Outcome, taken0: nat)
      reads `taken
    {
      match out
      case RanOut(polls) => taken == taken0 && polls == 200
      case Saw(_) => taken == taken0 + 1
    }

    /** The descriptors and doorbells of one transfer. */
    method Ask(post: nat, send: nat, len: nat)
      requires Valid() && 1 <= len <= DIAG_MAX && Apart(post, send, len)
      modifies this, hw, srcDesc, dstDesc
      ensures Valid() && asked == old(asked) + [Transfer(post, send, len)] && taken == old(taken) && dstSw == old(dstSw)
      ensures clean == if old(InStep()) then Some(old(hw.bus)) else None
      ensures done >= old(done) && OddKept()
      ensures old(ReadsOnly()) && post == bouncePhys && |asked| <= old(done) + RING_N ==> ReadsOnly() && BounceOnly(old(hw.bus), hw.bus)
    {
      hide Core, Moved, Apart, ReadsOnly, BounceOnly, InStep, Odd;
      PostDst(post, send, len);
      Interfere();
      RingSrc(send, len);
      BounceNone(old(hw.bus));
    }

    /** Both polls, the second only if the first is answered. */
    method Await() returns (caught: bool, ghost polls: nat)
      requires Valid()
      modifies hw, dstDesc, `done
      ensures Valid() && (caught && clean.Some? ==> hw.srri == srcWrite && hw.drri != dstSw)
      ensures !caught ==> polls == WAIT_POLLS
      ensures done >= old(done) && OddKept()
      ensures old(ReadsOnly()) ==> ReadsOnly() && BounceOnly(old(hw.bus), hw.bus)
    {
      hide Core, ReadsOnly, BounceOnly, Odd;
      ghost var m := hw.bus;
      caught, polls := PollSource();
      if caught {
        ghost var m1 := hw.bus;
        caught, polls := PollDest();
        BounceTwice(m, m1, hw.bus);
      }
    }

    /** Polls SRRI until it reaches the write index or the budget runs out. */
    method PollSource() returns (caught: bool, ghost polls: nat)
      requires Valid()
      modifies hw, dstDesc, `done
      ensures Valid() && (caught && clean.Some? ==> hw.srri == srcWrite)
      ensures !caught ==> polls == WAIT_POLLS
      ensures done >= old(done) && OddKept()
      ensures old(ReadsOnly()) ==> ReadsOnly() && BounceOnly(old(hw.bus), hw.bus)
    {
      hide Core, BounceOnly, ReadsOnly, Odd;
      var i := 0;
      caught, polls := false, 0;
      BounceNone(hw.bus);
      while i < WAIT_POLLS && !caught
        invariant Valid() && (caught && clean.Some? ==> hw.srri == srcWrite)
        invariant i <= WAIT_POLLS && polls == i
        invariant done >= old(done) && OddKept()
        invariant old(ReadsOnly()) ==> ReadsOnly() && BounceOnly(old(hw.bus), hw.bus)
      {
        ghost var m := hw.bus;
        Interfere();
        BounceTwice(old(hw.bus), m, hw.bus);
        caught := hw.srri == srcWrite;
        i, polls := i + 1, polls + 1;
      }
    }

    /** Polls DRRI until it leaves the consume index or the budget runs out. */
    method PollDest() returns (caught: bool, ghost polls: nat)
      requires Valid() && (clean.Some? ==> hw.srri == srcWrite)
      modifies hw, dstDesc, `done
      ensures Valid() && (clean.Some? ==> hw.srri == srcWrite && (caught ==> hw.drri != dstSw))
      ensures !caught ==> polls == WAIT_POLLS
      ensures done >= old(done) && OddKept()
      ensures old(ReadsOnly()) ==> ReadsOnly() && BounceOnly(old(hw.bus), hw.bus)
    {
      hide Core, BounceOnly, ReadsOnly, Odd;
      var i := 0;
      caught, polls := false, 0;
      BounceNone(hw.bus);
      while i < WAIT_POLLS && !caught
        invariant Valid() && (clean.Some? ==> hw.srri == srcWrite && (caught ==> hw.drri != dstSw))
        invariant i <= WAIT_POLLS && polls == i
        invariant done >= old(done) && OddKept()
        invariant old(ReadsOnly()) ==> ReadsOnly() && BounceOnly(old(hw.bus), hw.bus)
      {
        ghost var m := hw.bus;
        Interfere();
        BounceTwice(old(hw.bus), m, hw.bus);
        caught := hw.drri != dstSw;
        i, polls := i + 1, polls + 1;
      }
    }

    lemma BounceNone(m: Memory)
      ensures BounceOnly(m, m)
    {
    }

    lemma BounceTwice(m: Memory, m1: Memory, m2: Memory)
      ensures BounceOnly(m, m)
      ensures BounceOnly(m, m1) && BounceOnly(m1, m2) ==> BounceOnly(m, m2)
    {
    }

    /** With the newest transfer alone unfinished, the window is out of step. */
    lemma TimedOut()
      requires Valid()
      ensures clean.Some? ==> !InStep()
    {
      hide Slot;
      if clean.Some? { SlotNext(|asked| - 1); }
    }

    /** The bytes the map shows at a target address. */
    ghost function Target(m: Memory, addr: nat, len: nat): seq<byte> {
      Slice(m, ToCe(core, addr), len)
    }

    /** Within one window that is the target's own bytes, address by address. */
    lemma TargetByteByByte(m: Memory, addr: nat, len: nat)
      requires 1 <= len <= MIB && OneWindow(addr, len)
      ensures forall i | 0 <= i < len :: Target(m, addr, len)[i] == m(ToCe(core, addr + i))
    {
      hide ToCe;
      forall i | 0 <= i < len ensures Target(m, addr, len)[i] == m(ToCe(core, addr + i)) {
        StepInWindow(core, addr, len, i);
      }
    }

    /** Outside the bounce buffer and the given range, memory is as before. */
    ghost predicate OnlyChanged(m: Memory, m': Memory, addr: nat, len: nat) {
      forall a: nat {:trigger m'(a)} ::
        m'(a) == m(a) || bouncePhys <= a < bouncePhys + DIAG_MAX || ToCe(core, addr) <= a < ToCe(core, addr) + len
    }

    /** A window address and a bounce address never meet. */
    lemma WindowApart(addr: nat, len: nat)
      requires Shape() && len <= DIAG_MAX
      ensures Apart(ToCe(core, addr), bouncePhys, len) && Apart(bouncePhys, ToCe(core, addr), len)
      ensures ToCe(core, addr) + len <= bouncePhys || bouncePhys + DIAG_MAX <= ToCe(core, addr)
    {
    }

    /** The engine runs on after a call returns; a timed-out transfer may still finish then. */
    method Linger()
      requires Valid()
      modifies hw, dstDesc, `done
      ensures Valid() && (old(InStep()) ==> InStep() && hw.bus == old(hw.bus))
      ensures old(ReadsOnly()) ==> ReadsOnly() && BounceOnly(old(hw.bus), hw.bus)
      ensures done >= old(done) && OddKept()
      ensures clean.Some? ==>
                var t := asked[|asked| - 1];
                !InStep() && forall a: nat {:trigger hw.bus(a)} :: hw.bus(a) == clean.value(a) || t.post <= a < t.post + t.len
    {
      hide Slot, Queue, Lengths, Apart, Odd;
      Interfere();
      TimedOut();
    }

    /**
     In step, a legal read completes exactly one transfer or times out, a success returns the
     target's bytes, and only the bounce buffer changes. Out of step a success tells only that
     the oldest transfer not consumed was as long; but reads still change nothing else.
     */
    method ReadMem(addr: nat, len: nat) returns (ok: bool, data: seq<byte>, ghost out: Outcome)
      requires Valid()
      modifies this, hw, srcDesc, dstDesc
      ensures Valid()
      ensures if len == 0 || len > 512 then !ok && unchanged(this, hw)
              else asked == old(asked) + [Transfer(bouncePhys, ToCe(core, addr), len)] && Ends(out, old(taken))
      ensures ok <==> out == Saw(len)
      ensures old(InStep()) ==> OnlyChanged(old(hw.bus), hw.bus, addr, 0)
      ensures old(InStep()) && InStep() && 1 <= len <= DIAG_MAX ==> taken == old(taken) + 1
      ensures if ok then |data| == len && taken == old(taken) + 1 else data == []
      ensures ok && old(InStep()) ==> InStep() && data == Target(old(hw.bus), addr, len)
      ensures ok && |asked| <= RING_N ==> asked[old(taken)].len == len
      ensures !ok ==> taken == old(taken) || taken == old(taken) + 1
      ensures done >= old(done) && OddKept()
      ensures forall c: nat | ok && old(Odd(c, len)) && |asked| <= c && !overrun :: Slot(c) != old(dstSw)
      ensures old(ReadsOnly()) && |asked| <= old(done) + RING_N ==> ReadsOnly() && BounceOnly(old(hw.bus), hw.bus)
    {
      hide Core, ReadsOnly, Odd;
      data, out := [], RanOut(0);
      BounceNone(hw.bus);
      if len == 0 || len > DIAG_MAX {
        return false, data, out;
      }
      ghost var m := hw.bus;
      WindowApart(addr, len);
      ok, out := Xfer(bouncePhys, ToCe(core, addr), len);
      ghost var m1 := hw.bus;
      if ok {
        Interfere();
        BounceTwice(m, m1, hw.bus);
        data := Slice(hw.bus, bouncePhys, len);
      }
      m1 := hw.bus;
      Linger();
      BounceTwice(m, m1, hw.bus);
    }

    /** Copies data into the bounce buffer; with a transfer unfinished its bytes may mix. */
    method FillBounce(data: seq<byte>)
      requires Valid() && |data| <= DIAG_MAX
      modifies hw`bus, `clean
      ensures Valid() && clean == None
      ensures forall a: nat {:trigger hw.bus(a)} ::
                hw.bus(a) == if bouncePhys <= a < bouncePhys + |data| then data[a - bouncePhys] else old(hw.bus)(a)
    {
      hide Slot, Queue, Lengths, AtWork;
      var m, at := hw.bus, bouncePhys;
      clean := None;
      hw.bus := (a: nat) => if at <= a < at + |data| then data[a - at] else m(a);
    }

    /**
     In step, a legal write that does not time out leaves the data at the target address, whatever
     it returns; even one that times out changes nothing outside the bounce buffer and its range.
     */
    method WriteMem(addr: nat, data: seq<byte>) returns (ok: bool, ghost out: Outcome)
      requires Valid()
      modifies this, hw, srcDesc, dstDesc
      ensures Valid()
      ensures if |data| == 0 || |data| > 512 then !ok && unchanged(this, hw)
              else asked == old(asked) + [Transfer(ToCe(core, addr), bouncePhys, |data|)] && Ends(out, old(taken))
      ensures ok <==> out == Saw(|data|)
      ensures old(InStep()) ==> OnlyChanged(old(hw.bus), hw.bus, addr, |data|)
      ensures old(InStep()) && InStep() && 1 <= |data| <= DIAG_MAX ==>
                taken == old(taken) + 1 && Target(hw.bus, addr, |data|) == data
      ensures ok ==> taken == old(taken) + 1 && (old(InStep()) ==> InStep())
      ensures ok && |asked| <= RING_N ==> asked[old(taken)].len == |data|
    {
      hide Core, ReadsOnly, BounceOnly;
      if |data| == 0 || |data| > DIAG_MAX {
        return false, RanOut(0);
      }
      WindowApart(addr, |data|);
      Interfere();
      FillBounce(data);
      ok, out := Xfer(ToCe(core, addr), bouncePhys, |data|);
      Linger();
    }

    // ------------------------------------------------- runs, one step of either side at a time

    /** From rest, the engine reads a whole source and moves SRRI. */
    method EngineReadsAll()
      requires Core() && hw.stage == Resting && hw.srri != hw.srcWr && hw.drri != hw.dstWr
      requires hw.srri < RING_N && hw.drri < RING_N
      modifies hw`stage, hw`srri, `done
      ensures Core() && hw.srri == (old(hw.srri) + 1) % RING_N
      ensures var s := srcDesc[old(hw.srri)];
              hw.stage == Copying(s, dstDesc[hw.drri], Slice(hw.bus, s.addr, s.nbytes), 0, false, true, false)
    {
      hide Core, ReadsOnly, BounceOnly, InStep;
      EngineStart();
      var n := hw.stage.src.nbytes;
      for i := 0 to n
        invariant Core()
        invariant hw.stage == Copying(srcDesc[hw.srri], dstDesc[hw.drri], Slice(hw.bus, srcDesc[hw.srri].addr, i), 0, false, false, false)
      {
        EngineFetchByte();
      }
      EngineSourceDone();
    }

    /** Then it writes them all, moves DRRI and lands the length. */
    method EngineWritesAll()
      requires Core() && hw.stage.Copying? && hw.drri < RING_N
      requires var s := hw.stage; |s.data| == s.src.nbytes && s.put == 0 && !s.noted && s.srcDone && !s.dstDone
      modifies hw, dstDesc, `done
      ensures Core() && hw.stage == Resting && hw.drri == (old(hw.drri) + 1) % RING_N && hw.srri == old(hw.srri)
      ensures hw.srcWr == old(hw.srcWr) && hw.dstWr == old(hw.dstWr)
      ensures dstDesc[..] == old(dstDesc[..])[old(hw.drri) := old(dstDesc[hw.drri]).(nbytes := old(hw.stage.src.nbytes))]
      ensures var s := old(hw.stage);
              forall a: nat {:trigger hw.bus(a)} ::
                hw.bus(a) == if s.dst.addr <= a < s.dst.addr + |s.data| then s.data[a - s.dst.addr] else old(hw.bus)(a)
    {
      hide Core, ReadsOnly, BounceOnly, InStep;
      var s := hw.stage;
      for i := 0 to |s.data|
        invariant Core() && hw.stage == s.(put := i)
        invariant unchanged(dstDesc, hw`srri, hw`drri, hw`srcWr, hw`dstWr, hw`unlanded)
        invariant forall a: nat {:trigger hw.bus(a)} ::
                    hw.bus(a) == if s.dst.addr <= a < s.dst.addr + i then s.data[a - s.dst.addr] else old(hw.bus)(a)
      {
        EnginePutByte();
      }
      EngineNoteLength();
      var slot := hw.drri;
      EngineDestDone();
      EngineLand(slot);
    }

    /** The host asks for a transfer of an idle engine, which reads the source and moves SRRI. */
    method AskAndRead(post: nat, send: nat, n: nat)
      requires Valid() && Drained() && 1 <= n <= DIAG_MAX && Apart(post, send, n)
      modifies this, hw, srcDesc, dstDesc
      ensures Valid() && hw.bus == old(hw.bus) && clean.Some? == old(InStep())
      ensures asked == old(asked) + [Transfer(post, send, n)] && taken == old(taken)
      ensures dstSw == old(dstSw) && hw.drri == old(dstWrite)
      ensures srcWrite == hw.srcWr == dstWrite == hw.dstWr == hw.srri == (old(dstWrite) + 1) % RING_N
      ensures dstDesc[..] == old(dstDesc[..])[old(dstWrite) := Descriptor(post, 0, 0)]
      ensures hw.stage == Copying(Descriptor(send, n, 0), Descriptor(post, 0, 0), Slice(hw.bus, send, n), 0, false, true, false)
    {
      hide Core, ReadsOnly, BounceOnly, Apart, InStep;
      PostDst(post, send, n);
      RingSrc(send, n);
      EngineReadsAll();
    }

    /** A read from an idle engine whose polls run out on the host before the engine does it all. */
    method LateRead(addr: nat, n: nat)
      requires Valid() && Drained() && 1 <= n <= DIAG_MAX
      modifies this, hw, srcDesc, dstDesc
      ensures Valid() && Drained() && dstSw == old(dstSw) && dstWrite == (old(dstWrite) + 1) % RING_N
      ensures asked == old(asked) + [Transfer(bouncePhys, ToCe(core, addr), n)] && taken == old(taken)
      ensures dstDesc[..] == old(dstDesc[..])[old(dstWrite) := Descriptor(bouncePhys, n, 0)]
      ensures Moved(old(hw.bus), hw.bus, bouncePhys, ToCe(core, addr), n)
    {
      hide Core, ToCe, ReadsOnly, BounceOnly, InStep;
      WindowApart(addr, n);
      AskAndRead(bouncePhys, ToCe(core, addr), n);
      // the host's polls run out here
      EngineWritesAll();
    }

    /**
     A transfer out of step. The engine reads the source; the host sees SRRI arrive and DRRI ahead
     of its own index, checks the oldest length, and looks at the bounce buffer; only then does the
     engine write. `seen` is what the host finds there.
     */
    method LaggingCopy(post: nat, send: nat, n: nat) returns (ok: bool, seen: seq<byte>)
      requires Valid() && Drained() && dstSw != dstWrite && 1 <= n <= DIAG_MAX && Apart(post, send, n)
      modifies this, hw, srcDesc, dstDesc
      ensures Valid() && Drained() && dstSw == (old(dstSw) + 1) % RING_N && dstWrite == (old(dstWrite) + 1) % RING_N
      ensures (ok <==> old(dstDesc[dstSw].nbytes) == n) && seen == Slice(old(hw.bus), bouncePhys, n)
      ensures asked == old(asked) + [Transfer(post, send, n)] && taken == old(taken) + 1
      ensures dstDesc[..] == old(dstDesc[..])[old(dstWrite) := Descriptor(post, n, 0)]
      ensures Moved(old(hw.bus), hw.bus, post, send, n)
    {
      hide Core, ReadsOnly, BounceOnly, Apart;
      AskAndRead(post, send, n);
      ok := hw.srri == srcWrite && hw.drri != dstSw;
      var nbytes := TakeDone();
      ok := ok && nbytes == n;
      seen := Slice(hw.bus, bouncePhys, n);
      EngineWritesAll();
    }

    /** So a read that finds the right length returns what the bounce buffer held before. */
    method LaggingRead(addr: nat, n: nat) returns (ok: bool, data: seq<byte>)
      requires Valid() && Drained() && dstSw != dstWrite && 1 <= n <= DIAG_MAX
      modifies this, hw, srcDesc, dstDesc
      ensures Valid() && Drained() && dstSw == (old(dstSw) + 1) % RING_N && dstWrite == (old(dstWrite) + 1) % RING_N
      ensures (ok <==> old(dstDesc[dstSw].nbytes) == n) && (ok ==> data == Slice(old(hw.bus), bouncePhys, n))
      ensures dstDesc[..] == old(dstDesc[..])[old(dstWrite) := Descriptor(bouncePhys, n, 0)]
      ensures Moved(old(hw.bus), hw.bus, bouncePhys, ToCe(core, addr), n)
    {
      hide Core, ToCe;
      WindowApart(addr, n);
      ok, data := LaggingCopy(bouncePhys, ToCe(core, addr), n);
    }

    /** And a write goes where it was told, whatever it returns. */
    method LaggingWrite(addr: nat, data: seq<byte>) returns (ok: bool)
      requires Valid() && Drained() && dstSw != dstWrite && 1 <= |data| <= DIAG_MAX
      modifies this, hw, srcDesc, dstDesc
      ensures Valid() && Drained() && (ok <==> old(dstDesc[dstSw].nbytes) == |data|)
      ensures Target(hw.bus, addr, |data|) == data && OnlyChanged(old(hw.bus), hw.bus, addr, |data|)
    {
      hide Core, ToCe, ReadsOnly, BounceOnly, Moved;
      WindowApart(addr, |data|);
      FillBounce(data);
      ghost var m := hw.bus;
      assert Slice(m, bouncePhys, |data|) == data;
      var seen;
      ok, seen := LaggingCopy(ToCe(core, addr), bouncePhys, |data|);
      WriteShows(m, addr, data);
    }

    /** What a copy out of the bounce buffer leaves at the target. */
    lemma WriteShows(m: Memory, addr: nat, data: seq<byte>)
      requires Moved(m, hw.bus, ToCe(core, addr), bouncePhys, |data|) && Slice(m, bouncePhys, |data|) == data
      ensures Target(hw.bus, addr, |data|) == data && OnlyChanged(m, hw.bus, addr, |data|)
    {
      forall i | 0 <= i < |data| ensures hw.bus(ToCe(core, addr) + i) == data[i] {
        assert Slice(m, bouncePhys, |data|)[i] == m(bouncePhys + i);
      }
    }
  }

  /** Reading back a successful write, with no timeout in between, returns the bytes written. */
  method WriteThenRead(d: CEDiag, addr: nat, data: seq<byte>) returns (ok: bool, back: seq<byte>)
    requires d.Valid() && d.InStep()
    modifies d, d.hw, d.srcDesc, d.dstDesc
    ensures d.Valid() && (ok ==> d.InStep() && back == data)
  {
    hide CEDiag.Valid;
    back := [];
    ghost var out;
    ok, out := d.WriteMem(addr, data);
    if ok {
      ok, back, out := d.ReadMem(addr, |data|);
    }
  }

  /**
   What being out of step costs. For every window in step, any two addresses and any length: after
   a read of `a` that times out, a read of `b` can succeed and return the bytes at `a`. So it
   returns what it should exactly if the two stretches of memory happen to agree.
   */
  method StaleRead(d: CEDiag, a: nat, b: nat, n: nat) returns (ok: bool, data: seq<byte>)
    requires d.Valid() && d.InStep() && 1 <= n <= DIAG_MAX
    modifies d, d.hw, d.srcDesc, d.dstDesc
    ensures d.Valid() && !d.InStep() && ok && data == d.Target(old(d.hw.bus), a, n)
    ensures data == d.Target(d.hw.bus, b, n) <==> d.Target(old(d.hw.bus), a, n) == d.Target(old(d.hw.bus), b, n)
  {
    hide CEDiag.Core, ToCe;
    d.WindowApart(a, n);
    d.WindowApart(b, n);
    var slot := d.dstWrite;
    d.LateRead(a, n);
    assert d.dstDesc[slot] == d.dstDesc[..][slot];
    ok, data := d.LaggingRead(b, n);
    assert d.Target(d.hw.bus, b, n) == d.Target(old(d.hw.bus), b, n);
  }

  /**
   Nor is it out of step for good: the sixteenth of a row of such reads brings every index round
   to the same value again, with sixteen posts never consumed.
   */
  method SixteenLateReads(d: CEDiag, addr: nat, n: nat)
    requires d.Valid() && d.Outstanding() == 0 && 1 <= n <= DIAG_MAX
    modifies d, d.hw, d.srcDesc, d.dstDesc
    ensures d.Valid() && d.InStep() && d.Outstanding() == RING_N
  {
    hide CEDiag.Core, Slot;
    d.InStepTest();
    for i := 0 to RING_N
      invariant d.Valid() && d.Drained() && d.Outstanding() == i
    {
      d.LateRead(addr, n);
    }
    d.SixteenRound();
  }
}
