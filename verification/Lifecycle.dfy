/** Who owns DMA memory, and what the ring base registers point at, from bring-up to teardown. */
module Lifecycle {
  import opened Bytes
  import opened Common
  import opened Rings
  import opened CopyPair

  const CE_COUNT: nat := 8
  const RING_ALIGNED: nat := ALIGN                                   // 16 descriptors of 8 bytes, page-rounded
  const RING_BYTES: nat := RING_N * 8
  const PAIR_BYTES: nat := 2 * RING_ALIGNED + ALIGN + ALIGN          // two rings, a tx page, an rx page
  const DIAG_BYTES: nat := 2 * RING_ALIGNED + ALIGN                  // two rings, a bounce page
  const DIAG_CE: nat := 7
  const CTRL_SRC: nat := 0
  const CTRL_DST: nat := 1
  const WMI_SRC: nat := 3
  const WMI_DST: nat := 2
  const DEAD: u32 := 0xFFFF_FFFF

  function SetOf(r: Option<nat>): set<nat> {
    if r.Some? then {r.value} else {}
  }

  /** Index of an engine's source and destination ring registers. */
  function Sr(ce: nat): nat { 2 * ce }
  function Dr(ce: nat): nat { 2 * ce + 1 }

  datatype Ring = Ring(base: nat, size: nat, wrIndex: nat)

  /** The memory a pair's rings and buffers take, and the window's rings and bounce buffer, in whole pages. */
  lemma Layout()
    ensures RING_BYTES == 16 * 8 <= 4096
    ensures 8192 + TX_BUF_SZ <= 12288 && 12288 + RX_BUF_SZ <= PAIR_BYTES == 16384
    ensures 8192 + 512 <= DIAG_BYTES == 12288
  {
  }

  /** Two rings of 16 descriptors, the source ring at the region's start, the other one page on. */
  function Programmed(ring: seq<Ring>, sr: nat, dr: nat, region: nat): seq<Ring>
    requires sr < |ring| && dr < |ring|
  {
    ring[sr := Ring(region, 16, ring[sr].wrIndex)][dr := Ring(region + 4096, 16, ring[dr].wrIndex)]
  }

  /** Why a base register is harmless: never written by the driver, zero, or inside a region. */
  datatype Home = Untouched | Zeroed | In(region: nat)

  /** No base register points into region r, save the two given. */
  ghost predicate OnlyFrom(home: seq<Home>, r: nat, sr: nat, dr: nat) {
    forall k | 0 <= k < |home| && home[k] == In(r) :: k == sr || k == dr
  }

  /** Region r, if any, is allocated, and only the owner's two registers may point into it. */
  ghost predicate Owned(home: seq<Home>, regions: map<nat, nat>, r: Option<nat>, len: nat, sr: nat, dr: nat) {
    r.Some? ==> r.value in regions && regions[r.value] == len && OnlyFrom(home, r.value, sr, dr)
  }

  /** Ownership outlasts whatever leaves the region allocated and points no new register into it. */
  lemma OwnedStays(home: seq<Home>, regions: map<nat, nat>, home': seq<Home>, regions': map<nat, nat>,
                   r: Option<nat>, len: nat, sr: nat, dr: nat)
    requires Owned(home, regions, r, len, sr, dr) && |home'| == |home|
    requires r.Some? ==> r.value in regions' && regions'[r.value] == regions[r.value]
    requires r.Some? ==> forall k | 0 <= k < |home| :: home'[k] == home[k] || home'[k] != In(r.value)
    ensures Owned(home', regions', r, len, sr, dr)
  {
  }

  /** The engines' ring registers and the DMA memory they may reach. */
  class Bus {
    var ring: seq<Ring>
    var regions: map<nat, nat>   // allocated regions: bus address to length
    var readIndex: nat -> u32    // what each read-index register shows; the device changes it at will
    ghost var home: seq<Home>
    ghost var lost: set<nat>     // regions no object refers to any more
    ghost var failures: nat      // how often memory was refused, or an engine found dead

    /** Every base register is untouched, zero, or has its whole ring inside allocated memory. */
    ghost predicate Safe()
      reads `ring, `regions, `home
      ensures Safe() ==> |ring| == |home| == 2 * CE_COUNT
    {
      && |ring| == |home| == 2 * CE_COUNT
      && (forall k | 0 <= k < 2 * CE_COUNT :: Harmless(home[k], ring[k].base))
    }

    ghost predicate Harmless(h: Home, base: nat)
      reads `regions
    {
      match h
      case Untouched => true
      case Zeroed => base == 0
      case In(r) => r in regions && r <= base && base + RING_BYTES <= r + regions[r]
    }

    constructor ()
      ensures Safe() && regions == map[] && lost == {} && forall h | h in home :: h.Untouched?
    {
      ring := seq(2 * CE_COUNT, _ => Ring(0, 0, 0));
      home := seq(2 * CE_COUNT, _ => Untouched);
      regions, lost, failures := map[], {}, 0;
      readIndex := _ => 0;
    }

    /** A dead or unmapped engine's registers read as all ones. */
    predicate Dead(k: nat)
      reads `readIndex
    {
      readIndex(k) == 0xFFFF_FFFF
    }

    /** The heartbeat probe of two read-index registers, whatever they show by then. */
    method Probe(sr: nat, dr: nat) returns (alive: bool)
      modifies `readIndex, `failures
      ensures alive <==> !Dead(sr) && !Dead(dr)
      ensures failures == old(failures) + if alive then 0 else 1
    {
      readIndex := *;
      alive := !(readIndex(sr) == DEAD || readIndex(dr) == DEAD);
      failures := failures + if alive then 0 else 1;
    }

    /** Memory apart from every other region and below 4 GiB, or nothing. */
    method Allocate(len: nat) returns (r: Option<nat>)
      requires Safe()
      modifies `regions, `failures
      ensures Safe() && (r.None? ==> regions == old(regions))
      ensures failures == old(failures) + if r.None? then 1 else 0
      ensures r.Some? ==> r.value !in old(regions) && regions == old(regions)[r.value := len]
      ensures r.Some? ==> r.value + len <= 0x1_0000_0000
      ensures r.Some? ==> forall q | q in old(regions) :: q + regions[q] <= r.value || r.value + len <= q
      ensures r.Some? ==> OnlyFrom(home, r.value, 2 * CE_COUNT, 2 * CE_COUNT)
    {
      var base: int := *;
      if base < 0 || base + len > 0x1_0000_0000 || base in regions
         || exists q | q in regions :: q + regions[q] > base && base + len > q {
        failures := failures + 1;
        return None;
      }
      regions := regions[base := len];
      r := Some(base);
    }

    /** Memory may go only when no register points into it. */
    method Free(r: nat)
      requires Safe() && r in regions && OnlyFrom(home, r, 2 * CE_COUNT, 2 * CE_COUNT)
      modifies `regions
      ensures Safe() && regions == old(regions) - {r}
    {
      regions := regions - {r};
    }

    method WriteBase(k: nat, base: nat, ghost h: Home)
      requires Safe() && k < 2 * CE_COUNT && !h.Untouched? && Harmless(h, base)
      modifies `ring, `home
      ensures Safe() && home == old(home)[k := h] && ring == old(ring)[k := old(ring[k]).(base := base)]
    {
      ring := ring[k := ring[k].(base := base)];
      home := home[k := h];
    }

    method WriteSize(k: nat, size: nat)
      requires Safe() && k < 2 * CE_COUNT
      modifies `ring
      ensures Safe() && ring == old(ring)[k := old(ring[k]).(size := size)]
    {
      ring := ring[k := ring[k].(size := size)];
    }

    method WriteIndex(k: nat, w: nat)
      requires Safe() && k < 2 * CE_COUNT
      modifies `ring
      ensures Safe() && ring == old(ring)[k := old(ring[k]).(wrIndex := w)]
    {
      ring := ring[k := ring[k].(wrIndex := w)];
    }

    /** Parks one ring: base, size and write index, in that order. */
    method Park(k: nat)
      requires Safe() && k < 2 * CE_COUNT
      modifies `ring, `home
      ensures Safe() && home == old(home)[k := Zeroed] && ring == old(ring)[k := Ring(0, 0, 0)]
    {
      WriteBase(k, 0, Zeroed);
      WriteSize(k, 0);
      WriteIndex(k, 0);
    }

    /** Points one ring into region r. */
    method Program(k: nat, base: nat, ghost r: nat)
      requires Safe() && k < 2 * CE_COUNT && Harmless(In(r), base)
      modifies `ring, `home
      ensures Safe() && home == old(home)[k := In(r)]
      ensures ring == old(ring)[k := Ring(base, RING_N, old(ring[k].wrIndex))]
    {
      WriteBase(k, base, In(r));
      WriteSize(k, RING_N);
    }
  }

  /** The lifetime of a ring pair's region. */
  class Pair {
    const bus: Bus
    const srcCe: nat
    const dstCe: nat
    var region: Option<nat>

    /** Owns an allocated region that only its own two base registers may point into. */
    ghost predicate Owns()
      reads this, bus`home, bus`regions
    {
      srcCe < CE_COUNT && dstCe < CE_COUNT && Owned(bus.home, bus.regions, region, PAIR_BYTES, Sr(srcCe), Dr(dstCe))
    }

    constructor (bus: Bus, srcCe: nat, dstCe: nat)
      requires srcCe < CE_COUNT && dstCe < CE_COUNT
      ensures Owns() && region == None && this.bus == bus && this.srcCe == srcCe && this.dstCe == dstCe
    {
      this.bus, this.srcCe, this.dstCe, region := bus, srcCe, dstCe, None;
    }

    /** Fails without memory, or with a dead engine, and only then; the latter keeps the region it took. */
    method Init() returns (ok: bool)
      requires bus.Safe() && Owns() && region == None
      modifies this, bus`regions, bus`failures, bus`ring, bus`home, bus`readIndex
      ensures ok <==> region.Some? && !bus.Dead(Sr(srcCe)) && !bus.Dead(Dr(dstCe))
      ensures bus.failures == old(bus.failures) + if ok then 0 else 1
      ensures bus.Safe() && Owns()
      ensures bus.regions == if region.None? then old(bus.regions) else old(bus.regions)[region.value := PAIR_BYTES]
      ensures region.Some? ==> region.value !in old(bus.regions)
      ensures bus.ring == if ok then Programmed(old(bus.ring), Sr(srcCe), Dr(dstCe), region.value) else old(bus.ring)
      ensures bus.home == if ok then old(bus.home)[Sr(srcCe) := In(region.value)][Dr(dstCe) := In(region.value)]
                          else old(bus.home)
    {
      region := bus.Allocate(PAIR_BYTES);
      if region.None? {
        return false;
      }
      var alive := bus.Probe(Sr(srcCe), Dr(dstCe));
      if !alive {
        return false;
      }
      bus.Program(Sr(srcCe), region.value, region.value);
      bus.Program(Dr(dstCe), region.value + RING_ALIGNED, region.value);
      ok := true;
    }

    /** Parks both rings, then lets the memory go. */
    method Teardown()
      requires bus.Safe() && Owns()
      modifies this, bus`regions, bus`ring, bus`home
      ensures bus.Safe() && Owns() && region == None
      ensures bus.regions == old(bus.regions) - SetOf(old(region))
      ensures bus.home == old(bus.home)[Sr(srcCe) := Zeroed][Dr(dstCe) := Zeroed]
      ensures bus.ring == old(bus.ring)[Sr(srcCe) := Ring(0, 0, 0)][Dr(dstCe) := Ring(0, 0, 0)]
    {
      bus.Park(Sr(srcCe));
      bus.Park(Dr(dstCe));
      if region.Some? {
        bus.Free(region.value);
      } else {
        assert bus.regions == bus.regions - {};
      }
      region := None;
    }
  }

  /** The lifetime of the diagnostic window's region: one engine, both directions. */
  class Window {
    const bus: Bus
    var region: Option<nat>

    ghost predicate Owns()
      reads this, bus`home, bus`regions
    {
      Owned(bus.home, bus.regions, region, DIAG_BYTES, Sr(DIAG_CE), Dr(DIAG_CE))
    }

    constructor (bus: Bus)
      ensures Owns() && region == None && this.bus == bus
    {
      this.bus, region := bus, None;
    }

    method Init() returns (ok: bool)
      requires bus.Safe() && Owns() && region == None
      modifies this, bus`regions, bus`failures, bus`ring, bus`home, bus`readIndex
      ensures ok <==> region.Some? && !bus.Dead(Sr(DIAG_CE)) && !bus.Dead(Dr(DIAG_CE))
      ensures bus.failures == old(bus.failures) + if ok then 0 else 1
      ensures bus.Safe() && Owns()
      ensures bus.ring == if ok then Programmed(old(bus.ring), Sr(DIAG_CE), Dr(DIAG_CE), region.value) else old(bus.ring)
      ensures bus.regions == if region.None? then old(bus.regions) else old(bus.regions)[region.value := DIAG_BYTES]
      ensures region.Some? ==> region.value !in old(bus.regions)
      ensures bus.home == if ok then old(bus.home)[Sr(DIAG_CE) := In(region.value)][Dr(DIAG_CE) := In(region.value)]
                          else old(bus.home)
    {
      region := bus.Allocate(DIAG_BYTES);
      if region.None? {
        return false;
      }
      var alive := bus.Probe(Sr(DIAG_CE), Dr(DIAG_CE));
      if !alive {
        return false;
      }
      bus.Program(Sr(DIAG_CE), region.value, region.value);
      bus.Program(Dr(DIAG_CE), region.value + RING_ALIGNED, region.value);
      ok := true;
    }

    /** Also what its destructor does. */
    method Teardown()
      requires bus.Safe() && Owns()
      modifies this, bus`regions, bus`ring, bus`home
      ensures bus.Safe() && Owns() && region == None
      ensures bus.regions == old(bus.regions) - SetOf(old(region))
      ensures bus.home == old(bus.home)[Sr(DIAG_CE) := Zeroed][Dr(DIAG_CE) := Zeroed]
      ensures bus.ring == old(bus.ring)[Sr(DIAG_CE) := Ring(0, 0, 0)][Dr(DIAG_CE) := Ring(0, 0, 0)]
    {
      bus.Park(Sr(DIAG_CE));
      bus.Park(Dr(DIAG_CE));
      if region.Some? {
        bus.Free(region.value);
      } else {
        assert bus.regions == bus.regions - {};
      }
      region := None;
    }
  }

  class Manager {
    const bus: Bus
    var ctrl: Pair?
    var wmi: Pair?
    var diag: Window?

    ghost function Footprint(): set<object>
      reads this
    {
      {this, bus} + (if ctrl != null then {ctrl} else {}) + (if wmi != null then {wmi} else {})
      + if diag != null then {diag} else {}
    }

    ghost function CtrlRegion(): set<nat>
      reads this, ctrl
    {
      if ctrl == null then {} else SetOf(ctrl.region)
    }

    ghost function WmiRegion(): set<nat>
      reads this, wmi
    {
      if wmi == null then {} else SetOf(wmi.region)
    }

    ghost function DiagRegion(): set<nat>
      reads this, diag
    {
      if diag == null then {} else SetOf(diag.region)
    }

    ghost function OwnedRegions(): set<nat>
      reads this, ctrl, wmi, diag
    {
      CtrlRegion() + WmiRegion() + DiagRegion()
    }

    /** Each live object owns its own region, and every region is owned or lost, never both. */
    ghost predicate Valid()
      reads this, bus, ctrl, wmi, diag
    {
      ValidBesides({})
    }

    /** As `Valid`, with some regions handed out but not yet owned. */
    ghost predicate ValidBesides(extra: set<nat>)
      reads this, bus, ctrl, wmi, diag
    {
      bus.Safe() && ValidOver(bus.home, bus.regions, bus.lost, extra)
    }

    ghost predicate ValidOver(home: seq<Home>, regions: map<nat, nat>, lost: set<nat>, extra: set<nat>)
      reads this, ctrl, wmi, diag
    {
      && (ctrl != null ==>
          && ctrl.bus == bus && ctrl.srcCe == CTRL_SRC && ctrl.dstCe == CTRL_DST
          && Owned(home, regions, ctrl.region, PAIR_BYTES, Sr(CTRL_SRC), Dr(CTRL_DST)))
      && (wmi != null ==>
          && wmi.bus == bus && wmi.srcCe == WMI_SRC && wmi.dstCe == WMI_DST
          && Owned(home, regions, wmi.region, PAIR_BYTES, Sr(WMI_SRC), Dr(WMI_DST)))
      && (diag != null ==> diag.bus == bus && Owned(home, regions, diag.region, DIAG_BYTES, Sr(DIAG_CE), Dr(DIAG_CE)))
      && (ctrl != null && wmi != null ==> ctrl != wmi)
      && CtrlRegion() !! WmiRegion() !! DiagRegion() !! lost !! extra
      && regions.Keys == OwnedRegions() + lost + extra
    }

    /** Taking a region, and pointing registers at no other, leaves everyone their own. */
    lemma HandedOut(home: seq<Home>, regions: map<nat, nat>, home': seq<Home>, regions': map<nat, nat>,
                    lost: set<nat>, r: Option<nat>)
      requires ValidOver(home, regions, lost, {}) && |home'| == |home| && SetOf(r) !! regions.Keys
      requires regions'.Keys == regions.Keys + SetOf(r) && forall q | q in regions :: regions'[q] == regions[q]
      requires forall k | 0 <= k < |home| :: home'[k] == home[k] || home'[k] == Zeroed || (r.Some? && home'[k] == In(r.value))
      ensures ValidOver(home', regions', lost, SetOf(r))
      ensures ValidOver(home', regions', lost + SetOf(r), {})
    {
      hide Owned;
      if ctrl != null { OwnedStays(home, regions, home', regions', ctrl.region, PAIR_BYTES, Sr(CTRL_SRC), Dr(CTRL_DST)); }
      if wmi != null { OwnedStays(home, regions, home', regions', wmi.region, PAIR_BYTES, Sr(WMI_SRC), Dr(WMI_DST)); }
      if diag != null { OwnedStays(home, regions, home', regions', diag.region, DIAG_BYTES, Sr(DIAG_CE), Dr(DIAG_CE)); }
    }

    /** So does releasing a region that is no longer anyone's, with its registers zeroed. */
    lemma HandedBack(home: seq<Home>, regions: map<nat, nat>, home': seq<Home>, lost: set<nat>, r: set<nat>)
      requires ValidOver(home, regions, lost, r) && |home'| == |home|
      requires forall k | 0 <= k < |home| :: home'[k] == home[k] || home'[k] == Zeroed
      ensures ValidOver(home', regions - r, lost, {})
    {
      hide Owned;
      var regions' := regions - r;
      if ctrl != null { OwnedStays(home, regions, home', regions', ctrl.region, PAIR_BYTES, Sr(CTRL_SRC), Dr(CTRL_DST)); }
      if wmi != null { OwnedStays(home, regions, home', regions', wmi.region, PAIR_BYTES, Sr(WMI_SRC), Dr(WMI_DST)); }
      if diag != null { OwnedStays(home, regions, home', regions', diag.region, DIAG_BYTES, Sr(DIAG_CE), Dr(DIAG_CE)); }
    }

    constructor (bus: Bus)
      requires bus.Safe() && bus.regions.Keys == bus.lost
      ensures Valid() && this.bus == bus && ctrl == null && wmi == null && diag == null && CtrlRegion() == {}
    {
      this.bus, ctrl, wmi, diag := bus, null, null, null;
    }

    /**
     A ring pair brought up on the given engines, unless memory is short or an engine dead. A dead
     engine costs the one region it was given.
     */
    method NewPair(srcCe: nat, dstCe: nat) returns (p: Pair?, ghost given: Option<nat>)
      requires Valid() && srcCe < CE_COUNT && dstCe < CE_COUNT
      modifies bus
      ensures ValidBesides(if p == null then {} else SetOf(p.region)) && old(bus.lost) <= bus.lost
      ensures p != null ==> fresh(p) && p.bus == bus && p.srcCe == srcCe && p.dstCe == dstCe && p.Owns()
      ensures bus.regions.Keys == old(bus.regions.Keys) + SetOf(given) && SetOf(given) !! old(bus.regions.Keys)
      ensures p != null <==> given.Some? && !bus.Dead(Sr(srcCe)) && !bus.Dead(Dr(dstCe))
      ensures bus.failures == old(bus.failures) + if p != null then 0 else 1
      ensures if p != null then p.region.Some? && p.region == given && bus.lost == old(bus.lost)
              else bus.lost == old(bus.lost) + SetOf(given)
      ensures forall r | r in old(bus.regions) :: r in bus.regions && bus.regions[r] == old(bus.regions)[r]
    {
      hide ValidOver, Bus.Safe;
      given := None;
      var oom: bool := *;
      if oom {
        bus.failures := bus.failures + 1;
        return null, given;
      }
      p := new Pair(bus, srcCe, dstCe);
      ghost var home, regions := bus.home, bus.regions;
      var ok := p.Init();
      given := p.region;
      HandedOut(home, regions, bus.home, bus.regions, bus.lost, given);
      if !ok {
        bus.lost := bus.lost + SetOf(given);
        return null, given;
      }
    }

    /**
     Makes the control pair anew. A pair already there is dropped with its region still
     allocated, and so is the region of a pair whose engine turns out dead; nothing is freed.
     `given` is the one region newly allocated, if any.
     */
    method Init() returns (ok: bool, ghost given: Option<nat>)
      requires Valid()
      modifies this`ctrl, bus
      ensures Valid() && (ok <==> ctrl != null) && (ctrl != null ==> fresh(ctrl) && ctrl.region.Some?)
      ensures ok <==> given.Some? && !bus.Dead(Sr(0)) && !bus.Dead(Dr(1))
      ensures bus.failures == old(bus.failures) + if ok then 0 else 1
      ensures forall r | r in old(bus.regions) :: r in bus.regions && bus.regions[r] == old(bus.regions)[r]
      ensures bus.regions.Keys == old(bus.regions.Keys) + SetOf(given)
      ensures bus.lost == old(bus.lost) + old(CtrlRegion()) + if ok then {} else SetOf(given)
      ensures ok ==> CtrlRegion() == SetOf(given)
    {
      hide Owned, Bus.Safe, Bus.Dead;
      DropCtrl();
      ctrl, given := NewPair(CTRL_SRC, CTRL_DST);
      ok := ctrl != null;
    }

    /** The pointer to the old pair is overwritten; its region is lost. */
    method DropCtrl()
      requires Valid()
      modifies this`ctrl, bus`lost
      ensures Valid() && ctrl == null && bus.lost == old(bus.lost) + old(CtrlRegion())
    {
      hide Owned, Bus.Safe;
      bus.lost := bus.lost + CtrlRegion();
      ctrl := null;
    }

    /** Likewise for the WMI pair, but one already up is kept. */
    method InitWmi() returns (ok: bool, ghost given: Option<nat>)
      requires Valid()
      modifies this`wmi, bus
      ensures Valid() && (ok <==> wmi != null)
      ensures old(wmi) == null ==>
                && (ok <==> given.Some? && !bus.Dead(Sr(3)) && !bus.Dead(Dr(2)))
                && bus.failures == old(bus.failures) + if ok then 0 else 1
      ensures old(wmi) != null ==> wmi == old(wmi) && unchanged(bus)
      ensures wmi != old(wmi) ==> fresh(wmi) && wmi.region.Some?
      ensures forall r | r in old(bus.regions) :: r in bus.regions && bus.regions[r] == old(bus.regions)[r]
      ensures bus.regions.Keys == old(bus.regions.Keys) + SetOf(given)
      ensures bus.lost == old(bus.lost) + if ok then {} else SetOf(given)
    {
      hide Owned, Bus.Safe;
      given := None;
      if wmi != null {
        return true, given;
      }
      wmi, given := NewPair(WMI_SRC, WMI_DST);
      ok := wmi != null;
    }

    /** A window that fails to come up is torn down again: nothing is lost. `given` says memory was not short. */
    method InitDiag() returns (ok: bool, ghost given: bool)
      requires Valid()
      modifies this`diag, bus`regions, bus`failures, bus`ring, bus`home, bus`readIndex
      ensures old(diag) == null ==>
                && (ok <==> given && !bus.Dead(Sr(7)) && !bus.Dead(Dr(7)))
                && bus.failures == old(bus.failures) + if ok then 0 else 1
      ensures Valid() && (ok <==> diag != null) && bus.lost == old(bus.lost)
      ensures old(diag) != null ==> diag == old(diag) && unchanged(bus)
      ensures diag != old(diag) ==> fresh(diag) && diag.region.Some?
      ensures forall r | r in old(bus.regions) :: r in bus.regions && bus.regions[r] == old(bus.regions)[r]
      ensures !ok ==> bus.regions == old(bus.regions)
    {
      hide Owned, Bus.Safe;
      given := false;
      if diag != null {
        return true, given;
      }
      var oom: bool := *;
      if oom {
        bus.failures := bus.failures + 1;
        return false, given;
      }
      var d;
      d, given := NewWindow();
      diag := d;
      ok := d != null;
    }

    /** A diagnostic window brought up, or nothing at all changed in memory. */
    method NewWindow() returns (d: Window?, ghost given: bool)
      requires Valid()
      modifies bus`regions, bus`failures, bus`ring, bus`home, bus`readIndex
      ensures d != null <==> given && !bus.Dead(Sr(7)) && !bus.Dead(Dr(7))
      ensures bus.failures == old(bus.failures) + if d != null then 0 else 1
      ensures ValidBesides(if d == null then {} else SetOf(d.region))
      ensures d != null ==> fresh(d) && d.bus == bus && d.region.Some? && d.Owns()
      ensures forall r | r in old(bus.regions) :: r in bus.regions && bus.regions[r] == old(bus.regions)[r]
      ensures d == null ==> bus.regions == old(bus.regions)
    {
      hide ValidOver, Bus.Safe;
      d := new Window(bus);
      ghost var home, regions := bus.home, bus.regions;
      var ok := d.Init();
      given := d.region.Some?;
      if !ok {
        d.Teardown();
        assert bus.regions == regions;
        HandedOut(home, regions, bus.home, bus.regions, bus.lost, None);
        return null, given;
      }
      HandedOut(home, regions, bus.home, bus.regions, bus.lost, d.region);
    }

    method EndDiag()
      requires Valid()
      modifies this`diag, diag, bus`regions, bus`ring, bus`home
      ensures Valid() && diag == null && bus.regions == old(bus.regions) - old(DiagRegion())
    {
      hide Owned, Bus.Safe;
      if diag != null {
        ghost var home, regions, gone := bus.home, bus.regions, DiagRegion();
        diag.Teardown();
        diag := null;
        HandedBack(home, regions, bus.home, bus.lost, gone);
      }
    }

    method EndCtrl()
      requires Valid()
      modifies this`ctrl, ctrl, bus`regions, bus`ring, bus`home
      ensures Valid() && ctrl == null && bus.regions == old(bus.regions) - old(CtrlRegion())
    {
      hide Owned, Bus.Safe;
      if ctrl != null {
        ghost var home, regions, gone := bus.home, bus.regions, CtrlRegion();
        ctrl.Teardown();
        ctrl := null;
        HandedBack(home, regions, bus.home, bus.lost, gone);
      }
    }

    method EndWmi()
      requires Valid()
      modifies this`wmi, wmi, bus`regions, bus`ring, bus`home
      ensures Valid() && wmi == null && bus.regions == old(bus.regions) - old(WmiRegion())
    {
      hide Owned, Bus.Safe;
      if wmi != null {
        ghost var home, regions, gone := bus.home, bus.regions, WmiRegion();
        wmi.Teardown();
        wmi := null;
        HandedBack(home, regions, bus.home, bus.lost, gone);
      }
    }

    /** Every owned region goes, and only those; what was lost stays allocated. */
    method Destroy()
      requires Valid()
      modifies Footprint()
      ensures bus.Safe() && bus.lost == old(bus.lost) == bus.regions.Keys && bus.failures == old(bus.failures)
      ensures bus.regions == old(bus.regions) - old(OwnedRegions())
    {
      hide Owned, Bus.Safe;
      EndDiag();
      EndCtrl();
      EndWmi();
    }
  }

  /** The driver object: the manager pointer alone. */
  class Driver {
    const bus: Bus
    var ce: Manager?

    ghost function Footprint(): set<object>
      reads this, ce
    {
      {this, bus} + if ce != null then ce.Footprint() else {}
    }

    ghost predicate Valid()
      reads this, bus, ce, if ce != null then ce.Footprint() else {}
    {
      if ce == null then bus.Safe() && bus.regions.Keys == bus.lost
      else ce.bus == bus && ce.Valid()
    }

    ghost function OwnedRegions(): set<nat>
      reads this, ce, if ce != null then ce.Footprint() else {}
    {
      if ce == null then {} else ce.OwnedRegions()
    }

    ghost function CtrlRegion(): set<nat>
      reads this, ce, if ce != null then ce.Footprint() else {}
    {
      if ce == null then {} else ce.CtrlRegion()
    }

    lemma Accounts()
      requires Valid()
      ensures bus.Safe() && bus.regions.Keys == OwnedRegions() + bus.lost && OwnedRegions() !! bus.lost
      ensures ce == null ==> OwnedRegions() == {}
    {
    }

    constructor ()
      ensures Valid() && fresh(Footprint()) && bus.lost == {}
    {
      bus := new Bus();
      ce := null;
    }

    /**
     Re-initialises the manager that is there, or makes one. Either way the control region there
     was is not freed but lost: the re-init drops it before anything else. The manager is kept, and
     the call succeeds, unless memory is refused or an engine dead meanwhile.
     */
    method EnsureCE() returns (ok: bool)
      requires Valid()
      modifies Footprint()
      ensures Valid() && fresh(Footprint() - old(Footprint())) && (ok <==> ce != null) && (ok ==> ce.ctrl != null)
      ensures old(bus.lost) + old(CtrlRegion()) <= bus.lost
      ensures ok ==> ce == old(ce) || fresh(ce)
      ensures ok && old(ce) != null && ce != old(ce) ==> bus.failures > old(bus.failures)
      ensures !ok ==> bus.failures > old(bus.failures)
      ensures ok && old(ce) != null && ce == old(ce) ==> bus.lost == old(bus.lost) + old(CtrlRegion())
      ensures ok && old(ce) == null ==> bus.lost == old(bus.lost)
    {
      hide Manager.Valid, Manager.OwnedRegions, Manager.CtrlRegion, Bus.Safe, Bus.Dead, SetOf;
      ghost var given;
      if ce != null {
        ok, given := ce.Init();
        if ok {
          return;
        }
        ce.Destroy();
        ce := null;
      }
      ok := MakeCE();
    }

    /** A manager made from nothing. */
    method MakeCE() returns (ok: bool)
      requires Valid() && ce == null
      modifies this, bus
      ensures Valid() && fresh(Footprint() - {this, bus}) && (ok <==> ce != null) && (ok ==> fresh(ce) && ce.ctrl != null)
      ensures old(bus.lost) <= bus.lost && (ok ==> bus.lost == old(bus.lost)) && old(bus.failures) <= bus.failures
      ensures !ok ==> bus.failures > old(bus.failures)
    {
      hide Manager.Valid, Manager.OwnedRegions, Manager.CtrlRegion, Bus.Safe, Bus.Dead, SetOf;
      var oom: bool := *;
      if oom {
        bus.failures := bus.failures + 1;
        return false;
      }
      ce := new Manager(bus);
      ghost var given;
      ok, given := ce.Init();
      if !ok {
        ce.Destroy();
        ce := null;
      }
    }

    /** The driver's next call in an arbitrary run. */
    method AnyCall()
      requires Valid()
      modifies Footprint()
      ensures Valid() && fresh(Footprint() - old(Footprint()))
    {
      hide Manager.Valid, Bus.Safe;
      var choice: int := *;
      match choice
      case 0 => var _ := EnsureCE();
      case 1 => if ce != null { var _, _ := ce.InitDiag(); }
      case 2 => if ce != null { var _, _ := ce.InitWmi(); }
      case _ => TeardownHardware();
    }

    method AnyCalls(calls: nat)
      requires Valid()
      modifies Footprint()
      ensures Valid() && fresh(Footprint() - old(Footprint()))
    {
      hide Valid;
      if calls > 0 {
        AnyCall();
        AnyCalls(calls - 1);
      }
    }

    method TeardownHardware()
      requires Valid()
      modifies Footprint()
      ensures Valid() && fresh(Footprint() - old(Footprint())) && ce == null
      ensures bus.Safe() && bus.lost == old(bus.lost) == bus.regions.Keys
    {
      if ce != null {
        ce.Destroy();
        ce := null;
      }
    }
  }

  /**
   Whatever the driver calls and whichever of it fails, and however far it has got: every register
   is harmless, and the memory still allocated is what some object owns or what was dropped,
   never both. With the hardware torn down only dropped memory remains.
   */
  method AnyRun(calls: nat) returns (d: Driver)
    ensures fresh(d) && d.Valid() && d.bus.Safe()
    ensures d.bus.regions.Keys == d.OwnedRegions() + d.bus.lost && d.OwnedRegions() !! d.bus.lost
    ensures d.ce == null ==> d.bus.regions.Keys == d.bus.lost
  {
    hide Driver.Valid, Driver.OwnedRegions, Bus.Safe;
    d := new Driver();
    d.AnyCalls(calls);
    d.Accounts();
  }
}
