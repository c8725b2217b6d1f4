/** The target's copy-engine configuration, written through CE7 and published by a last flag. */
module InitConfig {
  import opened Bytes
  import opened Common
  import opened Diag
  import opened Rings
  import L = Lifecycle

  const HI_BASE: nat := 0x0040_0800
  const INTERCONNECT_STATE: nat := HI_BASE + 0xf8
  const EARLY_ALLOC: nat := HI_BASE + 0x100
  const OPTION_FLAG2: nat := HI_BASE + 0xcc
  const PIPE_CFG_OFF: nat := 0x00
  const SVC_MAP_OFF: nat := 0x04
  const CONFIG_FLAGS_OFF: nat := 0x20

  const ENABLE_L1: nat := 0x1
  const EARLY_CFG_DONE: nat := 0x10
  const DONE_BIT: nat := 4
  const ALLOC_MAGIC: nat := 0x6d8a_0000
  const ALLOC_BANKS: nat := 9

  const DIR_IN: u32 := 1
  const DIR_OUT: u32 := 2
  const DIR_INOUT: u32 := 3

  /** What the target is told of one engine. */
  datatype Pipe = Pipe(num: u32, dir: u32, entries: u32, maxBytes: u32)

  /** Which engine carries a service in one direction, as the host sees it. */
  datatype Route = Route(service: u32, dir: u32, pipe: u32)

  const PIPES: seq<Pipe> := [
    Pipe(0, DIR_OUT, 32, 256),
    Pipe(1, DIR_IN, 32, 2048),
    Pipe(2, DIR_IN, 64, 2048),
    Pipe(3, DIR_OUT, 32, 2048),
    Pipe(4, DIR_OUT, 256, 256),
    Pipe(5, DIR_IN, 32, 512),
    Pipe(6, DIR_INOUT, 32, 4096)
  ]

  const ROUTES: seq<Route> := [
    Route(0x104, DIR_OUT, 3), Route(0x104, DIR_IN, 2),
    Route(0x102, DIR_OUT, 3), Route(0x102, DIR_IN, 2),
    Route(0x101, DIR_OUT, 3), Route(0x101, DIR_IN, 2),
    Route(0x103, DIR_OUT, 3), Route(0x103, DIR_IN, 2),
    Route(0x100, DIR_OUT, 3), Route(0x100, DIR_IN, 2),
    Route(0x001, DIR_OUT, 0), Route(0x001, DIR_IN, 1),
    Route(0xFE00, DIR_OUT, 0), Route(0xFE00, DIR_IN, 1),
    Route(0x300, DIR_OUT, 4), Route(0x300, DIR_IN, 5),
    Route(0, 0, 0)
  ]

  /** A pipe is six words, the last two zero. */
  function PipeWords(ps: seq<Pipe>): (ws: seq<u32>)
    ensures |ws| == 6 * |ps|
  {
    if ps == [] then []
    else
      var p := ps[|ps| - 1];
      PipeWords(ps[..|ps| - 1]) + [p.num, p.dir, p.entries, p.maxBytes, 0, 0]
  }

  /** A route is three words. */
  function RouteWords(rs: seq<Route>): (ws: seq<u32>)
    ensures |ws| == 3 * |rs|
  {
    if rs == [] then []
    else
      var r := rs[|rs| - 1];
      RouteWords(rs[..|rs| - 1]) + [r.service, r.dir, r.pipe]
  }

  const PIPE_CONFIG: seq<u32> := PipeWords(PIPES)
  const SVC_MAP: seq<u32> := RouteWords(ROUTES)

  const PIPE_BYTES: nat := 168
  const SVC_BYTES: nat := 204

  /** The k-th pipe of a table in the target's memory, as the target reads it. */
  function PipeAt(table: seq<byte>, k: nat): Pipe
    requires 24 * k + 24 <= |table|
  {
    Pipe(Get32(table, 24 * k), Get32(table, 24 * k + 4), Get32(table, 24 * k + 8), Get32(table, 24 * k + 12))
  }

  function RouteAt(table: seq<byte>, k: nat): Route
    requires 12 * k + 12 <= |table|
  {
    Route(Get32(table, 12 * k), Get32(table, 12 * k + 4), Get32(table, 12 * k + 8))
  }

  lemma {:induction false} PipeWordsAt(ps: seq<Pipe>, k: nat)
    requires k < |ps|
    ensures var ws := PipeWords(ps);
            && ws[6 * k] == ps[k].num && ws[6 * k + 1] == ps[k].dir && ws[6 * k + 2] == ps[k].entries
            && ws[6 * k + 3] == ps[k].maxBytes && ws[6 * k + 4] == ws[6 * k + 5] == 0
  {
    if k < |ps| - 1 { PipeWordsAt(ps[..|ps| - 1], k); }
  }

  lemma {:induction false} RouteWordsAt(rs: seq<Route>, k: nat)
    requires k < |rs|
    ensures var ws := RouteWords(rs);
            ws[3 * k] == rs[k].service && ws[3 * k + 1] == rs[k].dir && ws[3 * k + 2] == rs[k].pipe
  {
    if k < |rs| - 1 { RouteWordsAt(rs[..|rs| - 1], k); }
  }

  /** The tables read back as they are laid out here. */
  lemma PipesRead(ps: seq<Pipe>, k: nat)
    requires k < |ps|
    ensures PipeAt(Words(PipeWords(ps)), k) == ps[k]
  {
    hide PipeWords, Words, Get32;
    PipeWordsAt(ps, k);
    var ws := PipeWords(ps);
    WordsRead(ws, 6 * k);
    WordsRead(ws, 6 * k + 1);
    WordsRead(ws, 6 * k + 2);
    WordsRead(ws, 6 * k + 3);
  }

  lemma RoutesRead(rs: seq<Route>, k: nat)
    requires k < |rs|
    ensures RouteAt(Words(RouteWords(rs)), k) == rs[k]
  {
    hide RouteWords, Words, Get32;
    RouteWordsAt(rs, k);
    var ws := RouteWords(rs);
    WordsRead(ws, 3 * k);
    WordsRead(ws, 3 * k + 1);
    WordsRead(ws, 3 * k + 2);
  }

  /** Pipe k describes engine k, with a power of two of entries. */
  lemma PipesAreEngines(k: nat)
    requires k < 7
    ensures |PIPES| == 7 && PIPES[k].num == k && PIPES[k].entries in {32, 64, 256}
  {
  }

  /** Every route but the terminator names a pipe of the table that runs in the route's own direction. */
  lemma RoutesAgree(k: nat)
    requires k < 16
    ensures |ROUTES| == 17 && ROUTES[k].pipe < |PIPES| && ROUTES[k].dir == PIPES[ROUTES[k].pipe].dir
    ensures ROUTES[k].service != 0 && ROUTES[16] == Route(0, 0, 0)
  {
  }

  /** The routes come in pairs, out and in, one pair a service. */
  lemma RoutesAreDistinct(j: nat, k: nat)
    requires j < k < 16
    ensures ROUTES[j].service == ROUTES[k].service <==> j % 2 == 0 && k == j + 1
    ensures ROUTES[j].service == ROUTES[k].service ==> ROUTES[j].dir == 2 && ROUTES[k].dir == 1
  {
  }

  /**
   WMI control goes over the very engines the driver's WMI pair runs on, the reserved control
   service over those of its control pair, and the WMI engines take whole ring buffers.
   */
  lemma RoutesMatchPairs(k: nat)
    requires k < 16
    ensures ROUTES[k].service == 0x100 ==> ROUTES[k].pipe == if ROUTES[k].dir == 2 then L.WMI_SRC else L.WMI_DST
    ensures ROUTES[k].service == 0x001 ==> ROUTES[k].pipe == if ROUTES[k].dir == 2 then L.CTRL_SRC else L.CTRL_DST
    ensures exists i | 0 <= i < 16 :: ROUTES[i].service == 0x100
    ensures exists i | 0 <= i < 16 :: ROUTES[i].service == 0x001
    ensures PIPES[L.WMI_SRC].maxBytes == TX_BUF_SZ && PIPES[L.WMI_DST].maxBytes == RX_BUF_SZ == PIPES[L.CTRL_DST].maxBytes
  {
    assert ROUTES[8].service == 0x100 && ROUTES[10].service == 0x001;
  }

  /** The word the map shows at a target address. */
  function WordAt(m: Memory, core: nat, addr: nat): u32 {
    Get32(Slice(m, ToCe(core, addr), 4), 0)
  }

  function PcieState(m: Memory, core: nat): u32 { WordAt(m, core, INTERCONNECT_STATE) }
  function PipeCfg(m: Memory, core: nat): u32 { WordAt(m, core, Wrap(PcieState(m, core) + PIPE_CFG_OFF)) }
  function SvcMap(m: Memory, core: nat): u32 { WordAt(m, core, Wrap(PcieState(m, core) + SVC_MAP_OFF)) }

  /** The five areas the configuration writes, as they lie in the map. */
  function Areas(m: Memory, core: nat): (areas: seq<(nat, nat)>)
    ensures |areas| == 5
  {
    [(ToCe(core, Wrap(PcieState(m, core) + CONFIG_FLAGS_OFF)), 4),
     (ToCe(core, PipeCfg(m, core)), PIPE_BYTES),
     (ToCe(core, SvcMap(m, core)), SVC_BYTES),
     (ToCe(core, EARLY_ALLOC), 4),
     (ToCe(core, OPTION_FLAG2), 4)]
  }

  predicate In(a: nat, area: (nat, nat)) {
    area.0 <= a < area.0 + area.1
  }

  /** The areas do not overlap. */
  ghost predicate Disjoint(areas: seq<(nat, nat)>) {
    forall i, j | 0 <= i < j < |areas| :: areas[i].0 + areas[i].1 <= areas[j].0 || areas[j].0 + areas[j].1 <= areas[i].0
  }

  function NewFlags(w: u32): u32 {
    AndNotShrinks(w, ENABLE_L1);
    AndNot(w, ENABLE_L1)
  }

  function NewAlloc(w: u32): u32 {
    Pow2Of32();
    OrFits(w, ALLOC_MAGIC, 32);
    OrFits(Or(w, ALLOC_MAGIC), ALLOC_BANKS, 32);
    Or(Or(w, ALLOC_MAGIC), ALLOC_BANKS)
  }

  function NewFlag2(w: u32): u32 {
    Pow2Of32();
    OrFits(w, EARLY_CFG_DONE, 32);
    Or(w, EARLY_CFG_DONE)
  }

  /** What each area must hold, given the memory before the call. */
  function Contents(m: Memory, core: nat): (c: seq<seq<byte>>)
    ensures |c| == 5 && forall i | 0 <= i < 5 :: |c[i]| == Areas(m, core)[i].1
  {
    [Le32(NewFlags(WordAt(m, core, Wrap(PcieState(m, core) + CONFIG_FLAGS_OFF)))),
     Words(PIPE_CONFIG),
     Words(SVC_MAP),
     Le32(NewAlloc(WordAt(m, core, EARLY_ALLOC))),
     Le32(NewFlag2(WordAt(m, core, OPTION_FLAG2)))]
  }

  /** Areas 0 to k-1 hold what they must. */
  ghost predicate Holds(before: Memory, m: Memory, core: nat, k: nat)
    requires k <= 5
  {
    forall i | 0 <= i < k :: Slice(m, Areas(before, core)[i].0, Areas(before, core)[i].1) == Contents(before, core)[i]
  }

  /** Nothing but the bounce buffer and areas 0 to k-1 has changed. */
  ghost predicate Untouched(d: CEDiag, before: Memory, m: Memory, k: nat)
    requires k <= 5
  {
    forall a: nat {:trigger m(a)} ::
      || m(a) == before(a)
      || d.bouncePhys <= a < d.bouncePhys + DIAG_MAX
      || exists i | 0 <= i < k :: In(a, Areas(before, d.core)[i])
  }

  ghost predicate DoneAt(m: Memory, core: nat) {
    Bit(WordAt(m, core, OPTION_FLAG2), DONE_BIT)
  }

  /** An area not yet written still reads as before. */
  lemma AreaUnchanged(d: CEDiag, before: Memory, m: Memory, k: nat, j: nat)
    requires k <= j < 5 && Untouched(d, before, m, k) && Disjoint(Areas(before, d.core)) && d.Shape()
    ensures Slice(m, Areas(before, d.core)[j].0, Areas(before, d.core)[j].1)
         == Slice(before, Areas(before, d.core)[j].0, Areas(before, d.core)[j].1)
  {
    var areas := Areas(before, d.core);
    AreaOffBounce(d, before, j);
    forall a: nat | In(a, areas[j]) ensures m(a) == before(a) {
      assert forall i | 0 <= i < k :: !In(a, areas[i]);
    }
  }

  lemma AreaOffBounce(d: CEDiag, before: Memory, j: nat)
    requires j < 5 && d.Shape()
    ensures var area := Areas(before, d.core)[j];
            area.0 + area.1 <= d.bouncePhys || d.bouncePhys + DIAG_MAX <= area.0
  {
    var m, core := before, d.core;
    d.WindowApart(Wrap(PcieState(m, core) + CONFIG_FLAGS_OFF), 4);
    d.WindowApart(PipeCfg(m, core), PIPE_BYTES);
    d.WindowApart(SvcMap(m, core), SVC_BYTES);
    d.WindowApart(EARLY_ALLOC, 4);
    d.WindowApart(OPTION_FLAG2, 4);
  }

  /** A change confined to area k, or to the bounce buffer, keeps the areas before it. */
  lemma ChangeConfined(d: CEDiag, before: Memory, m: Memory, m': Memory, k: nat, addr: nat, len: nat)
    requires k < 5 && d.Shape() && Disjoint(Areas(before, d.core))
    requires Holds(before, m, d.core, k) && Untouched(d, before, m, k) && d.OnlyChanged(m, m', addr, len)
    requires len > 0 ==> (ToCe(d.core, addr), len) == Areas(before, d.core)[k]
    ensures Holds(before, m', d.core, k) && Untouched(d, before, m', if len > 0 then k + 1 else k)
  {
    var areas := Areas(before, d.core);
    forall i | 0 <= i < k ensures Slice(m', areas[i].0, areas[i].1) == Contents(before, d.core)[i] {
      AreaOffBounce(d, before, i);
      assert areas[i].0 + areas[i].1 <= areas[k].0 || areas[k].0 + areas[k].1 <= areas[i].0;
      assert Slice(m', areas[i].0, areas[i].1) == Slice(m, areas[i].0, areas[i].1);
    }
    forall a: nat
      ensures m'(a) == before(a) || d.bouncePhys <= a < d.bouncePhys + DIAG_MAX
              || exists i | 0 <= i < (if len > 0 then k + 1 else k) :: In(a, areas[i])
    {
      if m'(a) != before(a) && !(d.bouncePhys <= a < d.bouncePhys + DIAG_MAX) {
        if m'(a) != m(a) {
          assert In(a, areas[k]);
        }
      }
    }
  }

  /** A word reads as before the call, if nothing is written yet or it is an area still to come. */
  lemma WordUnchanged(d: CEDiag, before: Memory, m: Memory, k: nat, addr: nat, j: nat)
    requires k < 5 && Untouched(d, before, m, k) && Disjoint(Areas(before, d.core)) && d.Shape()
    requires k == 0 || (k <= j < 5 && Areas(before, d.core)[j] == (ToCe(d.core, addr), 4))
    ensures WordAt(m, d.core, addr) == WordAt(before, d.core, addr)
  {
    if k == 0 {
      d.WindowApart(addr, 4);
      assert Slice(m, ToCe(d.core, addr), 4) == Slice(before, ToCe(d.core, addr), 4);
    } else {
      AreaUnchanged(d, before, m, k, j);
    }
  }

  /**
   Only reads are unfinished, and one of the next few completions to be consumed does not show the
   length of a word, nor will before it is consumed.
   */
  ghost predicate Mistimed(d: CEDiag, left: nat)
    reads d, d.hw, d.dstDesc
  {
    && d.ReadsOnly() && |d.asked| + left <= d.done + RING_N
    && exists j: nat, c: nat :: OddNext(d, j, c) && d.taken <= j < d.taken + left
  }

  /** Completion j is out of place, and its slot is not posted again before it is consumed. */
  ghost predicate OddNext(d: CEDiag, j: nat, c: nat)
    reads d, d.hw, d.dstDesc
  {
    d.taken <= j && |d.asked| + (j - d.taken) < c && Slot(c) == Slot(j) && d.Odd(c, 4)
  }

  /** Reads a word. In step, the word is the target's; mistimed, a success brings the odd length nearer. */
  method ReadWord(d: CEDiag, addr: nat, ghost before: Memory, ghost k: nat, ghost j: nat,
                  ghost left: nat, ghost inStep: bool)
    returns (ok: bool, w: u32, ghost out: Outcome)
    requires k == 0 || (k <= j < 5 && Areas(before, d.core)[j] == (ToCe(d.core, addr), 4))
    requires d.Valid() && k < 5
    requires inStep ==> d.InStep() && Disjoint(Areas(before, d.core))
                        && Holds(before, d.hw.bus, d.core, k) && Untouched(d, before, d.hw.bus, k)
    modifies d, d.hw, d.srcDesc, d.dstDesc
    ensures d.Valid()
    ensures inStep ==> Holds(before, d.hw.bus, d.core, k) && Untouched(d, before, d.hw.bus, k)
    ensures inStep && ok ==> d.InStep() && w == WordAt(before, d.core, addr)
    ensures (ok <==> out == Saw(4)) && |d.asked| == |old(d.asked)| + 1
    ensures old(Mistimed(d, left)) ==> d.BounceOnly(old(d.hw.bus), d.hw.bus) && (ok ==> left > 0 && Mistimed(d, left - 1))
  {
    hide CEDiag.Core, Holds, Untouched, CEDiag.OnlyChanged, CEDiag.ReadsOnly, CEDiag.BounceOnly, Areas, CEDiag.Odd, Slot;
    ghost var was := d.hw.bus;
    if inStep {
      WordUnchanged(d, before, was, k, addr, j);
    }
    ghost var j': nat, c: nat := 0, 0;
    if Mistimed(d, left) {
      j', c :| OddNext(d, j', c) && d.taken <= j' < d.taken + left;
    }
    var data;
    ok, data, out := d.ReadMem(addr, 4);
    assert old(Mistimed(d, left)) && ok ==> OddNext(d, j', c);
    if inStep {
      ChangeConfined(d, before, was, d.hw.bus, k, addr, 0);
    }
    w := if ok then Get32(data, 0) else 0;
  }

  /** Writes area k; a failure may leave it part-written, now or later, but touches nothing else. */
  method WriteArea(d: CEDiag, addr: nat, data: seq<byte>, ghost before: Memory, ghost k: nat, ghost inStep: bool)
    returns (ok: bool, ghost out: Outcome)
    requires d.Valid() && k < 5
    requires inStep ==>
               && d.InStep() && Disjoint(Areas(before, d.core)) && Holds(before, d.hw.bus, d.core, k) && Untouched(d, before, d.hw.bus, k)
               && (ToCe(d.core, addr), |data|) == Areas(before, d.core)[k] && data == Contents(before, d.core)[k] && |data| > 0
    modifies d, d.hw, d.srcDesc, d.dstDesc
    ensures d.Valid()
    ensures inStep ==> Holds(before, d.hw.bus, d.core, k) && Untouched(d, before, d.hw.bus, k + 1)
    ensures inStep && ok ==> d.InStep() && Holds(before, d.hw.bus, d.core, k + 1)
    ensures ok <==> out == Saw(|data|)
    ensures 1 <= |data| <= DIAG_MAX ==> |d.asked| == |old(d.asked)| + 1
  {
    hide CEDiag.Valid, Untouched, CEDiag.OnlyChanged, Areas, Contents;
    ghost var was := d.hw.bus;
    ok, out := d.WriteMem(addr, data);
    if inStep {
      ChangeConfined(d, before, was, d.hw.bus, k, addr, |data|);
    }
  }

  /** The memory the method starts from: areas apart, nothing done yet. */
  lemma Start(d: CEDiag, before: Memory)
    ensures Holds(before, before, d.core, 0) && Untouched(d, before, before, 0)
  {
  }

  /** The lengths of the eleven transfers, in order. */
  const LENGTHS: seq<nat> := [4, 4, 4, 4, 4, PIPE_BYTES, SVC_BYTES, 4, 4, 4, 4]

  /** Each transfer so far took a completion of its own length. */
  predicate Clean(outs: seq<Outcome>) {
    |outs| <= |LENGTHS| && forall i | 0 <= i < |outs| :: outs[i] == Saw(LENGTHS[i])
  }

  /** Each but the last did. */
  predicate LastWrong(outs: seq<Outcome>) {
    0 < |outs| <= |LENGTHS| && Clean(outs[..|outs| - 1]) && !Clean(outs)
  }

  lemma NextOutcome(outs: seq<Outcome>, out: Outcome, len: nat)
    requires Clean(outs) && |outs| < |LENGTHS| && len == LENGTHS[|outs|]
    ensures if out == Saw(len) then Clean(outs + [out]) else LastWrong(outs + [out])
  {
    assert (outs + [out])[..|outs|] == outs && (outs + [out])[|outs|] == out;
  }

  /** Early allocation: the magic and the bank count, joined into whatever is there. */
  method WriteAlloc(d: CEDiag, ghost before: Memory, ghost inStep: bool, ghost outs0: seq<Outcome>)
    returns (ok: bool, ghost outs: seq<Outcome>)
    requires d.Valid() && Clean(outs0) && |outs0| == 7
    requires inStep ==> d.InStep() && Disjoint(Areas(before, d.core)) && Holds(before, d.hw.bus, d.core, 3) && Untouched(d, before, d.hw.bus, 3)
    modifies d, d.hw, d.srcDesc, d.dstDesc
    ensures d.Valid() && (inStep ==> Untouched(d, before, d.hw.bus, 4))
    ensures inStep && ok ==> d.InStep() && Holds(before, d.hw.bus, d.core, 4)
    ensures if ok then Clean(outs) && |outs| == 9 else LastWrong(outs)
    ensures |d.asked| + |outs0| == |old(d.asked)| + |outs|
  {
    hide CEDiag.Valid, Untouched, Holds, Disjoint, WordAt, Words, Le32, NewAlloc, Clean, LastWrong;
    var w;
    ghost var out;
    ok, w, out := ReadWord(d, EARLY_ALLOC, before, 3, 3, 0, inStep);
    NextOutcome(outs0, out, 4);
    outs := outs0 + [out];
    if !ok {
      if inStep { Widen(d, before, 3); }
      return;
    }
    ok, out := WriteArea(d, EARLY_ALLOC, Le32(NewAlloc(w)), before, 3, inStep);
    NextOutcome(outs, out, 4);
    outs := outs + [out];
  }

  /** The done bit, joined into the option flags: the last write of all. */
  method Publish(d: CEDiag, ghost before: Memory, ghost inStep: bool, ghost outs0: seq<Outcome>)
    returns (ok: bool, ghost outs: seq<Outcome>)
    requires d.Valid() && Clean(outs0) && |outs0| == 9
    requires inStep ==> d.InStep() && Disjoint(Areas(before, d.core)) && Holds(before, d.hw.bus, d.core, 4) && Untouched(d, before, d.hw.bus, 4)
    modifies d, d.hw, d.srcDesc, d.dstDesc
    ensures d.Valid()
    ensures inStep ==> Holds(before, d.hw.bus, d.core, 4) && Untouched(d, before, d.hw.bus, 5)
    ensures inStep && ok ==> d.InStep() && Holds(before, d.hw.bus, d.core, 5)
    ensures if ok then Clean(outs) && |outs| == 11 else LastWrong(outs)
    ensures |d.asked| + |outs0| == |old(d.asked)| + |outs|
  {
    hide CEDiag.Valid, Untouched, Holds, Disjoint, WordAt, Words, Le32, NewFlag2, Clean, LastWrong;
    var w;
    ghost var out;
    ok, w, out := ReadWord(d, OPTION_FLAG2, before, 4, 4, 0, inStep);
    NextOutcome(outs0, out, 4);
    outs := outs0 + [out];
    if !ok {
      if inStep { Widen(d, before, 4); }
      return;
    }
    ok, out := WriteArea(d, OPTION_FLAG2, Le32(NewFlag2(w)), before, 4, inStep);
    NextOutcome(outs, out, 4);
    outs := outs + [out];
  }

  lemma Widen(d: CEDiag, before: Memory, k: nat)
    requires k < 5 && Untouched(d, before, d.hw.bus, k)
    ensures Untouched(d, before, d.hw.bus, k + 1)
  {
  }

  /**
   What publishing last promises: the bit is not newly set unless the other four areas are in
   place; nothing outside the five changes; and a success has them all.
   */
  ghost predicate PublishedLast(d: CEDiag, before: Memory, after: Memory, ok: bool) {
    && (DoneAt(after, d.core) && !DoneAt(before, d.core) ==> Holds(before, after, d.core, 4))
    && Untouched(d, before, after, 5)
    && (ok ==>
        && Holds(before, after, d.core, 5)
        && PcieState(before, d.core) != 0 && PipeCfg(before, d.core) != 0 && SvcMap(before, d.core) != 0)
  }

  /** With areas 0 to k-1 written at most, the done bit is what it was. */
  lemma NotYet(d: CEDiag, before: Memory, m: Memory, k: nat)
    requires k < 5 && Untouched(d, before, m, k) && Disjoint(Areas(before, d.core)) && d.Shape()
    ensures PublishedLast(d, before, m, false)
  {
    AreaUnchanged(d, before, m, k, 4);
  }

  /** The three pointers and the flags word; each read may fail, and a null pointer ends it. */
  method Discover(d: CEDiag, ghost before: Memory, ghost inStep: bool)
    returns (ok: bool, pcieState: u32, pipeCfg: u32, svcMap: u32, cfgFlags: u32, ghost outs: seq<Outcome>)
    requires d.Valid() && d.hw.bus == before && (inStep ==> d.InStep() && Disjoint(Areas(before, d.core)))
    modifies d, d.hw, d.srcDesc, d.dstDesc
    ensures d.Valid()
    ensures inStep ==>
              if ok
              then && d.InStep() && Holds(before, d.hw.bus, d.core, 0) && Untouched(d, before, d.hw.bus, 0)
                   && Discovered(before, d.core, pcieState, pipeCfg, svcMap, cfgFlags)
              else PublishedLast(d, before, d.hw.bus, false)
    ensures old(Mistimed(d, 4)) ==> d.BounceOnly(before, d.hw.bus) && (ok ==> Mistimed(d, 0))
    ensures |d.asked| == |old(d.asked)| + |outs|
    ensures if ok then Clean(outs) && |outs| == 4
            else LastWrong(outs) || (Clean(outs) && 0 < |outs| < 4 && (inStep ==> NullPointer(before, d.core, |outs|)))
  {
    hide CEDiag.Valid, Holds, Untouched, Disjoint, WordAt, PublishedLast, Mistimed, CEDiag.BounceOnly, CEDiag.InStep, Wrap;
    hide Clean, LastWrong;
    ghost var out;
    outs := [];
    NoOutcome();
    pcieState, pipeCfg, svcMap, cfgFlags := 0, 0, 0, 0;
    Start(d, before);
    d.BounceTwice(before, before, before);
    ok, pcieState, out := ReadWord(d, INTERCONNECT_STATE, before, 0, 0, 4, inStep);
    NextOutcome(outs, out, 4);
    outs := outs + [out];
    if !ok || pcieState == 0 {
      if inStep { NotYet(d, before, d.hw.bus, 0); }
      ok := false;
      return;
    }
    ghost var m := d.hw.bus;
    ok, pipeCfg, out := ReadWord(d, Wrap(pcieState + PIPE_CFG_OFF), before, 0, 0, 3, inStep);
    NextOutcome(outs, out, 4);
    outs := outs + [out];
    d.BounceTwice(before, m, d.hw.bus);
    if !ok || pipeCfg == 0 {
      if inStep { NotYet(d, before, d.hw.bus, 0); }
      ok := false;
      return;
    }
    m := d.hw.bus;
    ok, svcMap, out := ReadWord(d, Wrap(pcieState + SVC_MAP_OFF), before, 0, 0, 2, inStep);
    NextOutcome(outs, out, 4);
    outs := outs + [out];
    d.BounceTwice(before, m, d.hw.bus);
    if !ok || svcMap == 0 {
      if inStep { NotYet(d, before, d.hw.bus, 0); }
      ok := false;
      return;
    }
    m := d.hw.bus;
    ok, cfgFlags, out := ReadWord(d, Wrap(pcieState + CONFIG_FLAGS_OFF), before, 0, 0, 1, inStep);
    NextOutcome(outs, out, 4);
    outs := outs + [out];
    d.BounceTwice(before, m, d.hw.bus);
    if !ok && inStep {
      NotYet(d, before, d.hw.bus, 0);
    }
  }

  lemma NoOutcome()
    ensures Clean([])
  {
  }

  /** The k-th of the three pointers is null. */
  predicate NullPointer(m: Memory, core: nat, k: nat) {
    match k
    case 1 => PcieState(m, core) == 0
    case 2 => PipeCfg(m, core) == 0
    case 3 => SvcMap(m, core) == 0
    case _ => false
  }

  predicate Discovered(m: Memory, core: nat, pcieState: u32, pipeCfg: u32, svcMap: u32, cfgFlags: u32) {
    && pcieState == PcieState(m, core) != 0 && pipeCfg == PipeCfg(m, core) != 0 && svcMap == SvcMap(m, core) != 0
    && cfgFlags == WordAt(m, core, Wrap(pcieState + CONFIG_FLAGS_OFF))
  }

  /** The five writes, in order. */
  method Program(d: CEDiag, ghost before: Memory, pcieState: u32, pipeCfg: u32, svcMap: u32, cfgFlags: u32,
                 ghost inStep: bool, ghost outs0: seq<Outcome>)
    returns (ok: bool, ghost outs: seq<Outcome>)
    requires d.Valid() && Clean(outs0) && |outs0| == 4
    requires inStep ==>
               && d.InStep() && Disjoint(Areas(before, d.core)) && Holds(before, d.hw.bus, d.core, 0) && Untouched(d, before, d.hw.bus, 0)
               && Discovered(before, d.core, pcieState, pipeCfg, svcMap, cfgFlags)
    modifies d, d.hw, d.srcDesc, d.dstDesc
    ensures d.Valid()
    ensures inStep ==> PublishedLast(d, before, d.hw.bus, ok) && (ok ==> d.InStep())
    ensures if ok then Clean(outs) && |outs| == 11 else LastWrong(outs)
    ensures |d.asked| + |outs0| == |old(d.asked)| + |outs|
  {
    hide CEDiag.Valid, Holds, Untouched, Disjoint, WordAt, Words, Le32, CEDiag.InStep, Wrap;
    hide NewFlags, NewAlloc, NewFlag2, DoneAt, Clean, LastWrong, PipeWords, RouteWords;
    ghost var out;
    ok, out := WriteArea(d, Wrap(pcieState + CONFIG_FLAGS_OFF), Le32(NewFlags(cfgFlags)), before, 0, inStep);
    NextOutcome(outs0, out, 4);
    outs := outs0 + [out];
    if !ok {
      if inStep { NotYet(d, before, d.hw.bus, 1); }
      return;
    }
    ok, out := WriteArea(d, pipeCfg, Words(PIPE_CONFIG), before, 1, inStep);
    NextOutcome(outs, out, PIPE_BYTES);
    outs := outs + [out];
    if !ok {
      if inStep { NotYet(d, before, d.hw.bus, 2); }
      return;
    }
    ok, out := WriteArea(d, svcMap, Words(SVC_MAP), before, 2, inStep);
    NextOutcome(outs, out, SVC_BYTES);
    outs := outs + [out];
    if !ok {
      if inStep { NotYet(d, before, d.hw.bus, 3); }
      return;
    }
    ok, outs := WriteAlloc(d, before, inStep, outs);
    if !ok {
      if inStep { NotYet(d, before, d.hw.bus, 4); }
      return;
    }
    ok, outs := Publish(d, before, inStep, outs);
  }

  /** The slot i places on. */
  function Ahead(slot: nat, i: nat): (s: nat)
    ensures s < RING_N
  {
    Slot(slot + i)
  }

  /** How many posts behind the indices show. */
  function Lag(d: CEDiag): nat
    reads d`dstSw, d`dstWrite
  {
    (d.dstWrite - d.dstSw) % RING_N
  }

  /** A slot shows the length of a word, or will once the length on its way lands. */
  ghost predicate ComesToFour(d: CEDiag, slot: nat)
    reads d.hw`unlanded, d.dstDesc
    requires slot < d.dstDesc.Length
  {
    d.dstDesc[slot].nbytes == 4 || (slot in d.hw.unlanded && d.hw.unlanded[slot] == 4)
  }

  /** The engine idle, the window out of step, and the next four completions look like a word's. */
  ghost predicate Behind(d: CEDiag)
    reads d, d.hw, d.srcDesc, d.dstDesc
  {
    && d.Valid() && d.Drained() && d.dstSw != d.dstWrite
    && forall i: nat | i < 4 && i < Lag(d) :: ComesToFour(d, Ahead(d.dstSw, i))
  }

  lemma InStepIsSafe(d: CEDiag)
    ensures d.InStep() ==> d.Drained() && !Behind(d)
  {
  }

  /** If not, one of them is odd. */
  lemma NotBehind(d: CEDiag)
    requires d.Valid() && d.Drained() && !d.InStep() && !Behind(d) && d.done == |d.asked| && !d.overrun
    ensures Mistimed(d, 4)
  {
    hide CEDiag.Core, Slot;
    var i: nat :| i < 4 && i < Lag(d) && !ComesToFour(d, Ahead(d.dstSw, i));
    var j, c := d.taken + i, |d.asked| + RING_N - Lag(d) + i;
    SlotsAhead(d.taken, |d.asked|, i);
    assert OddNext(d, j, c);
  }

  lemma SlotsAhead(taken: nat, posted: nat, i: nat)
    requires Slot(taken) != Slot(posted)
    ensures var lag := (Slot(posted) - Slot(taken)) % RING_N;
            0 < lag < RING_N && Slot(taken + i) == Ahead(Slot(taken), i) == Slot(posted + RING_N - lag + i)
  {
    hide Slot;
    var lag := (Slot(posted) - Slot(taken)) % RING_N;
    Back(taken, posted, lag);
    SlotPlus(taken, i);
    SlotPlus(posted + RING_N - lag, i);
  }

  lemma SlotPlus(k: nat, i: nat)
    ensures Slot(k + i) == Ahead(Slot(k), i)
  {
    var at := Slot(k) + i;
    ModIs(k + i, RING_N, k / RING_N + at / RING_N, at % RING_N);
  }

  /** Below 32, a slot is its number or 16 less. */
  lemma SlotBelow32(k: nat)
    requires k < 2 * RING_N
    ensures Slot(k) == if k < RING_N then k else k - RING_N
  {
  }

  lemma Back(taken: nat, posted: nat, lag: nat)
    requires Slot(taken) != Slot(posted) && lag == (Slot(posted) - Slot(taken)) % RING_N
    ensures 0 < lag < RING_N && Slot(posted + RING_N - lag) == Slot(taken)
  {
    var p, t := Slot(posted), Slot(taken);
    hide Slot;
    SlotPlus(posted, RING_N - lag);
    SlotBelow32(p + RING_N - lag);
    assert lag == if p >= t then p - t else p - t + RING_N;
  }

  lemma NoneLeft(d: CEDiag)
    ensures !Mistimed(d, 0)
  {
  }

  /**
   Walks the interconnect state, writes the five areas and sets the done bit last. With the engine
   idle and the areas apart it publishes last unless the window is behind: however any operation
   fails and whatever a timed-out transfer still does afterwards. Out of step but not behind, or
   mistimed with the engine still at work, it fails among its first four reads and touches nothing.
   From any window, it succeeds exactly if all eleven transfers do (`outs` is how each ended), and
   otherwise stops at the first that does not or, in step, at a null pointer.
   */
  method Configure(d: CEDiag) returns (ok: bool, ghost outs: seq<Outcome>)
    requires d.Valid()
    modifies d, d.hw, d.srcDesc, d.dstDesc
    ensures d.Valid()
    ensures |d.asked| == |old(d.asked)| + |outs| && (ok <==> Clean(outs) && |outs| == 11)
    ensures !ok ==> LastWrong(outs) || (Clean(outs) && 0 < |outs| < 4)
    ensures !ok && Clean(outs) && old(d.InStep()) && Disjoint(Areas(old(d.hw.bus), d.core)) ==>
              NullPointer(old(d.hw.bus), d.core, |outs|)
    ensures old(d.Drained() && !Behind(d)) && Disjoint(Areas(old(d.hw.bus), d.core)) ==>
              PublishedLast(d, old(d.hw.bus), d.hw.bus, ok)
    ensures old(d.InStep()) && Disjoint(Areas(old(d.hw.bus), d.core)) && ok ==> d.InStep()
    ensures old(Mistimed(d, 4)) || old(d.Drained() && !d.InStep() && !Behind(d)) ==>
              !ok && d.BounceOnly(old(d.hw.bus), d.hw.bus) && PublishedLast(d, old(d.hw.bus), d.hw.bus, ok)
  {
    hide CEDiag.Core, Holds, Untouched, Disjoint, WordAt, PublishedLast, Mistimed, ComesToFour;
    hide Lag, Ahead, CEDiag.BounceOnly, Areas, Clean, NullPointer;
    ghost var before, inStep := d.hw.bus, d.InStep() && Disjoint(Areas(d.hw.bus, d.core));
    if d.Drained() && !d.InStep() && !Behind(d) {
      d.Rest();
      NotBehind(d);
    }
    var pcieState, pipeCfg, svcMap, cfgFlags;
    ok, pcieState, pipeCfg, svcMap, cfgFlags, outs := Discover(d, before, inStep);
    if !ok {
      if d.BounceOnly(before, d.hw.bus) { PublishedNothing(d, before, d.hw.bus); }
      return;
    }
    NoneLeft(d);
    ok, outs := Program(d, before, pcieState, pipeCfg, svcMap, cfgFlags, inStep, outs);
  }

  // ------------------------------------------------------------------ out of step beforehand

  /** Memory that differs in the bounce buffer alone shows the same words. */
  lemma SameWord(d: CEDiag, m: Memory, m': Memory, addr: nat)
    requires d.BounceOnly(m, m') && d.Shape()
    ensures WordAt(m', d.core, addr) == WordAt(m, d.core, addr)
  {
    d.WindowApart(addr, 4);
    assert Slice(m', ToCe(d.core, addr), 4) == Slice(m, ToCe(d.core, addr), 4);
  }

  lemma SameAreas(d: CEDiag, m: Memory, m': Memory)
    requires d.BounceOnly(m, m') && d.Shape()
    ensures Areas(m', d.core) == Areas(m, d.core) && Contents(m', d.core) == Contents(m, d.core)
    ensures PcieState(m', d.core) == PcieState(m, d.core)
    ensures PipeCfg(m', d.core) == PipeCfg(m, d.core) && SvcMap(m', d.core) == SvcMap(m, d.core)
    ensures DoneAt(m', d.core) <==> DoneAt(m, d.core)
  {
    hide WordAt, ToCe, Wrap, NewFlags, NewAlloc, NewFlag2, Words, Le32;
    SameWord(d, m, m', INTERCONNECT_STATE);
    SameWord(d, m, m', Wrap(PcieState(m, d.core) + PIPE_CFG_OFF));
    SameWord(d, m, m', Wrap(PcieState(m, d.core) + SVC_MAP_OFF));
    SameWord(d, m, m', Wrap(PcieState(m, d.core) + CONFIG_FLAGS_OFF));
    SameWord(d, m, m', EARLY_ALLOC);
    SameWord(d, m, m', OPTION_FLAG2);
  }

  /** Publishing last may be told from any earlier memory that differs in the bounce buffer alone. */
  lemma PublishedSince(d: CEDiag, m: Memory, m': Memory, after: Memory, ok: bool)
    requires d.BounceOnly(m, m') && d.Shape() && PublishedLast(d, m', after, ok)
    ensures PublishedLast(d, m, after, ok)
  {
    hide Areas, Contents, DoneAt, PcieState, PipeCfg, SvcMap;
    SameAreas(d, m, m');
  }

  /** A run of reads that touched nothing has published nothing. */
  lemma PublishedNothing(d: CEDiag, m: Memory, m': Memory)
    requires d.BounceOnly(m, m') && d.Shape()
    ensures PublishedLast(d, m, m', false)
  {
    hide Areas, Contents, PcieState, PipeCfg, SvcMap;
    SameAreas(d, m, m');
  }

  /** A second transfer of another length, not yet consumed, makes the window mistimed. */
  lemma OddSecond(d: CEDiag)
    requires d.Valid() && |d.asked| == 2 && d.asked[1].len == 32 && !d.InStep() && d.ReadsOnly()
    ensures Mistimed(d, 4)
  {
    SmallSlots();
    assert Slot(1) == Slot(17) == 1;
    assert OddNext(d, 1, 17);
  }

  /** The two reads the driver starts with; it goes on whether or not they fail. */
  method Probe(d: CEDiag)
    requires d.Valid() && d.asked == []
    modifies d, d.hw, d.srcDesc, d.dstDesc
    ensures d.Valid() && d.BounceOnly(old(d.hw.bus), d.hw.bus) && (d.InStep() || Mistimed(d, 4))
    ensures d.asked == [Transfer(d.bouncePhys, ToCe(d.core, 0x40_0828), 4), Transfer(d.bouncePhys, ToCe(d.core, 0x40_0800), 32)]
  {
    hide CEDiag.Core, CEDiag.BounceOnly, CEDiag.OnlyChanged, CEDiag.Odd, ToCe;
    ghost var before := d.hw.bus;
    var ok, fwInd, out := d.ReadMem(HI_BASE + 0x28, 4);
    ghost var m := d.hw.bus;
    var dump;
    ok, dump, out := d.ReadMem(HI_BASE, 32);
    d.BounceTwice(before, m, d.hw.bus);
    if !d.InStep() { OddSecond(d); }
  }

  /**
   The driver's own use: on a fresh window it first reads the firmware indicator and 32 bytes of
   the host-interest area. Even so it publishes last: if either read leaves the window out of
   step, their unequal lengths make the configuration fail before its first write.
   */
  method ProbeThenConfigure(d: CEDiag) returns (ok: bool, ghost outs: seq<Outcome>)
    requires d.Valid() && d.asked == []
    modifies d, d.hw, d.srcDesc, d.dstDesc
    ensures d.Valid() && (Disjoint(Areas(old(d.hw.bus), d.core)) ==> PublishedLast(d, old(d.hw.bus), d.hw.bus, ok))
    ensures ok <==> Clean(outs) && |outs| == 11
  {
    hide Areas, Disjoint, PublishedLast, CEDiag.BounceOnly, CEDiag.Core, CEDiag.InStep, CEDiag.Drained, Mistimed, Behind;
    ghost var before := d.hw.bus;
    Probe(d);
    InStepIsSafe(d);
    ghost var m, inStep := d.hw.bus, d.InStep();
    SameAreas(d, before, m);
    ok, outs := Configure(d);
    d.BounceTwice(before, m, d.hw.bus);
    if !inStep {
      PublishedNothing(d, before, d.hw.bus);
    } else if Disjoint(Areas(before, d.core)) {
      PublishedSince(d, before, m, d.hw.bus, ok);
    }
  }

  /** The word in the bounce buffer. */
  ghost function Held(d: CEDiag, m: Memory): u32 {
    Get32(Slice(m, d.bouncePhys, 4), 0)
  }

  /** Behind, with the next few lengths landed. */
  ghost predicate Shown(d: CEDiag, left: nat)
    reads d, d.hw, d.srcDesc, d.dstDesc
    ensures Shown(d, left) ==> d.Valid()
  {
    && d.Valid() && d.Drained() && d.dstSw != d.dstWrite
    && forall i: nat | i < left && i < Lag(d) :: d.dstDesc[Ahead(d.dstSw, i)].nbytes == 4
  }

  /** The engine lands what is still to land. */
  method LandNext(d: CEDiag)
    requires Behind(d)
    modifies d.hw`unlanded, d.dstDesc
    ensures Shown(d, 4)
  {
    hide CEDiag.Core, Ahead, CEDiag.Odd;
    for i := 0 to 4
      invariant d.Valid() && d.Drained()
      invariant forall k: nat | k < i && k < Lag(d) :: d.dstDesc[Ahead(d.dstSw, k)].nbytes == 4
      invariant forall k: nat | k < 4 && k < Lag(d) :: ComesToFour(d, Ahead(d.dstSw, k))
    {
      if i < Lag(d) && d.dstDesc[Ahead(d.dstSw, i)].nbytes != 4 {
        ghost var lens := d.dstDesc[..];
        d.EngineLand(Ahead(d.dstSw, i));
        assert forall s: nat | s < RING_N :: d.dstDesc[s] == d.dstDesc[..][s];
        assert forall s: nat | s < RING_N && s != Ahead(d.dstSw, i) :: d.dstDesc[..][s] == lens[s];
      }
    }
  }

  /** A word read while behind is the one asked for before; the one asked for now comes next. */
  method ReadBehind(d: CEDiag, addr: nat, ghost left: nat) returns (ok: bool, w: u32)
    requires left > 0 && Shown(d, left)
    modifies d, d.hw, d.srcDesc, d.dstDesc
    ensures Shown(d, left - 1) && ok
    ensures w == Held(d, old(d.hw.bus)) && Held(d, d.hw.bus) == WordAt(old(d.hw.bus), d.core, addr)
    ensures d.BounceOnly(old(d.hw.bus), d.hw.bus)
  {
    hide CEDiag.Core, ToCe, Get32, Ahead;
    ghost var m, sw, wr, lens := d.hw.bus, d.dstSw, d.dstWrite, d.dstDesc[..];
    LagMoves(sw, wr);
    assert lens[Ahead(sw, 0)].nbytes == 4;
    var data;
    d.WindowApart(addr, 4);
    ok, data := d.LaggingRead(addr, 4);
    w := Get32(data, 0);
    assert Slice(d.hw.bus, d.bouncePhys, 4) == Slice(m, ToCe(d.core, addr), 4);
    forall i: nat | i < left - 1 && i < Lag(d) ensures d.dstDesc[Ahead(d.dstSw, i)].nbytes == 4 {
      LagSlot(sw, wr, i);
      assert d.dstDesc[Ahead(d.dstSw, i)] == d.dstDesc[..][Ahead(sw, i + 1)];
    }
  }

  /** Where the indices stand after one more transfer on either side. */
  lemma LagMoves(sw: nat, wr: nat)
    requires sw < RING_N && wr < RING_N && sw != wr
    ensures Ahead(sw, 0) == sw
    ensures ((wr + 1) % RING_N - (sw + 1) % RING_N) % RING_N == (wr - sw) % RING_N > 0
    ensures (wr + 1) % RING_N != (sw + 1) % RING_N
  {
  }

  lemma LagSlot(sw: nat, wr: nat, i: nat)
    requires sw < RING_N && wr < RING_N && sw != wr && i < (wr - sw) % RING_N
    ensures Ahead((sw + 1) % RING_N, i) == Ahead(sw, i + 1)
    ensures i + 1 < (wr - sw) % RING_N ==> Ahead(sw, i + 1) != wr
    ensures i + 1 == (wr - sw) % RING_N ==> Ahead(sw, i + 1) == wr
  {
    hide Slot;
    SlotPlus(sw + 1, i);
    SlotBelow32(sw + 1);
    SlotBelow32(sw + (i + 1));
  }

  const STALE_STATE: nat := OPTION_FLAG2 - CONFIG_FLAGS_OFF

  /** The bounce buffer's word is taken for the interconnect state, and what follows suits. */
  ghost predicate Spoils(d: CEDiag, m: Memory) {
    && Held(d, m) == STALE_STATE && WordAt(m, d.core, INTERCONNECT_STATE) != 0
    && WordAt(m, d.core, STALE_STATE + PIPE_CFG_OFF) != 0 && Bit(WordAt(m, d.core, STALE_STATE + SVC_MAP_OFF), DONE_BIT)
    && !DoneAt(m, d.core) && !Holds(m, m, d.core, 4) && Disjoint(Areas(m, d.core))
  }

  /**
   For `Configure` promises no more than it can: from any window that is behind there is such a
   memory, and on every such memory its own first five transfers can go as follows. They take the
   bounce buffer's word for the interconnect state and whatever follows it for the rest, all four
   reads succeeding, and write the stale flags word over the option flags: the done bit is set, and
   nothing else of the configuration is in memory.
   */
  method PublishedWithoutTables(d: CEDiag) returns (ok: bool)
    requires Behind(d) && Spoils(d, d.hw.bus)
    modifies d, d.hw, d.srcDesc, d.dstDesc
    ensures d.Valid() && DoneAt(d.hw.bus, d.core) && d.OnlyChanged(old(d.hw.bus), d.hw.bus, OPTION_FLAG2, 4)
    ensures !Holds(old(d.hw.bus), d.hw.bus, d.core, 4) && !PublishedLast(d, old(d.hw.bus), d.hw.bus, ok)
  {
    hide CEDiag.Core, CEDiag.OnlyChanged, CEDiag.BounceOnly, Behind, Shown, Held, WordAt, ToCe, Bit, NewFlags, Wrap;
    hide Holds, Areas, Disjoint, Untouched;
    ghost var m := d.hw.bus;
    d.BounceTwice(m, m, m);
    WrapAdd(STALE_STATE + PIPE_CFG_OFF, 0);
    WrapAdd(STALE_STATE + SVC_MAP_OFF, 0);
    WrapAdd(STALE_STATE + CONFIG_FLAGS_OFF, 0);
    var pcieState, pipeCfg, svcMap, cfgFlags;
    LandNext(d);
    ok, pcieState := ReadBehind(d, INTERCONNECT_STATE, 4);
    ghost var m1 := d.hw.bus;
    SameWord(d, m, m1, STALE_STATE + PIPE_CFG_OFF);
    ok, pipeCfg := ReadBehind(d, Wrap(pcieState + PIPE_CFG_OFF), 3);
    d.BounceTwice(m, m1, d.hw.bus);
    ghost var m2 := d.hw.bus;
    SameWord(d, m, m2, STALE_STATE + SVC_MAP_OFF);
    ok, svcMap := ReadBehind(d, Wrap(pcieState + SVC_MAP_OFF), 2);
    d.BounceTwice(m, m2, d.hw.bus);
    ghost var m3 := d.hw.bus;
    ok, cfgFlags := ReadBehind(d, Wrap(pcieState + CONFIG_FLAGS_OFF), 1);
    d.BounceTwice(m, m3, d.hw.bus);
    assert pcieState != 0 && pipeCfg != 0 && svcMap != 0;
    ok := WriteBehind(d, Wrap(pcieState + CONFIG_FLAGS_OFF), NewFlags(cfgFlags), m);
    FlagsBits(cfgFlags, DONE_BIT);
    Spoiled(d, m, d.hw.bus);
  }

  method WriteBehind(d: CEDiag, addr: nat, w: u32, ghost before: Memory) returns (ok: bool)
    requires Shown(d, 0) && d.BounceOnly(before, d.hw.bus)
    modifies d, d.hw, d.srcDesc, d.dstDesc
    ensures d.Valid() && WordAt(d.hw.bus, d.core, addr) == w && d.OnlyChanged(before, d.hw.bus, addr, 4)
  {
    hide CEDiag.Core, ToCe, Get32, Le32;
    ok := d.LaggingWrite(addr, Le32(w));
    assert Slice(d.hw.bus, ToCe(d.core, addr), 4) == Le32(w);
  }

  /** A change of the option flags alone leaves the other four areas as they were. */
  lemma Spoiled(d: CEDiag, m: Memory, m': Memory)
    requires d.Shape() && d.OnlyChanged(m, m', OPTION_FLAG2, 4) && Disjoint(Areas(m, d.core)) && !Holds(m, m, d.core, 4)
    ensures !Holds(m, m', d.core, 4)
  {
    hide WordAt, ToCe, Contents;
    var areas := Areas(m, d.core);
    LastArea(m, d.core);
    forall i | 0 <= i < 4 ensures Slice(m', areas[i].0, areas[i].1) == Slice(m, areas[i].0, areas[i].1) {
      AreaOffBounce(d, m, i);
      assert areas[i].0 + areas[i].1 <= areas[4].0 || areas[4].0 + areas[4].1 <= areas[i].0;
    }
  }

  /** Memory with one word put in. */
  function Put(m: Memory, at: nat, w: u32): Memory {
    (a: nat) => if at <= a < at + 4 then Le32(w)[a - at] else m(a)
  }

  lemma PutReads(m: Memory, at: nat, w: u32)
    ensures Get32(Slice(Put(m, at, w), at, 4), 0) == w
    ensures forall b: nat {:trigger Slice(Put(m, at, w), b, 4)} | b + 4 <= at || at + 4 <= b ::
              Slice(Put(m, at, w), b, 4) == Slice(m, b, 4)
  {
    hide Le32, Get32;
    assert Slice(Put(m, at, w), at, 4) == Le32(w);
    Get32OfLe32(Le32(w), 0, w);
  }

  /** There is such a memory wherever the window and the bounce buffer lie. */
  lemma SpoilingMemory(d: CEDiag) returns (m: Memory)
    requires d.Shape()
    ensures Spoils(d, m) && WordAt(m, d.core, 0x40_5000) == STALE_STATE
  {
    hide Get32, Le32, Holds, Bit, Slice, Put, Areas, Contents;
    // the real pointers, what a stale state would lead to, and the bounce buffer's word
    var base, at := d.core * 0x20_0000 + MIB, d.bouncePhys;
    var m0 := Put((_: nat) => 0, base + 0x5000, STALE_STATE);
    var m1 := Put(m0, base + 0x8f8, 0x40_2000);
    var m2 := Put(m1, base + 0x2000, 0x40_3000);
    var m3 := Put(m2, base + 0x2004, 0x40_4000);
    var m4 := Put(m3, base + 0x8ac, 1);
    var m5 := Put(m4, base + 0x8b0, 16);
    m := Put(m5, at, STALE_STATE);
    PutReads((_: nat) => 0, base + 0x5000, STALE_STATE);
    PutReads(m0, base + 0x8f8, 0x40_2000);
    PutReads(m1, base + 0x2000, 0x40_3000);
    PutReads(m2, base + 0x2004, 0x40_4000);
    PutReads(m3, base + 0x8ac, 1);
    PutReads(m4, base + 0x8b0, 16);
    PutReads(m5, at, STALE_STATE);
    ZeroWord(base + 0x8cc);
    ZeroWord(base + 0x900);
    OnlyBit4(4);
    BitOfZero(4);
    assert PcieState(m, d.core) == 0x40_2000;
    assert PipeCfg(m, d.core) == 0x40_3000;
    assert SvcMap(m, d.core) == 0x40_4000;
    SpreadOut(m, d.core);
    NotAllocated(m, d.core);
  }

  /** Only the bounce buffer's own word matters to it of what the buffer holds. */
  lemma SpoilsStill(d: CEDiag, m: Memory, m': Memory)
    requires d.Shape() && d.BounceOnly(m, m') && Spoils(d, m) && Held(d, m') == STALE_STATE
    ensures Spoils(d, m')
  {
    hide WordAt, Held, Areas, Contents, Disjoint, Bit, PcieState, PipeCfg, SvcMap;
    SameAreas(d, m, m');
    SameWord(d, m, m', INTERCONNECT_STATE);
    SameWord(d, m, m', STALE_STATE + PIPE_CFG_OFF);
    SameWord(d, m, m', STALE_STATE + SVC_MAP_OFF);
    forall i | 0 <= i < 4
      ensures Slice(m', Areas(m, d.core)[i].0, Areas(m, d.core)[i].1) == Slice(m, Areas(m, d.core)[i].0, Areas(m, d.core)[i].1)
    {
      AreaOffBounce(d, m, i);
    }
  }

  /**
   How little it takes to be behind: from any window in step, a fresh one included, one read of one
   word whose polls run out. If the word is the stale state and the memory spoils, it goes wrong.
   */
  method LateReadThenConfigure(d: CEDiag, addr: nat) returns (ok: bool)
    requires d.Valid() && d.InStep() && Spoils(d, d.hw.bus) && WordAt(d.hw.bus, d.core, addr) == STALE_STATE
    modifies d, d.hw, d.srcDesc, d.dstDesc
    ensures d.Valid() && !DoneAt(old(d.hw.bus), d.core) && DoneAt(d.hw.bus, d.core)
    ensures !Holds(old(d.hw.bus), d.hw.bus, d.core, 4)
  {
    hide CEDiag.Core, PublishedLast, Holds, DoneAt, WordAt, Held, Bit, Disjoint, Areas, Behind, CEDiag.BounceOnly, CEDiag.OnlyChanged;
    ghost var m := d.hw.bus;
    GoBehind(d, addr);
    ghost var m1 := d.hw.bus;
    SpoilsStill(d, m, m1);
    ok := PublishedWithoutTables(d);
    HoldsSince(d, m, m1, d.hw.bus);
  }

  lemma HoldsSince(d: CEDiag, m: Memory, m': Memory, after: Memory)
    requires d.BounceOnly(m, m') && d.Shape()
    ensures Holds(m, after, d.core, 4) <==> Holds(m', after, d.core, 4)
  {
    hide Areas, Contents;
    SameAreas(d, m, m');
  }

  /** One late read of a word, and the window is behind, its bounce buffer holding that word. */
  method GoBehind(d: CEDiag, addr: nat)
    requires d.Valid() && d.InStep()
    modifies d, d.hw, d.srcDesc, d.dstDesc
    ensures Behind(d) && d.BounceOnly(old(d.hw.bus), d.hw.bus) && Held(d, d.hw.bus) == WordAt(old(d.hw.bus), d.core, addr)
  {
    hide CEDiag.Core, ToCe, Get32;
    ghost var sw, m := d.dstSw, d.hw.bus;
    d.LateRead(addr, 4);
    assert d.dstDesc[sw] == d.dstDesc[..][sw];
    assert Slice(d.hw.bus, d.bouncePhys, 4) == Slice(m, ToCe(d.core, addr), 4);
  }

  lemma SpreadOut(m: Memory, core: nat)
    requires PcieState(m, core) == 0x40_2000 && PipeCfg(m, core) == 0x40_3000 && SvcMap(m, core) == 0x40_4000
    ensures Disjoint(Areas(m, core))
  {
    hide PcieState, PipeCfg, SvcMap;
  }

  lemma ZeroWord(at: nat)
    ensures Get32(Slice((_: nat) => 0, at, 4), 0) == 0
  {
  }

  lemma NotAllocated(m: Memory, core: nat)
    requires WordAt(m, core, EARLY_ALLOC) == 0
    ensures !Holds(m, m, core, 4)
  {
    hide NewAlloc, Words, Bit;
    if Holds(m, m, core, 4) {
      assert Slice(m, Areas(m, core)[3].0, Areas(m, core)[3].1) == Contents(m, core)[3];
      assert Slice(m, ToCe(core, EARLY_ALLOC), 4) == Le32(NewAlloc(0));
      AllocDiffers();
    }
  }

  lemma AllocDiffers()
    ensures Get32(Le32(NewAlloc(0)), 0) != 0
  {
    Get32OfLe32(Le32(NewAlloc(0)), 0, NewAlloc(0));
    AllocBits(0, 0);
  }

  /** Bits of the three read-modify-write words: what is asked changes, the rest is kept. */
  lemma FlagsBits(w: u32, i: nat)
    ensures Bit(NewFlags(w), i) <==> Bit(w, i) && i != 0
  {
    BitOfAndNot(w, ENABLE_L1, i);
    if i > 0 { BitOfZero(i - 1); }
  }

  lemma AllocBits(w: u32, i: nat)
    ensures Bit(NewAlloc(w), i) <==> Bit(w, i) || Bit(0x6d8a_0000, i) || Bit(9, i)
  {
    BitOfOr(Or(w, ALLOC_MAGIC), ALLOC_BANKS, i);
    BitOfOr(w, ALLOC_MAGIC, i);
  }

  lemma Flag2Bits(w: u32, i: nat)
    ensures Bit(NewFlag2(w), i) <==> Bit(w, i) || i == DONE_BIT
  {
    BitOfOr(w, EARLY_CFG_DONE, i);
    OnlyBit4(i);
  }

  lemma OnlyBit4(i: nat)
    ensures Bit(EARLY_CFG_DONE, i) <==> i == DONE_BIT
  {
    assert Bit(16, 4) by { assert Bit(16, 4) == Bit(8, 3) == Bit(4, 2) == Bit(2, 1) == Bit(1, 0); }
    if i > 4 {
      BitOfZero(i - 5);
      assert Bit(16, i) == Bit(8, i - 1) == Bit(4, i - 2) == Bit(2, i - 3) == Bit(1, i - 4) == Bit(0, i - 5);
    } else if 0 < i < 4 {
      assert !Bit(8, 0) && !Bit(4, 0) && !Bit(2, 0);
      assert Bit(16, i) == Bit(8, i - 1);
    }
  }

  /** Once published, the target finds both tables, entry by entry, where its own pointers say. */
  lemma PublishedTables(before: Memory, m: Memory, core: nat, k: nat)
    requires Holds(before, m, core, 3)
    ensures k < 7 ==> PipeAt(Slice(m, ToCe(core, PipeCfg(before, core)), PIPE_BYTES), k) == PIPES[k]
    ensures k < 17 ==> RouteAt(Slice(m, ToCe(core, SvcMap(before, core)), SVC_BYTES), k) == ROUTES[k]
  {
    hide WordAt, ToCe, Words, PipeWords, RouteWords, PipeAt, RouteAt, NewFlags, NewAlloc, NewFlag2, Le32, Wrap;
    var areas, contents := Areas(before, core), Contents(before, core);
    assert Slice(m, areas[1].0, areas[1].1) == contents[1] && Slice(m, areas[2].0, areas[2].1) == contents[2];
    if k < 7 { PipesRead(PIPES, k); }
    if k < 17 { RoutesRead(ROUTES, k); }
  }

  /** A successful configuration is published. */
  lemma SuccessIsDone(before: Memory, m: Memory, core: nat)
    requires Holds(before, m, core, 5)
    ensures DoneAt(m, core)
  {
    hide Areas, Words, NewFlag2, NewAlloc, NewFlags, Wrap;
    var w := WordAt(before, core, OPTION_FLAG2);
    assert Slice(m, Areas(before, core)[4].0, Areas(before, core)[4].1) == Contents(before, core)[4];
    LastArea(before, core);
    Get32OfLe32(Slice(m, ToCe(core, OPTION_FLAG2), 4), 0, NewFlag2(w));
    Flag2Bits(w, DONE_BIT);
  }

  lemma LastArea(before: Memory, core: nat)
    ensures Areas(before, core)[4] == (ToCe(core, OPTION_FLAG2), 4)
    ensures Contents(before, core)[4] == Le32(NewFlag2(WordAt(before, core, OPTION_FLAG2)))
  {
  }
}
