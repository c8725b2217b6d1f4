/** The boot monitor: chunked memory writes, the LZ stream, and request/response exchanges. */
module Bmi {
  import opened Bytes
  import opened Common
  import opened Rings
  import opened CopyPair

  const DONE: u32 := 1
  const READ_MEMORY: u32 := 2
  const WRITE_MEMORY: u32 := 3
  const LZ_STREAM_START: u32 := 13
  const LZ_DATA: u32 := 14
  const MAX_DATA: nat := 256
  const WRITE_HDR: nat := 12
  const WRITE_CAP: nat := MAX_DATA - WRITE_HDR
  const LZ_HDR: nat := 8
  const LZ_CAP: nat := MAX_DATA - LZ_HDR
  const WORD_WRAP: nat := 0x1_0000_0000

  // ------------------------------------------------------------------------ memory writes

  function WriteHeader(addr: nat, padded: nat): (h: seq<byte>)
    requires padded <= WRITE_CAP
    ensures |h| == WRITE_HDR
  {
    Le32(WRITE_MEMORY) + Le32(Wrap(addr)) + Le32(padded)
  }

  /** A frame that writes `chunk`, padded to whole words with whatever bytes. */
  predicate IsChunk(f: seq<byte>, addr: nat, chunk: seq<byte>) {
    && |chunk| <= WRITE_CAP && RoundUp4(|chunk|) <= WRITE_CAP
    && |f| == WRITE_HDR + RoundUp4(|chunk|)
    && f[..WRITE_HDR] == WriteHeader(addr, RoundUp4(|chunk|))
    && f[WRITE_HDR..WRITE_HDR + |chunk|] == chunk
  }

  /** How much of n bytes the first k chunks cover. */
  function Covered(n: nat, k: nat): (c: nat)
    ensures c <= n
  {
    if k * WRITE_CAP < n then k * WRITE_CAP else n
  }

  /** The k-th chunk of a buffer. */
  function ChunkAt(data: seq<byte>, k: nat): seq<byte> {
    assert Covered(|data|, k) <= Covered(|data|, k + 1);
    data[Covered(|data|, k)..Covered(|data|, k + 1)]
  }

  /** `frames` write the first chunks of `data`, one each, in order. */
  predicate WriteRun(addr: nat, data: seq<byte>, frames: seq<seq<byte>>) {
    forall k | 0 <= k < |frames| :: k * WRITE_CAP < |data| && IsChunk(frames[k], addr + k * WRITE_CAP, ChunkAt(data, k))
  }

  /** What the target does with a frame. */
  function Apply(m: Memory, f: seq<byte>): Memory {
    if |f| >= WRITE_HDR && Get32(f, 0) == 3 && WRITE_HDR + Get32(f, 8) <= |f|
    then Patch(m, Get32(f, 4), f[WRITE_HDR..WRITE_HDR + Get32(f, 8)])
    else m
  }

  function Patch(m: Memory, addr: nat, data: seq<byte>): Memory {
    (a: nat) => if addr <= a < addr + |data| then data[a - addr] else m(a)
  }

  function Replay(m: Memory, frames: seq<seq<byte>>): Memory {
    if frames == [] then m else Apply(Replay(m, frames[..|frames| - 1]), frames[|frames| - 1])
  }

  lemma HeaderReads(f: seq<byte>, addr: nat, padded: nat)
    requires addr < WORD_WRAP && padded <= WRITE_CAP && |f| >= WRITE_HDR && f[..WRITE_HDR] == WriteHeader(addr, padded)
    ensures Get32(f, 0) == WRITE_MEMORY && Get32(f, 4) == addr && Get32(f, 8) == padded
  {
    hide Le32, Get32, Wrap;
    WrapAdd(addr, 0);
    var h := f[..WRITE_HDR];
    assert f[0..4] == h[0..4] == Le32(WRITE_MEMORY);
    assert f[4..8] == h[4..8] == Le32(addr);
    assert f[8..12] == h[8..12] == Le32(padded);
    Get32OfLe32(f, 0, WRITE_MEMORY);
    Get32OfLe32(f, 4, addr);
    Get32OfLe32(f, 8, padded);
  }

  /** The bytes lie at their address; nothing changed outside them rounded up to whole words. */
  ghost predicate Written(m: Memory, m': Memory, addr: nat, data: seq<byte>) {
    forall a: nat {:trigger m'(a)} ::
      && (addr <= a < addr + |data| ==> m'(a) == data[a - addr])
      && (a < addr || addr + RoundUp4(|data|) <= a ==> m'(a) == m(a))
  }

  lemma WrittenTwice(m: Memory, m1: Memory, m2: Memory, addr: nat, first: seq<byte>, second: seq<byte>)
    requires Written(m, m1, addr, first) && |first| % 4 == 0 && Written(m1, m2, addr + |first|, second)
    ensures Written(m, m2, addr, first + second)
  {
    hide RoundUp4;
    RoundUpSplit(|first|, |second|);
    forall a: nat
      ensures addr <= a < addr + |first + second| ==> m2(a) == (first + second)[a - addr]
      ensures a < addr || addr + RoundUp4(|first + second|) <= a ==> m2(a) == m(a)
    {
      assert m1(a) == m1(a) && m2(a) == m2(a);
    }
  }

  /** Replaying one chunk. */
  lemma ApplyChunk(m: Memory, f: seq<byte>, addr: nat, chunk: seq<byte>)
    requires IsChunk(f, addr, chunk) && addr < WORD_WRAP
    ensures Written(m, Apply(m, f), addr, chunk)
  {
    HeaderReads(f, addr, RoundUp4(|chunk|));
    var n := |chunk|;
    forall a: nat | addr <= a < addr + n ensures Apply(m, f)(a) == chunk[a - addr] {
      assert f[WRITE_HDR..WRITE_HDR + n][a - addr] == f[WRITE_HDR + (a - addr)];
    }
  }

  /**
   Meaning of a write, complete or cut short: the buffer's first chunks lie at its address, and
   nothing is touched outside those chunks rounded up to whole words.
   */
  lemma {:induction false} WriteMeans(m: Memory, addr: nat, data: seq<byte>, frames: seq<seq<byte>>)
    requires WriteRun(addr, data, frames) && addr + |data| <= WORD_WRAP
    ensures Written(m, Replay(m, frames), addr, data[..Covered(|data|, |frames|)])
    decreases |frames|
  {
    hide Apply, Written, IsChunk, ChunkAt, Covered, RoundUp4;
    if frames == [] {
      NothingWritten(m, addr, data);
    } else {
      var k := |frames| - 1;
      var front := frames[..k];
      WriteMeans(m, addr, data, front);
      assert IsChunk(frames[k], addr + k * WRITE_CAP, ChunkAt(data, k));
      ApplyChunk(Replay(m, front), frames[k], addr + k * WRITE_CAP, ChunkAt(data, k));
      CoverNext(data, k);
      WrittenTwice(m, Replay(m, front), Replay(m, frames), addr, data[..k * WRITE_CAP], ChunkAt(data, k));
    }
  }

  lemma NothingWritten(m: Memory, addr: nat, data: seq<byte>)
    ensures Covered(|data|, 0) == 0 && Written(m, m, addr, data[..Covered(|data|, 0)])
  {
  }

  lemma CoverNext(data: seq<byte>, k: nat)
    requires k * WRITE_CAP < |data|
    ensures k * WRITE_CAP % 4 == 0 && Covered(|data|, k) == k * WRITE_CAP && Covered(|data|, k + 1) <= |data|
    ensures Covered(|data|, k + 1) == k * WRITE_CAP + if |data| - k * WRITE_CAP < WRITE_CAP then |data| - k * WRITE_CAP else WRITE_CAP
    ensures data[..k * WRITE_CAP] + ChunkAt(data, k) == data[..Covered(|data|, k + 1)]
  {
  }

  /** Every frame is at most 256 bytes and whole words; only the chunk that ends the buffer is short. */
  lemma WriteFrameSizes(addr: nat, data: seq<byte>, frames: seq<seq<byte>>, k: nat)
    requires WriteRun(addr, data, frames) && k < |frames|
    ensures WRITE_HDR < |frames[k]| <= MAX_DATA && |frames[k]| % 4 == 0
    ensures (k + 1) * WRITE_CAP <= |data| ==> |frames[k]| == MAX_DATA
  {
    assert IsChunk(frames[k], addr + k * WRITE_CAP, ChunkAt(data, k));
  }

  // --------------------------------------------------------------------------- LZ stream

  function StartFrame(addr: u32): (f: seq<byte>)
    ensures |f| == LZ_HDR
  {
    Le32(LZ_STREAM_START) + Le32(addr)
  }

  function DataFrame(p: seq<byte>): seq<byte>
    requires |p| <= LZ_CAP
  {
    Le32(LZ_DATA) + Le32(|p|) + p
  }

  /** The payload of a data frame, as the target reads it. */
  function DataOf(f: seq<byte>): seq<byte> {
    if |f| >= LZ_HDR && Get32(f, 0) == 14 && LZ_HDR + Get32(f, 4) <= |f| then f[LZ_HDR..LZ_HDR + Get32(f, 4)] else []
  }

  /** What the target's decompressor is fed. */
  function StreamOf(frames: seq<seq<byte>>): seq<byte> {
    if frames == [] then [] else StreamOf(frames[..|frames| - 1]) + DataOf(frames[|frames| - 1])
  }

  lemma DataFrameReads(p: seq<byte>)
    requires |p| <= LZ_CAP
    ensures DataOf(DataFrame(p)) == p
  {
    hide Le32;
    var f := DataFrame(p);
    assert f[0..4] == Le32(LZ_DATA) && f[4..8] == Le32(|p|);
    Get32OfLe32(f, 0, LZ_DATA);
    Get32OfLe32(f, 4, |p|);
    assert f[LZ_HDR..] == p;
  }

  lemma StreamGrows(frames: seq<seq<byte>>, p: seq<byte>)
    requires |p| <= LZ_CAP
    ensures StreamOf(frames + [DataFrame(p)]) == StreamOf(frames) + p
  {
    DataFrameReads(p);
    assert (frames + [DataFrame(p)])[..|frames|] == frames;
  }

  /** A data frame of a positive whole number of words, within the cap. */
  predicate GoodData(f: seq<byte>) {
    LZ_HDR < |f| <= MAX_DATA && |f| % 4 == 0 && |DataOf(f)| == |f| - LZ_HDR && Get32(f, 0) == LZ_DATA
  }

  predicate AllGood(frames: seq<seq<byte>>) {
    forall f | f in frames :: GoodData(f)
  }

  lemma DataFrameIsGood(p: seq<byte>)
    requires 0 < |p| <= LZ_CAP && |p| % 4 == 0
    ensures GoodData(DataFrame(p))
  {
    DataFrameReads(p);
    assert DataFrame(p)[0..4] == Le32(LZ_DATA);
    Get32OfLe32(DataFrame(p), 0, LZ_DATA);
  }

  /** One stream into the target's decompressor: where its output goes, and what it was fed. */
  datatype Stream = Stream(addr: nat, fed: seq<byte>)

  /** What the target does with a frame: a start opens a stream, data feeds the one opened last. */
  function Feed(streams: seq<Stream>, f: seq<byte>): seq<Stream> {
    if |f| >= LZ_HDR && Get32(f, 0) == 13 then streams + [Stream(Get32(f, 4), [])]
    else if streams == [] then []
    else
      var last := streams[|streams| - 1];
      streams[..|streams| - 1] + [last.(fed := last.fed + DataOf(f))]
  }

  function Streams(frames: seq<seq<byte>>): seq<Stream> {
    if frames == [] then [] else Feed(Streams(frames[..|frames| - 1]), frames[|frames| - 1])
  }

  lemma StartFeeds(frames: seq<seq<byte>>, addr: u32)
    ensures Streams(frames + [StartFrame(addr)]) == Streams(frames) + [Stream(addr, [])]
  {
    hide Get32, Le32;
    var f := StartFrame(addr);
    assert f[0..4] == Le32(LZ_STREAM_START) && f[4..8] == Le32(addr);
    Get32OfLe32(f, 0, LZ_STREAM_START);
    Get32OfLe32(f, 4, addr);
    assert (frames + [f])[..|frames|] == frames;
  }

  /** Whatever good data follows a start is one stream to its address. */
  lemma {:induction false} DataFeeds(addr: u32, frames: seq<seq<byte>>)
    requires AllGood(frames)
    ensures Streams([StartFrame(addr)] + frames) == [Stream(addr, StreamOf(frames))]
  {
    hide StartFrame, DataOf, Get32;
    if frames == [] {
      StartFeeds([], addr);
      assert [] + [StartFrame(addr)] == [StartFrame(addr)] + [];
    } else {
      var n := |frames| - 1;
      DataFeeds(addr, frames[..n]);
      var all := [StartFrame(addr)] + frames;
      assert all[..n + 1] == [StartFrame(addr)] + frames[..n] && all[n + 1] == frames[n];
      assert GoodData(frames[n]);
    }
  }

  /** The buffer with the fewest zeros that make it whole words. */
  function Padded(data: seq<byte>): seq<byte> {
    data + Zeros(RoundUp4(|data|) - |data|)
  }

  // --------------------------------------------------------------------------- the layer

  class Bmi {
    const ce: CECopyPair
    var doneSent: bool
    var lastStage: string

    ghost predicate Valid()
      reads this, ce.repr
      ensures Valid() ==> ce.Valid()
    {
      ce.Valid() && this !in ce.repr
    }

    constructor (ce: CECopyPair)
      requires ce.Valid()
      ensures Valid() && fresh(this) && this.ce == ce && !doneSent
    {
      this.ce, doneSent, lastStage := ce, false, "idle";
    }

    /**
     Writes a buffer in chunks. The frames rung are the buffer's first chunks in order: all of
     them on success; after a failure, those before it and possibly the one that failed.
     */
    method WriteMemory(addr: u32, data: seq<byte>) returns (ok: bool, ghost frames: seq<seq<byte>>)
      requires Valid()
      modifies ce.repr
      ensures Valid() && ce.src.rung == old(ce.src.rung) + frames && WriteRun(addr, data, frames)
      ensures ok <==> data != [] && Covered(|data|, |frames|) == |data| && ce.src.hw.taken == ce.src.rung
      ensures data != [] && old(ce.src.hw.taken == ce.src.rung) ==> frames != []
    {
      hide CECopyPair.Valid, DestRing.Shape, DestRing.Ready, DestRing.Remaining, IsChunk, ChunkAt, WriteRun, Wrap;
      frames := [];
      NoChunks(addr, data);
      WrapAdd(addr, 0);
      if |data| == 0 {
        return false, frames;
      }
      var payload := new byte[MAX_DATA];
      var at, to := addr, 0;
      while to < |data|
        invariant Valid() && fresh(payload) && ce.src.rung == old(ce.src.rung) + frames
        invariant WriteRun(addr, data, frames) && to == Covered(|data|, |frames|)
        invariant to < |data| ==> at == Wrap(addr + |frames| * WRITE_CAP)
        invariant to > 0 ==> frames != [] && ce.src.hw.taken == ce.src.rung
        invariant old(ce.src.hw.taken == ce.src.rung) ==> ce.src.hw.taken == ce.src.rung
      {
        var tx := if |data| - to < WRITE_CAP then |data| - to else WRITE_CAP;
        ghost var f, rang;
        ok, f, rang := SendChunk(addr, data, |frames|, at, to, tx, payload);
        if rang {
          RunAppend(addr, data, frames, f);
          frames := frames + [f];
        }
        if !ok {
          return;
        }
        WrapAdd(addr + to, tx);
        at := Wrap(at + tx);
        to := to + tx;
      }
      ok := true;
    }

    /** Fills the command buffer with the next chunk and sends it, stale bytes as padding. */
    method SendChunk(ghost addr: u32, data: seq<byte>, ghost k: nat, at: nat, to: nat, tx: nat, payload: array<byte>)
      returns (ok: bool, ghost f: seq<byte>, ghost rang: bool)
      requires Valid() && payload.Length == MAX_DATA && payload !in ce.repr
      requires to == k * WRITE_CAP < |data| && at == Wrap(addr + to)
      requires tx == if |data| - to < WRITE_CAP then |data| - to else WRITE_CAP
      modifies ce.repr, payload
      ensures Valid() && IsChunk(f, addr + k * WRITE_CAP, ChunkAt(data, k))
      ensures ce.src.rung == old(ce.src.rung) + if rang then [f] else []
      ensures ok <==> rang && ce.src.hw.taken == ce.src.rung
      ensures old(ce.src.hw.taken == ce.src.rung) ==> rang
    {
      hide CECopyPair.Valid, DestRing.Shape, DestRing.Ready, DestRing.Remaining, IsChunk, WriteHeader, Wrap;
      forall i | 0 <= i < tx { payload[i] := data[to + i]; }
      var padded := RoundUp4(tx);
      var bytes := payload[..padded];
      CoverNext(data, k);
      assert bytes[..tx] == data[to..to + tx];
      ChunkFrame(addr, data, k, bytes);
      var frame := WriteHeader(at, padded) + bytes;
      f := frame;
      ok := ce.Send(frame);
      rang := |ce.src.rung| > |old(ce.src.rung)|;
    }

    lemma NoChunks(addr: u32, data: seq<byte>)
      ensures WriteRun(addr, data, [])
    {
    }

    lemma RunAppend(addr: u32, data: seq<byte>, frames: seq<seq<byte>>, f: seq<byte>)
      requires WriteRun(addr, data, frames) && |frames| * WRITE_CAP < |data|
      requires IsChunk(f, addr + |frames| * WRITE_CAP, ChunkAt(data, |frames|))
      ensures WriteRun(addr, data, frames + [f])
    {
      hide IsChunk, ChunkAt;
    }

    /** The frame the loop builds is the next chunk. */
    lemma ChunkFrame(addr: u32, data: seq<byte>, k: nat, bytes: seq<byte>)
      requires k * WRITE_CAP < |data|
      requires var n := |ChunkAt(data, k)|; |bytes| == RoundUp4(n) && bytes[..n] == ChunkAt(data, k)
      ensures var at := addr + k * WRITE_CAP;
              |bytes| <= WRITE_CAP
              && IsChunk(WriteHeader(at, |bytes|) + bytes, at, ChunkAt(data, k))
              && WriteHeader(Wrap(at), |bytes|) == WriteHeader(at, |bytes|)
    {
      hide Le32, Wrap;
      WrapAdd(addr + k * WRITE_CAP, 0);
    }

    method SendOne(frame: seq<byte>) returns (ok: bool, ghost rang: bool)
      requires Valid()
      modifies ce.repr
      ensures Valid() && ce.src.rung == old(ce.src.rung) + if rang then [frame] else []
      ensures ok <==> rang && ce.src.hw.taken == ce.src.rung
      ensures old(ce.src.hw.taken == ce.src.rung) && 1 <= |frame| <= TX_BUF_SZ ==> rang
    {
      hide CECopyPair.Valid, DestRing.Shape, DestRing.Ready, DestRing.Remaining;
      ok := ce.Send(frame);
      rang := |ce.src.rung| > |old(ce.src.rung)|;
    }

    predicate IsWords(n: int) {
      n % 4 == 0
    }

    /** The data frames of the stream: the whole words, then the tail padded with zeros. */
    method SendStream(data: seq<byte>) returns (ok: bool, ghost frames: seq<seq<byte>>)
      requires Valid() && data != []
      modifies ce.repr
      ensures Valid() && ce.src.rung == old(ce.src.rung) + frames
      ensures StreamOf(frames) <= Padded(data) && AllGood(frames)
      ensures ok <==> StreamOf(frames) == Padded(data) && ce.src.hw.taken == ce.src.rung
    {
      hide CECopyPair.Valid, AllGood, StreamOf, DataFrame, Padded, RoundUp4, IsWords;
      var tail := |data| % 4;
      var p := |data| - tail;
      PaddedEnds(data);
      WholeWords(|data|);
      ok, frames := SendWords(data, p);
      if ok && tail != 0 {
        ok, frames := SendData(data[p..] + Zeros(4 - tail), old(ce.src.rung), frames);
      }
    }

    /** The loop over the whole words. */
    method SendWords(data: seq<byte>, whole: nat) returns (ok: bool, ghost frames: seq<seq<byte>>)
      requires Valid() && whole <= |data| && IsWords(whole)
      modifies ce.repr
      ensures Valid() && ce.src.rung == old(ce.src.rung) + frames && AllGood(frames)
      ensures exists p | 0 <= p <= whole :: StreamOf(frames) == data[..p]
      ensures ok ==> StreamOf(frames) == data[..whole]
      ensures whole > 0 ==> (ok <==> StreamOf(frames) == data[..whole] && ce.src.hw.taken == ce.src.rung)
      ensures whole == 0 ==> ok
    {
      hide CECopyPair.Valid, AllGood, StreamOf, DataFrame, Padded, RoundUp4, IsWords;
      frames := [];
      NoStream();
      var payload := new byte[MAX_DATA];
      var remaining, p := whole, 0;
      while remaining > 0
        invariant 0 <= remaining && p + remaining == whole && IsWords(remaining)
        invariant Valid() && fresh(payload) && ce.src.rung == old(ce.src.rung) + frames
        invariant StreamOf(frames) == data[..p] && AllGood(frames) && (p > 0 ==> ce.src.hw.taken == ce.src.rung)
      {
        var tx;
        ok, tx, frames := SendTurn(data, p, remaining, payload, old(ce.src.rung), frames);
        if !ok {
          return;
        }
        p := p + tx;
        remaining := remaining - tx;
      }
      ok := true;
    }

    /** One turn of the loop: the next slice, at most 248 bytes of whole words. */
    method SendTurn(data: seq<byte>, p: nat, remaining: nat, payload: array<byte>, ghost sent: seq<seq<byte>>, ghost frames: seq<seq<byte>>)
      returns (ok: bool, tx: nat, ghost frames': seq<seq<byte>>)
      requires Valid() && payload.Length == MAX_DATA && payload !in ce.repr && ce.src.rung == sent + frames
      requires 0 < remaining && p + remaining <= |data| && IsWords(remaining)
      requires StreamOf(frames) == data[..p] && AllGood(frames)
      modifies ce.repr, payload
      ensures Valid() && ce.src.rung == sent + frames' && AllGood(frames')
      ensures 0 < tx <= remaining && IsWords(remaining - tx)
      ensures StreamOf(frames') == data[..p] || StreamOf(frames') == data[..p + tx]
      ensures ok <==> StreamOf(frames') == data[..p + tx] && ce.src.hw.taken == ce.src.rung
    {
      hide CECopyPair.Valid, AllGood, StreamOf;
      tx := if remaining < LZ_CAP then remaining else LZ_CAP;
      var chunk := NextSlice(data, p, tx, payload);
      ok, frames' := SendData(chunk, sent, frames);
    }

    /** Copies the next slice into the command buffer; it extends the prefix before it. */
    method NextSlice(data: seq<byte>, p: nat, tx: nat, payload: array<byte>) returns (chunk: seq<byte>)
      requires p + tx <= |data| && tx <= payload.Length
      modifies payload
      ensures |chunk| == tx && data[..p] + chunk == data[..p + tx]
    {
      forall i | 0 <= i < tx { payload[i] := data[p + i]; }
      chunk := payload[..tx];
      assert chunk == data[p..p + tx];
    }

    lemma WholeWords(n: nat)
      ensures IsWords(n - n % 4)
    {
    }

    /** The padding is what the trailer adds to the whole words. */
    lemma PaddedEnds(data: seq<byte>)
      ensures var tail := |data| % 4;
              var p := |data| - tail;
              Padded(data) == if tail == 0 then data[..p] else data[..p] + (data[p..] + Zeros(4 - tail))
      ensures forall p | 0 <= p <= |data| :: data[..p] <= Padded(data)
    {
    }

    /** One data frame; the stream grows by its payload if it was rung. */
    method SendData(chunk: seq<byte>, ghost sent: seq<seq<byte>>, ghost frames: seq<seq<byte>>)
      returns (ok: bool, ghost frames': seq<seq<byte>>)
      requires Valid() && 0 < |chunk| <= LZ_CAP && |chunk| % 4 == 0 && AllGood(frames) && ce.src.rung == sent + frames
      modifies ce.repr
      ensures Valid() && ce.src.rung == sent + frames'
      ensures StreamOf(frames') == StreamOf(frames) + (if frames' == frames then [] else chunk)
      ensures AllGood(frames') && (ok <==> frames' != frames && ce.src.hw.taken == ce.src.rung)
    {
      hide CECopyPair.Valid, GoodData, StreamOf, DataFrame;
      StreamGrows(frames, chunk);
      DataFrameIsGood(chunk);
      ghost var rang;
      ok, rang := SendOne(DataFrame(chunk));
      frames' := if rang then frames + [DataFrame(chunk)] else frames;
    }

    lemma NoStream()
      ensures StreamOf([]) == [] && AllGood([]) && Streams([]) == []
    {
    }

    /**
     Streams a buffer to the target's decompressor: start, data, and a closing start at 0. A run
     that fails has fed it a prefix; a run that succeeds, the buffer padded to whole words. What
     the target makes of the frames is `Streams`: one stream to `addr`, closed by one to 0.
     */
    method FastDownload(addr: u32, data: seq<byte>) returns (ok: bool, ghost frames: seq<seq<byte>>)
      requires Valid()
      modifies ce.repr
      ensures Valid()
      ensures StreamOf(frames) <= Padded(data) && AllGood(frames)
      ensures || ce.src.rung == old(ce.src.rung)
              || (data != [] && ce.src.rung == old(ce.src.rung) + [StartFrame(addr)] + frames)
              || (data != [] && ce.src.rung == old(ce.src.rung) + [StartFrame(addr)] + frames + [StartFrame(0)]
                  && StreamOf(frames) == Padded(data))
      ensures ok ==> ce.src.rung == old(ce.src.rung) + [StartFrame(addr)] + frames + [StartFrame(0)]
      ensures var streams := Streams(ce.src.rung[|old(ce.src.rung)|..]);
              && (streams == [] || (exists fed :: fed <= Padded(data) && streams == [Stream(addr, fed)])
                  || streams == [Stream(addr, Padded(data)), Stream(0, [])])
              && (ok <==> streams == [Stream(addr, Padded(data)), Stream(0, [])] && ce.src.hw.taken == ce.src.rung)
      ensures data != [] && old(ce.src.hw.taken == ce.src.rung) ==> ce.src.rung != old(ce.src.rung)
    {
      hide CECopyPair.Valid, AllGood, StreamOf, StartFrame, Padded, Streams;
      frames := [];
      NoStream();
      ghost var was := ce.src.rung;
      assert ce.src.rung[|was|..] == [];
      if |data| == 0 {
        return false, frames;
      }
      ghost var rang;
      DataFeeds(addr, []);
      ok, rang := SendOne(StartFrame(addr));
      assert ce.src.rung[|was|..] == if rang then [StartFrame(addr)] + [] else [];
      if !ok {
        return;
      }
      ok, frames := SendStream(data);
      DataFeeds(addr, frames);
      assert ce.src.rung[|was|..] == [StartFrame(addr)] + frames;
      if !ok {
        return;
      }
      StartFeeds([StartFrame(addr)] + frames, 0);
      ok, rang := SendOne(StartFrame(0));
      assert ce.src.rung[|was|..] == [StartFrame(addr)] + frames + if rang then [StartFrame(0)] else [];
    }

    // ------------------------------------------------------------------ exchanges

    /**
     Posts the buffer, sends a command and takes the response. With no buffer left posted by an
     earlier timeout, the response is the target's next frame, whole up to `respLen`.
     */
    method ExchangeWait(cmd: seq<byte>, respLen: nat) returns (ok: bool, resp: seq<byte>)
      requires Valid()
      modifies this, ce.repr
      ensures Valid() && doneSent == old(doneSent)
      ensures old(doneSent) ==> !ok && ce.log == old(ce.log)
      ensures ok ==> ce.log == old(ce.log) + [Rang(cmd), Took(ce.Newest())]
      ensures ok ==> |resp| == respLen && ce.Outstanding() == old(ce.Outstanding())
      ensures ok && !ce.dst.overrun && ce.RxArmed() == 0 ==> respLen <= |ce.Newest()| && resp == ce.Newest()[..respLen]
      ensures ok && old(ce.Idle()) ==> respLen <= |ce.Newest()| && resp == ce.Newest()[..respLen] && ce.Idle()
      ensures || ce.log == old(ce.log)
              || ce.log == old(ce.log) + [Rang(cmd)]
              || ce.log == old(ce.log) + [Rang(cmd), Took(ce.Newest())]
      ensures ok <==> ce.log == old(ce.log) + [Rang(cmd), Took(ce.Newest())] && respLen <= ce.dst.rxNbytes
      ensures lastStage == if old(doneSent) then "after-done"
                           else if ok then "ok"
                           else if |ce.log| == |old(ce.log)| + 2 then "short-resp"
                           else if |ce.log| == |old(ce.log)| + 1 && ce.src.hw.taken == ce.src.rung then "recv-wait"
                           else "send"
      ensures old(!doneSent && ce.src.hw.taken == ce.src.rung) && 1 <= |cmd| <= TX_BUF_SZ ==> ce.log != old(ce.log)
    {
      hide CECopyPair.Valid, DestRing.Shape, DestRing.Ready, DestRing.Remaining;
      resp := [];
      if doneSent {
        lastStage := "after-done";
        return false, resp;
      }
      ok := PostAndSend(cmd);
      if !ok {
        return;
      }
      lastStage := "recv-wait";
      ghost var polls;
      ok, polls := ce.RecvWait(EXCHANGE_TIMEOUT_MS);
      if !ok {
        return;
      }
      lastStage := "short-resp";
      if ce.dst.rxNbytes < respLen {
        return false, resp;
      }
      ce.Interfere();
      resp := ce.dst.rx[..respLen];
      lastStage := "ok";
    }

    /** The buffer is posted before the command is rung, so the response cannot overtake it. */
    method PostAndSend(cmd: seq<byte>) returns (ok: bool)
      requires Valid()
      modifies `lastStage, ce.repr
      ensures Valid() && lastStage == "send" && ce.Outstanding() == old(ce.Outstanding()) + 1
      ensures ce.dst.overrun == (old(ce.dst.overrun) || old(ce.Outstanding()) >= RING_N)
      ensures ok <==> ce.log != old(ce.log) && ce.src.hw.taken == ce.src.rung
      ensures ce.log == old(ce.log) || ce.log == old(ce.log) + [Rang(cmd)]
      ensures old(ce.src.hw.taken == ce.src.rung) && 1 <= |cmd| <= TX_BUF_SZ ==> ce.log != old(ce.log)
    {
      hide CECopyPair.Valid, DestRing.Shape, DestRing.Ready, DestRing.Remaining;
      lastStage := "post-recv";
      ok := ce.PostRecv();
      lastStage := "send";
      ok := ce.Send(cmd);
    }

    method ReadMemory(addr: u32, len: u32) returns (ok: bool, data: seq<byte>)
      requires Valid()
      modifies this, ce.repr
      ensures Valid() && doneSent == old(doneSent)
      ensures old(doneSent) || len == 0 || len > MAX_DATA ==> !ok && ce.log == old(ce.log)
      ensures ok ==> && |data| == len
                     && ce.log == old(ce.log) + [Rang(Le32(2) + Le32(addr) + Le32(len)), Took(ce.Newest())]
      ensures !old(doneSent) && 1 <= len <= MAX_DATA ==>
                (ok <==> |ce.log| == |old(ce.log)| + 2 && len <= ce.dst.rxNbytes)
      ensures old(!doneSent && ce.src.hw.taken == ce.src.rung) && 1 <= len <= 256 ==> ce.log != old(ce.log)
      ensures ok && old(ce.Idle()) ==> data <= ce.Newest() && ce.Idle()
    {
      hide CECopyPair.Valid, Le32;
      data := [];
      if len == 0 || len > MAX_DATA {
        return false, data;
      }
      ok, data := ExchangeWait(Le32(READ_MEMORY) + Le32(addr) + Le32(len), len);
    }

    /** Ends the boot monitor: after a successful DONE every exchange is refused. */
    method Done() returns (ok: bool)
      requires Valid()
      modifies this, ce.repr
      ensures Valid() && doneSent == (old(doneSent) || ok)
      ensures ce.src.rung == old(ce.src.rung) || ce.src.rung == old(ce.src.rung) + [Le32(1)]
      ensures old(ce.src.hw.taken == ce.src.rung) ==> ce.src.rung != old(ce.src.rung)
      ensures ok <==> ce.src.rung != old(ce.src.rung) && ce.src.hw.taken == ce.src.rung
    {
      ghost var rang;
      ok, rang := SendOne(Le32(DONE));
      if ok {
        doneSent := true;
      }
    }
  }
}
