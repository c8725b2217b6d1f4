/** The scrolling log tail: a fixed buffer that summarises an unbounded log. */
module LogTail {
  import opened Bytes

  const TAIL_SZ: nat := 1536
  const LINE_SZ: nat := 256
  const NEWLINE: byte := 10
  const LINE_CAP: nat := LINE_SZ - 1
  const ROOM: nat := TAIL_SZ - 1

  /** Half of the room, less the longest line: what a drop always leaves, once the new line is in. */
  const KEPT: nat := 513

  /** The bytes of a formatted message that reach the log. */
  function Line(text: seq<byte>): (line: seq<byte>)
    ensures line <= text && |line| == if |text| <= LINE_CAP then |text| else LINE_CAP
  {
    if |text| < LINE_SZ then text else text[..LINE_CAP]
  }

  /** The first newline at or after i. */
  function NextNewline(s: seq<byte>, i: nat): (j: nat)
    requires i <= |s|
    ensures i <= j <= |s| && (j < |s| ==> s[j] == NEWLINE)
    ensures forall k | i <= k < j :: s[k] != NEWLINE
    decreases |s| - i
  {
    if i == |s| || s[i] == NEWLINE then i else NextNewline(s, i + 1)
  }

  /** What a drop removes: half the contents, and on to the end of the line there. */
  function Cut(s: seq<byte>): (c: nat)
    ensures |s| / 2 <= c <= |s|
  {
    var j := NextNewline(s, |s| / 2);
    if j < |s| then j + 1 else j
  }

  /** The contents after one more message. */
  function Next(s: seq<byte>, text: seq<byte>): seq<byte> {
    if text == [] then s
    else if |text| + 1 > ROOM - |s| then s[Cut(s)..] + Line(text)
    else s + Line(text)
  }

  /**
   How much is dropped: nothing while the message and its terminator fit; otherwise half, and on
   to just after the first newline there, or everything if there is none.
   */
  lemma DropsOnlyWhenFull(s: seq<byte>, text: seq<byte>) returns (c: nat)
    requires |s| <= 1535 && text != []
    ensures c <= |s| && Next(s, text) == s[c..] + Line(text)
    ensures |s| + |text| + 1 <= 1535 ==> c == 0
    ensures |s| + |text| + 1 > 1535 ==>
              && |s| / 2 <= c && (forall k | |s| / 2 <= k < c - 1 :: s[k] != 10)
              && (c < |s| ==> |s| / 2 < c && s[c - 1] == 10)
  {
    c := if |s| + |text| + 1 > 1535 then Cut(s) else 0;
    assert s[0..] == s;
  }

  /** The buffer after a run of messages. */
  function Tail(texts: seq<seq<byte>>): seq<byte> {
    if texts == [] then [] else Next(Tail(texts[..|texts| - 1]), texts[|texts| - 1])
  }

  /** The unbounded log. */
  function History(texts: seq<seq<byte>>): seq<byte> {
    if texts == [] then [] else History(texts[..|texts| - 1]) + Line(texts[|texts| - 1])
  }

  predicate Suffix(s: seq<byte>, whole: seq<byte>) {
    |s| <= |whole| && s == whole[|whole| - |s|..]
  }

  /** The buffer always fits, and is exactly the end of the log. */
  lemma {:induction false} TailIsSuffix(texts: seq<seq<byte>>)
    ensures |Tail(texts)| <= ROOM && Suffix(Tail(texts), History(texts))
  {
    hide Cut, Line;
    if texts != [] {
      var front, text := texts[..|texts| - 1], texts[|texts| - 1];
      TailIsSuffix(front);
      var s, h := Tail(front), History(front);
      assert h + Line(text) == h[..|h| - |s|] + s + Line(text);
      if text == [] {
        assert h + Line(text) == h;
      }
    }
  }

  /** The newest message is there whole: the final clamp to the space left never bites. */
  lemma NewestIsWhole(s: seq<byte>, text: seq<byte>)
    requires |s| <= ROOM
    ensures Suffix(Line(text), Next(s, text)) && |Next(s, text)| <= ROOM
  {
  }

  /** Every message is a whole line of at most 255 bytes. */
  predicate Tidy(texts: seq<seq<byte>>) {
    forall i | 0 <= i < |texts| :: 0 < |texts[i]| <= LINE_CAP && texts[i][|texts[i]| - 1] == NEWLINE
  }

  /** From anywhere in the log, a newline is at most 254 bytes away. */
  predicate Lined(h: seq<byte>) {
    forall i | 0 <= i < |h| :: NextNewline(h, i) < |h| && NextNewline(h, i) < i + LINE_CAP
  }

  /** The buffer starts where the log does, or right after a newline. */
  predicate OnBoundary(s: seq<byte>, whole: seq<byte>)
    requires |s| <= |whole|
  {
    |s| == |whole| || whole[|whole| - |s| - 1] == NEWLINE
  }

  lemma NextIsLeast(s: seq<byte>, i: nat, j: nat)
    requires i <= j < |s| && s[j] == NEWLINE
    ensures NextNewline(s, i) <= j
  {
  }

  lemma LinedAppend(h: seq<byte>, line: seq<byte>)
    requires Lined(h) && 0 < |line| <= LINE_CAP && line[|line| - 1] == NEWLINE
    ensures Lined(h + line)
  {
    var all := h + line;
    forall i | 0 <= i < |all| ensures NextNewline(all, i) < |all| && NextNewline(all, i) < i + LINE_CAP {
      NextIsLeast(all, i, if i < |h| then NextNewline(h, i) else |all| - 1);
    }
  }

  /** In a suffix of a lined log, a drop stops within 255 bytes of half, just after a newline. */
  lemma CutIsNear(s: seq<byte>, h: seq<byte>)
    requires Lined(h) && Suffix(s, h) && s != []
    ensures Cut(s) <= |s| / 2 + LINE_CAP && s[Cut(s) - 1] == NEWLINE
  {
    var off := |h| - |s|;
    var i := |s| / 2;
    var j := NextNewline(h, off + i);
    assert s[j - off] == h[j];
    NextIsLeast(s, i, j - off);
  }

  /** Starts on a line boundary, and holds all of the log or at least its last 513 bytes. */
  predicate Rich(s: seq<byte>, h: seq<byte>) {
    |s| <= |h| && OnBoundary(s, h) && (|s| == |h| || |s| >= KEPT)
  }

  lemma TidyStep(s: seq<byte>, h: seq<byte>, text: seq<byte>)
    requires |s| <= ROOM && Suffix(s, h) && Lined(h) && Rich(s, h)
    requires 0 < |text| <= LINE_CAP && text[|text| - 1] == NEWLINE
    ensures Rich(Next(s, text), h + text)
  {
    hide Lined, Cut, NextNewline;
    if |text| + 1 > ROOM - |s| {
      CutIsNear(s, h);
      assert s[Cut(s) - 1] == h[|h| - |s| + Cut(s) - 1];
    }
  }

  /** Of whole lines, the buffer starts on a line boundary and keeps at least the last 513 bytes. */
  lemma {:induction false} TidyTail(texts: seq<seq<byte>>)
    requires Tidy(texts)
    ensures Suffix(Tail(texts), History(texts)) && Rich(Tail(texts), History(texts)) && Lined(History(texts))
  {
    hide Cut, Lined, Rich, Next, Suffix;
    TailIsSuffix(texts);
    if texts == [] {
      NoLines();
    } else {
      var front, text := texts[..|texts| - 1], texts[|texts| - 1];
      TidyTail(front);
      TailIsSuffix(front);
      LinedAppend(History(front), text);
      TidyStep(Tail(front), History(front), text);
    }
  }

  lemma NoLines()
    ensures Lined([]) && Rich([], [])
  {
  }

  class LogTail {
    const tail: array<byte>
    var used: nat

    ghost predicate Valid()
      reads this, tail
    {
      tail.Length == TAIL_SZ && used <= ROOM && tail[used] == 0
    }

    ghost function Contents(): seq<byte>
      requires Valid()
      reads this, tail
    {
      tail[..used]
    }

    constructor ()
      ensures Valid() && fresh(tail) && Contents() == []
    {
      tail := new byte[TAIL_SZ](_ => 0);
      used := 0;
    }

    /** Logs one message, whose full formatted text may exceed the line buffer. */
    method QLog(text: seq<byte>)
      requires Valid()
      modifies this, tail
      ensures Valid() && Contents() == Next(old(Contents()), text)
    {
      if |text| == 0 {
        return;
      }
      NewestIsWhole(Contents(), text);
      var line, len := Line(text), |text|;
      var space := ROOM - used;
      if len + 1 > space {
        DropHalf();
      }
      var present := if len < LINE_SZ then len else LINE_SZ - 1;
      var space2 := ROOM - used;
      var n := if present < space2 then present else space2;
      Append(line[..n]);
    }

    /** Drops the oldest half, and on to the end of the line there. */
    method DropHalf()
      requires Valid()
      modifies this, tail
      ensures tail.Length == TAIL_SZ && used <= ROOM
      ensures tail[..used] == old(Contents())[Cut(old(Contents()))..]
    {
      ghost var s := Contents();
      var cut := used / 2;
      while cut < used && tail[cut] != NEWLINE
        invariant used / 2 <= cut <= used
        invariant NextNewline(s, |s| / 2) == NextNewline(s, cut)
      {
        cut := cut + 1;
      }
      if cut < used {
        cut := cut + 1;
      }
      used := used - cut;
      forall i | 0 <= i < used { tail[i] := tail[cut + i]; }
    }

    method Append(line: seq<byte>)
      requires tail.Length == TAIL_SZ && used + |line| <= ROOM
      modifies this, tail
      ensures Valid() && Contents() == old(tail[..used]) + line
    {
      forall i | 0 <= i < |line| { tail[used + i] := line[i]; }
      used := used + |line|;
      tail[used] := 0;
    }
  }

  /** Any run of messages leaves the buffer at the specification's tail of the log. */
  method AnyRun(texts: seq<seq<byte>>) returns (log: LogTail)
    ensures fresh(log) && log.Valid() && log.Contents() == Tail(texts)
    ensures Suffix(log.Contents(), History(texts))
  {
    log := new LogTail();
    for k := 0 to |texts|
      invariant fresh(log) && fresh(log.tail) && log.Valid() && log.Contents() == Tail(texts[..k])
    {
      log.QLog(texts[k]);
      assert texts[..k + 1][..k] == texts[..k];
    }
    assert texts[..|texts|] == texts;
    TailIsSuffix(texts);
  }
}
