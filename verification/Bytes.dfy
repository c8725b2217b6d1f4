/** Bytes, little-endian words and the bitwise operations the driver applies to them. */
module Bytes {

  type byte = b: int | 0 <= b < 0x100
  type u16 = w: int | 0 <= w < 0x1_0000
  type u32 = w: int | 0 <= w < 0x1_0000_0000

  function Zeros(n: nat): (z: seq<byte>)
    ensures |z| == n && forall i | 0 <= i < n :: z[i] == 0
  {
    seq(n, i => 0)
  }

  /** n rounded up to a multiple of four, as the mask expression `(n + 3) & ~3` gives it. */
  function RoundUp4(n: nat): (r: nat)
    ensures r % 4 == 0 && n <= r < n + 4
  {
    (n + 3) / 4 * 4
  }

  lemma RoundUpSplit(a: nat, b: nat)
    requires a % 4 == 0
    ensures RoundUp4(a) == a && RoundUp4(a + b) == a + RoundUp4(b)
  {
  }

  /** 32-bit wrap-around. */
  function Wrap(x: nat): u32 {
    x % 0x1_0000_0000
  }

  lemma WrapAdd(x: nat, d: nat)
    ensures Wrap(Wrap(x) + d) == Wrap(x + d) && Wrap(Wrap(x)) == Wrap(x)
    ensures x < 0x1_0000_0000 ==> Wrap(x) == x
  {
    var q := x / 0x1_0000_0000;
    assert x == q * 0x1_0000_0000 + Wrap(x);
    assert (Wrap(x) + d + q * 0x1_0000_0000) % 0x1_0000_0000 == (Wrap(x) + d) % 0x1_0000_0000;
  }

  function Le16(w: u16): (s: seq<byte>)
    ensures |s| == 2 && Get16(s, 0) == w
  {
    [w % 0x100, w / 0x100]
  }

  function Get16(s: seq<byte>, off: nat): u16
    requires off + 2 <= |s|
  {
    s[off] as int + 0x100 * (s[off + 1] as int)
  }

  function Le32(w: u32): (s: seq<byte>)
    ensures |s| == 4 && Get32(s, 0) == w
  {
    [w % 0x100, w / 0x100 % 0x100, w / 0x100 / 0x100 % 0x100, w / 0x100 / 0x100 / 0x100]
  }

  function Get32(s: seq<byte>, off: nat): u32
    requires off + 4 <= |s|
  {
    s[off] as int + 0x100 * (s[off + 1] as int + 0x100 * (s[off + 2] as int + 0x100 * (s[off + 3] as int)))
  }

  /** Words laid end to end, little-endian. */
  function Words(ws: seq<u32>): (s: seq<byte>)
    ensures |s| == 4 * |ws|
  {
    if ws == [] then [] else Words(ws[..|ws| - 1]) + Le32(ws[|ws| - 1])
  }

  /** The k-th of them, read back. */
  lemma {:induction false} WordsRead(ws: seq<u32>, k: nat)
    requires k < |ws|
    ensures Words(ws)[4 * k..4 * k + 4] == Le32(ws[k]) && Get32(Words(ws), 4 * k) == ws[k]
  {
    hide Le32, Get32;
    var n := |ws| - 1;
    if k < n {
      WordsRead(ws[..n], k);
      assert Words(ws)[4 * k..4 * k + 4] == Words(ws[..n])[4 * k..4 * k + 4];
    }
    Get32OfLe32(Words(ws), 4 * k, ws[k]);
  }

  lemma Get32OfLe32(s: seq<byte>, off: nat, w: u32)
    requires off + 4 <= |s| && s[off..off + 4] == Le32(w)
    ensures Get32(s, off) == w
  {
    forall i | 0 <= i < 4 ensures s[off + i] == Le32(w)[i] {
      assert s[off + i] == s[off..off + 4][i];
    }
    assert s[off] == Le32(w)[0] && s[off + 1] == Le32(w)[1] && s[off + 2] == Le32(w)[2] && s[off + 3] == Le32(w)[3];
  }

  /** Le32 is the only encoding: a word is determined by its bytes and the bytes by the word. */
  lemma Le32OfGet32(s: seq<byte>)
    requires |s| == 4
    ensures Le32(Get32(s, 0)) == s
  {
    var w1 := s[1] as int + 0x100 * (s[2] as int + 0x100 * (s[3] as int));
    var w := Get32(s, 0) as int;
    assert w == s[0] as int + 0x100 * w1 && w / 0x100 == w1;
    assert w1 / 0x100 == s[2] as int + 0x100 * (s[3] as int);
  }

  lemma Le16OfGet16(s: seq<byte>)
    requires |s| == 2
    ensures Le16(Get16(s, 0)) == s
  {
  }

  /** Bit i of a word. */
  predicate Bit(w: nat, i: nat) {
    if i == 0 then w % 2 == 1 else Bit(w / 2, i - 1)
  }

  function Or(a: nat, b: nat): nat
    decreases a + b
  {
    if a == 0 && b == 0 then 0
    else 2 * Or(a / 2, b / 2) + (if a % 2 == 1 || b % 2 == 1 then 1 else 0)
  }

  function AndNot(a: nat, mask: nat): nat
    decreases a
  {
    if a == 0 then 0
    else 2 * AndNot(a / 2, mask / 2) + (if a % 2 == 1 && mask % 2 == 0 then 1 else 0)
  }

  function And(a: nat, b: nat): nat
    decreases a
  {
    if a == 0 then 0
    else 2 * And(a / 2, b / 2) + (if a % 2 == 1 && b % 2 == 1 then 1 else 0)
  }

  /** Masking with k ones keeps the low k bits. */
  lemma {:induction false} AndLow(a: nat, k: nat)
    ensures And(a, Pow2(k) - 1) == a % Pow2(k)
    decreases k
  {
    hide And, Pow2;
    Pow2Step(k);
    if k == 0 {
      AndNone(a);
      ModIs(a, 1, a, 0);
    } else {
      var p := Pow2(k - 1);
      AndLow(a / 2, k - 1);
      AndStep(a, 2 * p - 1);
      HalveOdd(p);
      HalveMod(a, p);
    }
  }

  lemma Pow2Step(k: nat)
    ensures if k == 0 then Pow2(k) == 1 else Pow2(k) == 2 * Pow2(k - 1)
  {
  }

  lemma HalveOdd(p: nat)
    requires p > 0
    ensures (2 * p - 1) / 2 == p - 1 && (2 * p - 1) % 2 == 1
  {
  }

  lemma AndStep(a: nat, b: nat)
    ensures And(a, b) == 2 * And(a / 2, b / 2) + if a % 2 == 1 && b % 2 == 1 then 1 else 0
  {
  }

  lemma {:induction false} AndNone(a: nat)
    ensures And(a, 0) == 0
  {
    if a > 0 { AndNone(a / 2); }
  }

  lemma HalveMod(a: nat, p: nat)
    requires p > 0
    ensures a % (2 * p) == 2 * (a / 2 % p) + a % 2
  {
    var q, r := a / 2 / p, a / 2 % p;
    assert a == 2 * (q * p + r) + a % 2 == q * (2 * p) + (2 * r + a % 2);
    ModIs(a, 2 * p, q, 2 * r + a % 2);
  }

  lemma ModIs(a: nat, m: nat, q: nat, r: nat)
    requires a == q * m + r && r < m
    ensures a % m == r
  {
    var c := a / m;
    assert a == c * m + a % m;
    Distribute(c, q, m);
    Distribute(q, c, m);
    if c > q { AtLeast(c - q, m); }
    if c < q { AtLeast(q - c, m); }
  }

  lemma Distribute(x: nat, y: nat, m: nat)
    ensures (x - y) * m == x * m - y * m
  {
  }

  lemma AtLeast(d: nat, m: nat)
    requires d >= 1
    ensures d * m >= m
  {
  }

  /** Joining parts that share no bit is adding them. */
  lemma {:induction false} OrDisjoint(hi: nat, lo: nat, k: nat)
    requires lo < Pow2(k)
    ensures Or(hi * Pow2(k), lo) == hi * Pow2(k) + lo
    decreases k
  {
    hide Or, Pow2;
    Pow2Step(k);
    if k == 0 {
      OrNone(hi);
    } else {
      var p := Pow2(k - 1);
      Double(hi, p);
      OrDisjoint(hi, lo / 2, k - 1);
      OrHalves(2 * (hi * p), lo);
    }
  }

  lemma Double(x: nat, p: nat)
    ensures x * (2 * p) == 2 * (x * p)
  {
  }

  lemma OrHalves(a: nat, b: nat)
    requires a % 2 == 0
    ensures Or(a, b) == 2 * Or(a / 2, b / 2) + b % 2
  {
  }

  lemma {:induction false} OrNone(a: nat)
    ensures Or(a, 0) == a
  {
    if a > 0 { OrNone(a / 2); }
  }

  lemma {:induction false} BitOfZero(i: nat)
    ensures !Bit(0, i)
  {
    if i > 0 { BitOfZero(i - 1); }
  }

  lemma OrStep(a: nat, b: nat)
    ensures Or(a, b) / 2 == Or(a / 2, b / 2)
    ensures Or(a, b) % 2 == 1 <==> a % 2 == 1 || b % 2 == 1
  {
  }

  lemma AndNotStep(a: nat, mask: nat)
    ensures AndNot(a, mask) / 2 == AndNot(a / 2, mask / 2)
    ensures AndNot(a, mask) % 2 == 1 <==> a % 2 == 1 && mask % 2 == 0
  {
  }

  lemma {:induction false} BitOfOr(a: nat, b: nat, i: nat)
    ensures Bit(Or(a, b), i) <==> Bit(a, i) || Bit(b, i)
    decreases i
  {
    hide Or;
    OrStep(a, b);
    if i > 0 { BitOfOr(a / 2, b / 2, i - 1); }
  }

  lemma {:induction false} BitOfAndNot(a: nat, mask: nat, i: nat)
    ensures Bit(AndNot(a, mask), i) <==> Bit(a, i) && !Bit(mask, i)
    decreases i
  {
    hide AndNot;
    AndNotStep(a, mask);
    if i > 0 { BitOfAndNot(a / 2, mask / 2, i - 1); }
  }

  lemma {:induction false} OrFits(a: nat, b: nat, k: nat)
    requires a < Pow2(k) && b < Pow2(k)
    ensures Or(a, b) < Pow2(k)
  {
    if k > 0 && (a != 0 || b != 0) { OrFits(a / 2, b / 2, k - 1); }
  }

  lemma {:induction false} AndNotShrinks(a: nat, mask: nat)
    ensures AndNot(a, mask) <= a
  {
    if a > 0 { AndNotShrinks(a / 2, mask / 2); }
  }

  function Pow2(k: nat): (p: nat)
    ensures p > 0
  {
    if k == 0 then 1 else 2 * Pow2(k - 1)
  }

  lemma Pow2Of32()
    ensures Pow2(32) == 0x1_0000_0000
  {
    assert Pow2(4) == 0x10;
    assert Pow2(8) == 0x100;
    assert Pow2(12) == 0x1000;
    assert Pow2(16) == 0x1_0000;
    assert Pow2(20) == 0x10_0000;
    assert Pow2(24) == 0x100_0000;
    assert Pow2(28) == 0x1000_0000;
  }
}
