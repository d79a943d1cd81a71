/**
 * Packing signals into the eight data bytes of a frame (packBitsLsb and buildFrameForInstance of
 * services/protocol/can/bms/bms_tx.cpp), the bytes taken as one little-endian 64-bit word. The
 * source's masks and shifts are given bit by bit, and shown to be the arithmetic that the rest of
 * the module reasons with.
 */
module BmsWire {

  function Pow2(n: nat): (r: nat)
    ensures r > 0
  {
    if n == 0 then 1 else 2 * Pow2(n - 1)
  }

  function Div(x: nat, d: nat): nat
    requires d > 0
  {
    x / d
  }

  function Mod(x: nat, d: nat): (r: nat)
    requires d > 0
    ensures r < d
  {
    x % d
  }

  /** A signal's place and the value packed there. */
  datatype Signal = Signal(start: nat, len: nat, value: nat)

  predicate InWord(s: Signal) {
    s.len > 0 && s.start + s.len <= 64
  }

  /** The bits of a word from start on, len of them. */
  function Field(u: nat, start: nat, len: nat): nat {
    Mod(Div(u, Pow2(start)), Pow2(len))
  }

  /** The word in three parts: above a range, in it and below it. */
  function Join(high: nat, mid: nat, low: nat, start: nat, len: nat): nat {
    (high * Pow2(len) + mid) * Pow2(start) + low
  }

  function High(u: nat, start: nat, len: nat): nat {
    Div(Div(u, Pow2(start)), Pow2(len))
  }

  function Low(u: nat, start: nat): nat {
    Mod(u, Pow2(start))
  }

  function Pack(u: nat, s: Signal): nat {
    Join(High(u, s.start, s.len), Mod(s.value, Pow2(s.len)), Low(u, s.start), s.start, s.len)
  }

  function PackAll(u: nat, signals: seq<Signal>): nat {
    if |signals| == 0 then u
    else Pack(PackAll(u, signals[..|signals| - 1]), signals[|signals| - 1])
  }

  // ---- Arithmetic ------------------------------------------------------------------------

  lemma {:induction false} Pow2Add(a: nat, b: nat)
    ensures Pow2(a + b) == Pow2(a) * Pow2(b)
    decreases b
  {
    if b > 0 {
      Pow2Add(a, b - 1);
      assert Pow2(a + b) == 2 * Pow2(a + (b - 1));
      assert Pow2(a) * (2 * Pow2(b - 1)) == 2 * (Pow2(a) * Pow2(b - 1));
    }
  }

  /** Quotient and remainder are what they look like. */
  lemma DivIs(q: nat, d: nat, r: nat)
    requires r < d
    ensures q * d + r >= 0 && Div(q * d + r, d) == q && Mod(q * d + r, d) == r
  {
    var x := q * d + r;
    var k := x / d;
    assert x == k * d + x % d;
    assert (q - k) * d == x % d - r;
    if q > k {
      AtLeast(q - k, d);
    } else if q < k {
      assert (k - q) * d == -((q - k) * d);
      AtLeast(k - q, d);
    }
  }

  lemma AtLeast(n: nat, d: nat)
    requires n > 0
    ensures n * d >= d
  {
    assert n * d == (n - 1) * d + d;
    NonNegative(n - 1, d);
  }

  lemma NonNegative(a: nat, b: nat)
    ensures a * b >= 0
  {}

  lemma DivDiv(u: nat, a: nat, b: nat)
    requires a > 0 && b > 0
    ensures a * b > 0 && Div(u, a * b) == Div(Div(u, a), b)
  {
    var q := u / a;
    var h := q / b;
    var m, r := q % b, u % a;
    assert u == q * a + r && q == h * b + m;
    assert u == (h * b + m) * a + r;
    assert (h * b + m) * a == h * (a * b) + m * a by {
      assert (h * b + m) * a == h * b * a + m * a;
      assert h * b * a == h * (a * b);
    }
    assert m * a + r < a * b by {
      AtLeastSteps(m, b, a);
    }
    assert a * b > 0 by { AtLeast(b, a); assert a * b == b * a; }
    NonNegative(m, a);
    DivIs(h, a * b, m * a + r);
  }

  lemma AtLeastSteps(m: nat, b: nat, a: nat)
    requires m < b
    ensures m * a + a <= a * b
  {
    assert a * b == m * a + (b - m) * a;
    AtLeast(b - m, a);
  }

  // ---- Parts of a joined word ------------------------------------------------------------

  /** A joined word comes apart into its parts. */
  lemma {:induction false} JoinParts(high: nat, mid: nat, low: nat, start: nat, len: nat)
    requires mid < Pow2(len) && low < Pow2(start)
    ensures var u := Join(high, mid, low, start, len);
            High(u, start, len) == high && Field(u, start, len) == mid && Low(u, start) == low
  {
    NonNegative(high, Pow2(len));
    DivIs(high * Pow2(len) + mid, Pow2(start), low);
    DivIs(high, Pow2(len), mid);
  }

  /** Packing replaces the range and nothing else. */
  lemma PackParts(u: nat, s: Signal)
    ensures Field(Pack(u, s), s.start, s.len) == Mod(s.value, Pow2(s.len))
    ensures High(Pack(u, s), s.start, s.len) == High(u, s.start, s.len)
    ensures Low(Pack(u, s), s.start) == Low(u, s.start)
  {
    JoinParts(High(u, s.start, s.len), Mod(s.value, Pow2(s.len)), Low(u, s.start), s.start, s.len);
  }

  // ---- The source's bit operations -------------------------------------------------------

  /** A machine word, lowest bit first. */
  type Bits = seq<bool>

  function Value(w: Bits): nat {
    if |w| == 0 then 0 else (if w[0] then 1 else 0) + 2 * Value(w[1..])
  }

  function And(a: Bits, b: Bits): Bits
    requires |a| == |b|
  {
    seq(|a|, i requires 0 <= i < |a| => a[i] && b[i])
  }

  function Or(a: Bits, b: Bits): Bits
    requires |a| == |b|
  {
    seq(|a|, i requires 0 <= i < |a| => a[i] || b[i])
  }

  function Not(a: Bits): Bits {
    seq(|a|, i requires 0 <= i < |a| => !a[i])
  }

  /** Shifted towards the high end by k, zeros coming in and the top falling off. */
  function Shl(a: Bits, k: nat): Bits {
    seq(|a|, i requires 0 <= i < |a| => i >= k && a[i - k])
  }

  /** The lowest len bits set. */
  function Mask(size: nat, len: nat): Bits {
    seq(size, i => 0 <= i < len)
  }

  /** packBitsLsb: clear the range, then or the masked value in. */
  function PackBits(u: Bits, start: nat, len: nat, v: Bits): Bits
    requires |u| == |v|
  {
    Or(And(u, Not(Shl(Mask(|u|, len), start))), Shl(And(v, Mask(|u|, len)), start))
  }

  /** That is: the range of the word is replaced by the low bits of the value. */
  lemma PackSplices(u: Bits, start: nat, len: nat, v: Bits)
    requires |u| == |v| && start + len <= |u|
    ensures PackBits(u, start, len, v) == u[..start] + v[..len] + u[start + len..]
  {
    var packed, spliced := PackBits(u, start, len, v), u[..start] + v[..len] + u[start + len..];
    assert |packed| == |spliced|;
    forall i | 0 <= i < |u|
      ensures packed[i] == spliced[i]
    {
      PackedBit(u, start, len, v, i);
    }
  }

  lemma PackedBit(u: Bits, start: nat, len: nat, v: Bits, i: nat)
    requires |u| == |v| && i < |u|
    ensures PackBits(u, start, len, v)[i] == if start <= i < start + len then v[i - start] else u[i]
  {
    assert Shl(Mask(|u|, len), start)[i] == (start <= i < start + len);
    assert Shl(And(v, Mask(|u|, len)), start)[i] == (start <= i < start + len && v[i - start]);
  }

  lemma {:induction false} ValueAppend(a: Bits, b: Bits)
    ensures Value(a + b) == Value(b) * Pow2(|a|) + Value(a)
  {
    if |a| == 0 {
      assert a + b == b;
    } else {
      ValueAppend(a[1..], b);
      assert (a + b)[1..] == a[1..] + b;
      assert 2 * (Value(b) * Pow2(|a| - 1)) == Value(b) * (2 * Pow2(|a| - 1));
    }
  }

  lemma {:induction false} ValueBound(a: Bits)
    ensures Value(a) < Pow2(|a|)
  {
    if |a| > 0 {
      ValueBound(a[1..]);
    }
  }

  lemma {:induction false} ValueJoins(low: Bits, mid: Bits, high: Bits)
    ensures Value(low + mid + high) == Join(Value(high), Value(mid), Value(low), |low|, |mid|)
  {
    assert low + mid + high == low + (mid + high);
    ValueAppend(low, mid + high);
    ValueAppend(mid, high);
  }

  /** The masks and shifts of the source compute Pack. */
  lemma {:induction false} PackIsBitwise(u: Bits, start: nat, len: nat, v: Bits)
    requires |u| == |v| && start + len <= |u|
    ensures Value(PackBits(u, start, len, v)) == Pack(Value(u), Signal(start, len, Value(v)))
  {
    var low, mid, high := u[..start], u[start..start + len], u[start + len..];
    PackSplices(u, start, len, v);
    ValueJoins(low, v[..len], high);
    assert u == low + mid + high;
    ValueJoins(low, mid, high);
    ValueBound(low);
    ValueBound(mid);
    JoinParts(Value(high), Value(mid), Value(low), start, len);
    LowBits(v, len);
  }

  lemma {:induction false} LowBits(v: Bits, len: nat)
    requires len <= |v|
    ensures Mod(Value(v), Pow2(len)) == Value(v[..len])
  {
    assert v == v[..len] + v[len..];
    ValueAppend(v[..len], v[len..]);
    ValueBound(v[..len]);
    DivIs(Value(v[len..]), Pow2(len), Value(v[..len]));
  }

  // ---- Ranges apart ----------------------------------------------------------------------

  /** A range above is read from the high part alone. */
  lemma FieldAbove(u: nat, start: nat, len: nat, above: nat, n: nat)
    requires start + len <= above
    ensures Field(u, above, n) == Field(High(u, start, len), above - start - len, n)
  {
    var gap := above - start - len;
    Pow2Add(start, len);
    Pow2Add(start + len, gap);
    DivDiv(u, Pow2(start), Pow2(len));
    DivDiv(u, Pow2(start) * Pow2(len), Pow2(gap));
  }

  /** A range below is read from the low part alone. */
  lemma FieldBelow(u: nat, start: nat, below: nat, n: nat)
    requires below + n <= start
    ensures Field(u, below, n) == Field(Low(u, start), below, n)
  {
    Pow2Add(below, n);
    Pow2Add(below + n, start - below - n);
    DigitsBelow(u, Pow2(below), Pow2(n), Pow2(start - below - n), Pow2(start));
  }

  lemma DigitsBelow(u: nat, p: nat, w: nat, g: nat, d: nat)
    requires p > 0 && w > 0 && d > 0 && d == p * w * g
    ensures Mod(Div(u, p), w) == Mod(Div(Mod(u, d), p), w)
  {
    Remake(u, d);
    DigitsOver(Div(u, d), Mod(u, d), p, w, g);
  }

  lemma DigitsOver(q: nat, low: nat, p: nat, w: nat, g: nat)
    requires p > 0 && w > 0
    ensures q * (p * w * g) + low >= 0
    ensures Mod(Div(q * (p * w * g) + low, p), w) == Mod(Div(low, p), w)
  {
    NonNegative(q, g);
    NonNegative(q * g, w);
    Shuffle(q, p, w, g);
    DivPlus(q * g * w, p, low);
    ModLow(q * g, w, Div(low, p));
  }

  lemma Remake(u: nat, d: nat)
    requires d > 0
    ensures u == Div(u, d) * d + Mod(u, d)
  {}

  lemma DivPlus(x: nat, p: nat, low: nat)
    requires p > 0
    ensures x * p + low >= 0 && Div(x * p + low, p) == x + Div(low, p)
  {
    var q := Div(low, p);
    Remake(low, p);
    assert (x + q) * p == x * p + q * p;
    DivIs(x + q, p, Mod(low, p));
  }

  lemma ModLow(k: nat, w: nat, a: nat)
    requires w > 0
    ensures k * w + a >= 0 && Mod(k * w + a, w) == Mod(a, w)
  {
    var q := Div(a, w);
    Remake(a, w);
    assert (k + q) * w == k * w + q * w;
    DivIs(k + q, w, Mod(a, w));
  }

  lemma Shuffle(q: nat, p: nat, w: nat, g: nat)
    ensures q * (p * w * g) == q * g * w * p
  {
    assert p * w * g == g * (w * p) by { assert p * w == w * p; }
    assert q * (g * (w * p)) == q * g * (w * p);
    assert q * g * (w * p) == q * g * w * p;
  }

  predicate Apart(a: Signal, b: Signal) {
    a.start + a.len <= b.start || b.start + b.len <= a.start
  }

  /** Packing one range leaves every range apart from it as it was. */
  lemma PackKeeps(u: nat, s: Signal, t: Signal)
    requires Apart(s, t)
    ensures Field(Pack(u, s), t.start, t.len) == Field(u, t.start, t.len)
  {
    PackParts(u, s);
    if s.start + s.len <= t.start {
      FieldAbove(u, s.start, s.len, t.start, t.len);
      FieldAbove(Pack(u, s), s.start, s.len, t.start, t.len);
    } else {
      FieldBelow(u, s.start, t.start, t.len);
      FieldBelow(Pack(u, s), s.start, t.start, t.len);
    }
  }

  // ---- Whole frames ----------------------------------------------------------------------

  predicate Layout(signals: seq<Signal>) {
    forall a, b :: 0 <= a < b < |signals| ==> Apart(signals[a], signals[b])
  }

  /** Every signal of a layout without overlaps reads back, cut to its width. */
  lemma {:induction false} FrameReadsBack(u: nat, signals: seq<Signal>, k: nat)
    requires Layout(signals) && k < |signals|
    ensures Field(PackAll(u, signals), signals[k].start, signals[k].len) == Mod(signals[k].value, Pow2(signals[k].len))
  {
    var n := |signals| - 1;
    var before := PackAll(u, signals[..n]);
    PackParts(before, signals[n]);
    if k < n {
      FrameReadsBack(u, signals[..n], k);
      PackKeeps(before, signals[n], signals[k]);
    }
  }

  lemma Pow2Four()
    ensures Pow2(2) == 4 && Pow2(8) == 256
  {
    assert Pow2(1) == 2;
    assert Pow2(3) == 8 && Pow2(4) == 16;
    assert Pow2(6) == 64 && Pow2(7) == 128;
  }

  /** The signals of the command frame, in their order on the wire: the life counter, the
      high-voltage command, three auxiliary switches, the speed, and twenty two-bit states. */
  function CommandSignals(life: nat, hv: nat, aux: seq<nat>, speed: nat, states: seq<nat>): seq<Signal>
    requires |aux| == 3 && |states| == 20
  {
    [Signal(0, 8, life), Signal(8, 2, hv)] +
    seq(3, k requires 0 <= k < 3 => Signal(10 + 2 * k, 2, aux[k])) +
    [Signal(16, 8, speed)] +
    seq(20, k requires 0 <= k < 20 => Signal(24 + 2 * k, 2, states[k]))
  }

  lemma CommandLayout(life: nat, hv: nat, aux: seq<nat>, speed: nat, states: seq<nat>)
    requires |aux| == 3 && |states| == 20
    ensures var s := CommandSignals(life, hv, aux, speed, states);
            Layout(s) && forall k :: 0 <= k < |s| ==> InWord(s[k])
  {
    var s := CommandSignals(life, hv, aux, speed, states);
    forall k | 0 <= k < |s|
      ensures s[k].start == Place(k) && s[k].start + s[k].len == Place(k + 1)
    {
      if k < 2 {
        assert s[k] == [Signal(0, 8, life), Signal(8, 2, hv)][k];
      } else if k < 5 {
        assert s[k] == Signal(10 + 2 * (k - 2), 2, aux[k - 2]);
      } else if k == 5 {
        assert s[k] == Signal(16, 8, speed);
      } else {
        assert s[k] == Signal(24 + 2 * (k - 6), 2, states[k - 6]);
      }
    }
    InOrder(s);
  }

  lemma InOrder(s: seq<Signal>)
    requires forall k :: 0 <= k < |s| ==> s[k].start == Place(k) && s[k].start + s[k].len == Place(k + 1)
    ensures Layout(s)
  {
    forall a, b | 0 <= a < b < |s|
      ensures Apart(s[a], s[b])
    {
      assert Place(a + 1) <= Place(b);
    }
  }

  /** Where the k-th signal starts. */
  function Place(k: nat): nat {
    if k == 0 then 0 else if k < 6 then 6 + 2 * k else 12 + 2 * k
  }

  /** On the wire the receiver reads the life counter modulo 256 and the command modulo 4. */
  lemma CommandOnWire(life: nat, hv: nat, aux: seq<nat>, speed: nat, states: seq<nat>)
    requires |aux| == 3 && |states| == 20
    ensures var u := PackAll(0, CommandSignals(life, hv, aux, speed, states));
            Field(u, 0, 8) == life % 256 && Field(u, 8, 2) == hv % 4
  {
    var signals := CommandSignals(life, hv, aux, speed, states);
    CommandLayout(life, hv, aux, speed, states);
    Pow2Four();
    assert signals[0] == Signal(0, 8, life) && signals[1] == Signal(8, 2, hv);
    FrameReadsBack(0, signals, 0);
    FrameReadsBack(0, signals, 1);
  }

  /** And the other signals in their places: three switches from bit 10 on, the speed from bit 16, the
      twenty states from bit 24. */
  lemma RestOnWire(life: nat, hv: nat, aux: seq<nat>, speed: nat, states: seq<nat>, k: nat)
    requires |aux| == 3 && |states| == 20 && k < 20
    ensures var u := PackAll(0, CommandSignals(life, hv, aux, speed, states));
            && (k < 3 ==> Field(u, 10 + 2 * k, 2) == aux[k] % 4)
            && Field(u, 16, 8) == speed % 256
            && Field(u, 24 + 2 * k, 2) == states[k] % 4
  {
    var signals := CommandSignals(life, hv, aux, speed, states);
    CommandLayout(life, hv, aux, speed, states);
    Pow2Four();
    if k < 3 {
      assert signals[2 + k] == Signal(10 + 2 * k, 2, aux[k]);
      FrameReadsBack(0, signals, 2 + k);
    }
    assert signals[5] == Signal(16, 8, speed) && signals[6 + k] == Signal(24 + 2 * k, 2, states[k]);
    FrameReadsBack(0, signals, 5);
    FrameReadsBack(0, signals, 6 + k);
  }
}
