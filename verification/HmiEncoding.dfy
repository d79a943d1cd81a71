/**
 * Writing engineering values into HMI registers (services/normal/normal_hmi_writer.cpp): clamping,
 * inverse scaling, rounding, saturation and splitting into words, with real numbers for doubles.
 */
module HmiEncoding {
  import opened Words

  /** The parts of an HmiMapItem that shape an integer write. */
  datatype Item = Item(
    addr: U16, dword: bool, signed: bool,
    minv: Option<real>, maxv: Option<real>, scale: Option<real>, offset: Option<real>, def: Option<real>)

  /** What the item's path resolves to, and the numeric "_lo" partner of a two-word "_hi" item. */
  datatype Node = Missing | NotNumber | Number(value: real)

  datatype Source = Source(node: Node, low: Option<real>)

  // ---- Value to raw ----------------------------------------------------------------------

  function Abs(x: real): real {
    if x < 0.0 then -x else x
  }

  function Clamp(v: real, item: Item): real {
    var a := if item.minv.Some? && v < item.minv.value then item.minv.value else v;
    if item.maxv.Some? && a > item.maxv.value then item.maxv.value else a
  }

  /** A missing or vanishing scale counts as 1. */
  function Scale(item: Item): (s: real)
    ensures s != 0.0
  {
    var s := Or(item.scale, 1.0);
    if Abs(s) < 0.000000000001 then 1.0 else s
  }

  function Offset(item: Item): real {
    Or(item.offset, 0.0)
  }

  /** To the nearest integer, halves away from zero. */
  function Round(x: real): int {
    if x >= 0.0 then (x + 0.5).Floor else -((0.5 - x).Floor)
  }

  function Saturate(n: int, lo: int, hi: int): int {
    if n < lo then lo else if n > hi then hi else n
  }

  const MIN64: int := -0x8000_0000_0000_0000
  const MAX64: int := 0x7FFF_FFFF_FFFF_FFFF

  function RoundToI64(x: real): int {
    Saturate(Round(x), MIN64, MAX64)
  }

  /** The raw value before rounding. */
  function Wanted(v: real, item: Item): real {
    (Clamp(v, item) - Offset(item)) / Scale(item)
  }

  function EngineeringToRaw(v: real, item: Item): int {
    RoundToI64(Wanted(v, item))
  }

  // ---- Raw to words ----------------------------------------------------------------------

  function Lo(dword: bool, signed: bool): int {
    if !signed then 0 else if dword then -0x8000_0000 else -0x8000
  }

  function Hi(dword: bool, signed: bool): int {
    if dword then (if signed then 0x7FFF_FFFF else 0xFFFF_FFFF)
    else (if signed then 0x7FFF else 0xFFFF)
  }

  /** Two's complement in 16 bits. */
  function Low16(n: int): U16 {
    n % 0x1_0000
  }

  /** High word first. */
  function Split(u: nat): seq<U16>
    requires u < TWO32
  {
    [u / 0x1_0000, u % 0x1_0000]
  }

  function PackU16(raw: int): U16 {
    if raw < 0 then 0 else if raw > 65535 then 65535 else raw
  }

  function PackS16(raw: int): U16 {
    Low16(Saturate(raw, -32768, 32767))
  }

  /** The words of a saturated write. */
  function Image(raw: int, item: Item): seq<U16> {
    if item.dword then Split(Saturate(raw, Lo(true, item.signed), Hi(true, item.signed)) % TWO32)
    else if item.signed then [PackS16(raw)]
    else [PackU16(raw)]
  }

  /** The write for an item whose path does not resolve: a signed double word is cast to 32 bits
      instead of saturated. */
  function DefaultImage(raw: int, item: Item): seq<U16> {
    if item.dword && item.signed then Split(raw % TWO32) else Image(raw, item)
  }

  predicate IsPair(src: Source) {
    src.node.Number? && src.low.Some?
  }

  /** What is written for an integer item. */
  function Written(item: Item, src: Source): seq<U16> {
    match src.node
    case Missing => DefaultImage(EngineeringToRaw(Or(item.def, 0.0), item), item)
    case NotNumber => Image(EngineeringToRaw(Or(item.def, 0.0), item), item)
    case Number(v) =>
      if IsPair(src) then [PackU16(RoundToI64(v)), PackU16(RoundToI64(src.low.value))]
      else Image(EngineeringToRaw(v, item), item)
  }

  // ---- Reading back ----------------------------------------------------------------------

  function Combine(words: seq<U16>): nat {
    if |words| == 0 then 0 else Combine(words[..|words| - 1]) * 0x1_0000 + words[|words| - 1]
  }

  /** How the display reads the words: one or two, unsigned or two's complement. */
  function Read(words: seq<U16>, signed: bool): int
    requires |words| == 1 || |words| == 2
  {
    var u := Combine(words);
    var range := if |words| == 1 then 0x1_0000 else TWO32;
    if signed && u >= range / 2 then u - range else u
  }

  lemma CombineOne(w: U16)
    ensures Combine([w]) == w
  {
    assert [w][..0] == [];
  }

  lemma CombineTwo(h: U16, l: U16)
    ensures Combine([h, l]) == h * 0x1_0000 + l
  {
    assert [h, l][..1] == [h];
    CombineOne(h);
  }

  /** The high and low words recombine to the 32-bit value. */
  lemma SplitCombines(u: nat)
    requires u < TWO32
    ensures Combine(Split(u)) == u
  {
    CombineTwo(u / 0x1_0000, u % 0x1_0000);
  }

  /** A saturated write reads back as the raw value brought into the range of the register. */
  lemma ImageReadsBack(raw: int, item: Item)
    ensures |Image(raw, item)| == if item.dword then 2 else 1
    ensures Read(Image(raw, item), item.signed) ==
            Saturate(raw, Lo(item.dword, item.signed), Hi(item.dword, item.signed))
  {
    if item.dword {
      SplitCombines(Saturate(raw, Lo(true, item.signed), Hi(true, item.signed)) % TWO32);
    } else {
      CombineOne(if item.signed then PackS16(raw) else PackU16(raw));
    }
  }

  // ---- Rounding --------------------------------------------------------------------------

  function Apart(a: real, b: real): real {
    if a <= b then b - a else a - b
  }

  lemma RoundNear(x: real)
    ensures Apart(Round(x) as real, x) <= 0.5
  {}

  /** Of all integers in a range, the rounded and saturated one is nearest. */
  lemma NearestInRange(x: real, lo: int, hi: int, r: int)
    requires lo <= r <= hi
    ensures Apart(Saturate(Round(x), lo, hi) as real, x) <= Apart(r as real, x)
  {
    var n := Round(x);
    RoundNear(x);
    if lo <= n <= hi && r != n {
      assert r as real - n as real >= 1.0 || n as real - r as real >= 1.0;
    }
  }

  /** The 64-bit saturation in between is not felt. */
  lemma SaturateTwice(n: int, lo: int, hi: int)
    requires MIN64 <= lo <= hi <= MAX64
    ensures Saturate(Saturate(n, MIN64, MAX64), lo, hi) == Saturate(n, lo, hi)
  {}

  // ---- Accuracy --------------------------------------------------------------------------

  function Times(a: real, b: real): real {
    a * b
  }

  /** The engineering value of a raw register value, from that of one step and that of zero. */
  function Meaning(raw: int, s: real, o: real): real {
    Times(raw as real, s) + o
  }

  /** The distance of a raw value's meaning from a value is its distance from the raw value wanted,
      scaled. */
  lemma ScaledDistance(raw: int, w: real, s: real, o: real, c: real)
    requires Times(w, s) == c - o
    ensures Apart(Meaning(raw, s, o), c) == Times(Apart(raw as real, w), Apart(0.0, s))
  {
    var d := raw as real - w;
    assert Meaning(raw, s, o) - c == d * s by {
      assert d * s == Times(raw as real, s) - Times(w, s);
    }
    SizeOfTimes(d, s);
  }

  lemma SizeOfTimes(a: real, b: real)
    ensures Apart(a * b, 0.0) == Times(Apart(a, 0.0), Apart(0.0, b))
  {
    if a < 0.0 && b < 0.0 {
      assert a * b == (-a) * (-b);
      Positive(-a, -b);
    } else if a < 0.0 {
      assert a * b == -((-a) * b);
      Positive(-a, b);
    } else if b < 0.0 {
      assert a * b == -(a * (-b));
      Positive(a, -b);
    } else {
      Positive(a, b);
    }
  }

  lemma Positive(a: real, b: real)
    requires a >= 0.0 && b >= 0.0
    ensures a * b >= 0.0
  {}

  lemma Monotone(a: real, b: real, c: real)
    requires a <= b && c >= 0.0
    ensures Times(a, c) <= Times(b, c)
  {
    Positive(b - a, c);
    assert (b - a) * c == b * c - a * c;
  }

  /** A resolved item outside the pair case shows its rounded raw value, or the end of the
      register's range that the raw value lies beyond. */
  lemma WrittenSaturates(item: Item, v: real)
    ensures var words := Written(item, Source(Number(v), None));
            && |words| == (if item.dword then 2 else 1)
            && Read(words, item.signed) ==
               Saturate(Round(Wanted(v, item)), Lo(item.dword, item.signed), Hi(item.dword, item.signed))
  {
    ImageReadsBack(EngineeringToRaw(v, item), item);
    SaturateTwice(Round(Wanted(v, item)), Lo(item.dword, item.signed), Hi(item.dword, item.signed));
  }

  lemma NearestMeaning(w: real, s: real, o: real, c: real, lo: int, hi: int, r: int)
    requires Times(w, s) == c - o && lo <= r <= hi
    ensures Apart(Meaning(Saturate(Round(w), lo, hi), s, o), c) <= Apart(Meaning(r, s, o), c)
  {
    var n := Saturate(Round(w), lo, hi);
    NearestInRange(w, lo, hi, r);
    ScaledDistance(n, w, s, o, c);
    ScaledDistance(r, w, s, o, c);
    Monotone(Apart(n as real, w), Apart(r as real, w), Apart(0.0, s));
  }

  lemma HalfStep(w: real, s: real, o: real, c: real)
    requires Times(w, s) == c - o
    ensures Apart(Meaning(Round(w), s, o), c) <= Times(0.5, Apart(0.0, s))
  {
    RoundNear(w);
    ScaledDistance(Round(w), w, s, o, c);
    Monotone(Apart(Round(w) as real, w), 0.5, Apart(0.0, s));
  }

  /** The engineering value of one step of the register: the item's scale, where it has one and that
      does not vanish. */
  predicate IsStep(item: Item, s: real) {
    s == if item.scale.Some? && (item.scale.value >= 1e-12 || item.scale.value <= -1e-12) then item.scale.value
         else 1.0
  }

  /** The engineering value of a register that holds zero. */
  predicate IsZero(item: Item, o: real) {
    o == if item.offset.Some? then item.offset.value else 0.0
  }

  /** A value cut to the item's bounds, the upper one counting where they cross. */
  predicate IsCut(item: Item, v: real, c: real) {
    if item.maxv.Some? && (v > item.maxv.value || (item.minv.Some? && item.minv.value > item.maxv.value))
    then c == item.maxv.value
    else if item.minv.Some? && v < item.minv.value then c == item.minv.value
    else c == v
  }

  /** The numbers that one or two words can show. */
  predicate Showable(item: Item, r: int) {
    if item.dword then (if item.signed then -2147483648 <= r <= 2147483647 else 0 <= r <= 4294967295)
    else (if item.signed then -32768 <= r <= 32767 else 0 <= r <= 65535)
  }

  /** The raw value wanted, by the item's own fields, and what is shown of it. */
  lemma Shown(item: Item, v: real, s: real, o: real, c: real, lo: int, hi: int) returns (w: real)
    requires IsStep(item, s) && IsZero(item, o) && IsCut(item, v, c)
    requires forall r :: Showable(item, r) <==> lo <= r <= hi
    ensures Times(w, s) == c - o && s != 0.0
    ensures var words := Written(item, Source(Number(v), None));
            |words| == (if item.dword then 2 else 1) && Read(words, item.signed) == Saturate(Round(w), lo, hi)
  {
    w := Wanted(v, item);
    assert s == Scale(item) && o == Offset(item) && c == Clamp(v, item);
    Quotient(c - o, s);
    WrittenSaturates(item, v);
    SameEnds(item, lo, hi);
  }

  lemma Quotient(a: real, s: real)
    requires s != 0.0
    ensures Times(a / s, s) == a
  {}

  lemma SameEnds(item: Item, lo: int, hi: int)
    requires forall r :: Showable(item, r) <==> lo <= r <= hi
    ensures lo == Lo(item.dword, item.signed) && hi == Hi(item.dword, item.signed)
  {
    var l, h := Lo(item.dword, item.signed), Hi(item.dword, item.signed);
    assert Showable(item, l) && Showable(item, h) && !Showable(item, l - 1) && !Showable(item, h + 1);
    assert lo <= l && h <= hi && Showable(item, lo) && Showable(item, hi);
  }

  lemma Ends(item: Item) returns (lo: int, hi: int)
    ensures forall r :: Showable(item, r) <==> lo <= r <= hi
    ensures lo <= hi
  {
    lo, hi := Lo(item.dword, item.signed), Hi(item.dword, item.signed);
  }

  /** What it shows is the nearest to the value, cut to the item's bounds, of everything the
      register can show, by the item's own scale and offset. */
  lemma WrittenIsNearest(item: Item, v: real, s: real, o: real, c: real, r: int)
    requires IsStep(item, s) && IsZero(item, o) && IsCut(item, v, c) && Showable(item, r)
    ensures var words := Written(item, Source(Number(v), None));
            && |words| == (if item.dword then 2 else 1)
            && var shown := Read(words, item.signed);
               Showable(item, shown) && Apart(Meaning(shown, s, o), c) <= Apart(Meaning(r, s, o), c)
  {
    var lo, hi := Ends(item);
    var w := Shown(item, v, s, o, c, lo, hi);
    NearestMeaning(w, s, o, c, lo, hi, r);
  }

  /** And it is within half a step of a value that lies between two that the register can show. */
  lemma WrittenWithinHalfStep(item: Item, v: real, s: real, o: real, c: real, p: int, q: int)
    requires IsStep(item, s) && IsZero(item, o) && IsCut(item, v, c) && Showable(item, p) && Showable(item, q)
    requires Meaning(p, s, o) <= c <= Meaning(q, s, o)
    ensures var words := Written(item, Source(Number(v), None));
            && |words| == (if item.dword then 2 else 1)
            && Apart(Meaning(Read(words, item.signed), s, o), c) <= Times(0.5, Apart(0.0, s))
  {
    var lo, hi := Ends(item);
    var w := Shown(item, v, s, o, c, lo, hi);
    HalfStep(w, s, o, c);
    RoundBetween(w, s, o, c, p, q);
  }

  lemma RoundBetween(w: real, s: real, o: real, c: real, p: int, q: int)
    requires s != 0.0 && Times(w, s) == c - o && Meaning(p, s, o) <= c <= Meaning(q, s, o)
    ensures p <= Round(w) <= q || q <= Round(w) <= p
  {
    if s > 0.0 {
      Shorten(p as real, w, s);
      Shorten(w, q as real, s);
    } else {
      Shorten(q as real, w, s);
      Shorten(w, p as real, s);
    }
  }

  lemma Shorten(a: real, b: real, s: real)
    requires if s > 0.0 then Times(a, s) <= Times(b, s) else s < 0.0 && Times(a, s) >= Times(b, s)
    ensures a <= b
  {}

  /** A value half way between two is shown as the one further from the item's zero. */
  lemma WrittenTie(item: Item, v: real, s: real, o: real, c: real, k: nat)
    requires IsStep(item, s) && IsZero(item, o) && IsCut(item, v, c)
    ensures var words := Written(item, Source(Number(v), None));
            && |words| == (if item.dword then 2 else 1)
            && (c - o == Times(k as real + 0.5, s) && Showable(item, k + 1) ==> Read(words, item.signed) == k + 1)
            && (c - o == Times(-(k as real) - 0.5, s) && Showable(item, -1 - k) ==> Read(words, item.signed) == -1 - k)
  {
    var lo, hi := Ends(item);
    var w := Shown(item, v, s, o, c, lo, hi);
    if c - o == Times(k as real + 0.5, s) {
      Cancel(w, k as real + 0.5, s);
      RoundTie(k);
    }
    if c - o == Times(-(k as real) - 0.5, s) {
      Cancel(w, -(k as real) - 0.5, s);
      RoundTie(k);
    }
  }

  lemma RoundTie(k: nat)
    ensures Round(k as real + 0.5) == k + 1 && Round(-(k as real) - 0.5) == -1 - k
  {}

  lemma Cancel(a: real, b: real, s: real)
    requires s != 0.0 && Times(a, s) == Times(b, s)
    ensures a == b
  {}

  /** A node that is not a number is shown as the item's default would be. */
  lemma NotNumberShowsDefault(item: Item, low: Option<real>)
    ensures Written(item, Source(NotNumber, low)) ==
            Written(item, Source(Number(if item.def.Some? then item.def.value else 0.0), None))
  {}

  /** A pair of numbers in range reads back as the number it was split from. */
  lemma PairReadsBack(item: Item, u: nat)
    requires u < TWO32
    ensures var words := Written(item, Source(Number((u / 0x1_0000) as real), Some((u % 0x1_0000) as real)));
            |words| == 2 && Read(words, false) == u
  {
    var h, l := u / 0x1_0000, u % 0x1_0000;
    assert Round(h as real) == h && Round(l as real) == l;
    CombineTwo(h, l);
  }

  /** Any pair is shown as two unsigned words would be that have no scale, offset or bounds. */
  lemma PairIsTwoWords(item: Item, h: real, l: real, word: Item)
    requires !word.dword && !word.signed
    requires word.minv == None && word.maxv == None && word.scale == None && word.offset == None
    ensures Written(item, Source(Number(h), Some(l))) ==
            Written(word, Source(Number(h), None)) + Written(word, Source(Number(l), None))
  {
    assert Wanted(h, word) == h && Wanted(l, word) == l;
  }

  // ---- Items whose path does not resolve -------------------------------------------------

  /** A default is shown saturated like any value, except in a signed double word, where a raw
      value outside 32 bits wraps around: it is shown as the raw value congruent to it. */
  lemma DefaultReadsBack(item: Item)
    ensures var raw := EngineeringToRaw(Or(item.def, 0.0), item);
            var words := Written(item, Source(Missing, None));
            && |words| == (if item.dword then 2 else 1)
            && Read(words, item.signed) ==
               if item.dword && item.signed then (raw + 0x8000_0000) % TWO32 - 0x8000_0000
               else Saturate(raw, Lo(item.dword, item.signed), Hi(item.dword, item.signed))
  {
    var raw := EngineeringToRaw(Or(item.def, 0.0), item);
    if item.dword && item.signed {
      SplitCombines(raw % TWO32);
      WrapSigned(raw);
    } else {
      ImageReadsBack(raw, item);
    }
  }

  lemma WrapSigned(raw: int)
    ensures var u := raw % TWO32;
            (raw + 0x8000_0000) % TWO32 - 0x8000_0000 == if u >= 0x8000_0000 then u - TWO32 else u
  {}

  /** So such a default saturates exactly when it fits 32 bits, or lies a multiple of 2^32 beyond
      the end it saturates to. */
  lemma DefaultSaturatesIff(item: Item)
    requires item.dword && item.signed
    ensures var raw := EngineeringToRaw(Or(item.def, 0.0), item);
            var words := Written(item, Source(Missing, None));
            |words| == 2 &&
            (Read(words, true) == Saturate(raw, -0x8000_0000, 0x7FFF_FFFF) <==>
             || -0x8000_0000 <= raw <= 0x7FFF_FFFF
             || (raw > 0 && (raw - 0x7FFF_FFFF) % TWO32 == 0)
             || (raw < 0 && (raw + 0x8000_0000) % TWO32 == 0))
  {
    DefaultReadsBack(item);
    WrapIff(EngineeringToRaw(Or(item.def, 0.0), item));
  }

  /** The case: a default of three thousand million is shown as a negative number. */
  lemma DefaultShownNegative(addr: U16)
    ensures var item := Item(addr, true, true, None, None, None, None, Some(3000000000.0));
            var words := Written(item, Source(Missing, None));
            |words| == 2 && Read(words, true) == -1294967296
  {
    var item := Item(addr, true, true, None, None, None, None, Some(3000000000.0));
    assert Wanted(3000000000.0, item) == 3000000000.0;
    assert EngineeringToRaw(3000000000.0, item) == 3000000000;
    DefaultReadsBack(item);
  }

  /** A default that is a whole number is shown modulo 2^32, cut to 64 bits before. */
  lemma DefaultWraps(item: Item, k: int)
    requires item.dword && item.signed && item.def == Some(k as real)
    requires item.minv == None && item.maxv == None && item.scale == None && item.offset == None
    ensures var words := Written(item, Source(Missing, None));
            |words| == 2 &&
            (if k > 9223372036854775807 then Read(words, true) == -1
             else if k < -9223372036854775808 then Read(words, true) == 0
             else -2147483648 <= Read(words, true) <= 2147483647 && (Read(words, true) - k) % 4294967296 == 0)
  {
    assert Wanted(k as real, item) == k as real && Round(k as real) == k;
    DefaultReadsBack(item);
    WrapCongruent(k);
  }

  lemma WrapCongruent(k: int)
    ensures ((k + 0x8000_0000) % TWO32 - 0x8000_0000 - k) % TWO32 == 0
  {}

  lemma WrapIff(raw: int)
    ensures (raw + 0x8000_0000) % TWO32 - 0x8000_0000 == Saturate(raw, -0x8000_0000, 0x7FFF_FFFF) <==>
            || -0x8000_0000 <= raw <= 0x7FFF_FFFF
            || (raw > 0 && (raw - 0x7FFF_FFFF) % TWO32 == 0)
            || (raw < 0 && (raw + 0x8000_0000) % TWO32 == 0)
  {}

  // ---- The registers ---------------------------------------------------------------------

  /** Consecutive writes from an address on, the address wrapping in 16 bits. */
  function Put(regs: map<U16, U16>, addr: U16, words: seq<U16>): map<U16, U16> {
    if |words| == 0 then regs
    else Put(regs, addr, words[..|words| - 1])[Low16(addr + |words| - 1) := words[|words| - 1]]
  }

  lemma {:induction false} PutOne(regs: map<U16, U16>, addr: U16, w: U16)
    ensures Put(regs, addr, [w]) == regs[addr := w]
  {
    assert [w][..0] == [];
    assert Put(regs, addr, []) == regs;
  }

  lemma {:induction false} PutTwo(regs: map<U16, U16>, addr: U16, h: U16, l: U16)
    ensures Put(regs, addr, [h, l]) == regs[addr := h][Low16(addr + 1) := l]
  {
    assert [h, l][..1] == [h];
    PutOne(regs, addr, h);
  }

  datatype Write = Write(item: Item, src: Source)

  /** One or two words and where they go. */
  datatype Block = Block(addr: U16, words: seq<U16>)

  function BlockOf(w: Write): (b: Block)
    ensures |b.words| == 1 || |b.words| == 2
  {
    Block(w.item.addr, Written(w.item, w.src))
  }

  function Blocks(writes: seq<Write>): (r: seq<Block>)
    ensures |r| == |writes| && forall k :: 0 <= k < |r| ==> r[k] == BlockOf(writes[k])
  {
    seq(|writes|, k requires 0 <= k < |writes| => BlockOf(writes[k]))
  }

  function Stored(regs: map<U16, U16>, blocks: seq<Block>): map<U16, U16> {
    if |blocks| == 0 then regs
    else
      var b := blocks[|blocks| - 1];
      Put(Stored(regs, blocks[..|blocks| - 1]), b.addr, b.words)
  }

  predicate Covers(b: Block, a: U16) {
    a == b.addr || (|b.words| == 2 && a == Low16(b.addr + 1))
  }

  lemma {:induction false} PutAt(regs: map<U16, U16>, addr: U16, words: seq<U16>, a: U16)
    requires |words| == 1 || |words| == 2
    ensures var now := Put(regs, addr, words);
            if |words| == 2 && a == Low16(addr + 1) then a in now && now[a] == words[1]
            else if a == addr then a in now && now[a] == words[0]
            else (a in now <==> a in regs) && (a in now ==> now[a] == regs[a])
  {
    if |words| == 2 {
      assert words == [words[0], words[1]];
      PutTwo(regs, addr, words[0], words[1]);
    } else {
      assert words == [words[0]];
      PutOne(regs, addr, words[0]);
    }
  }

  predicate Sized(blocks: seq<Block>) {
    forall k :: 0 <= k < |blocks| ==> |blocks[k].words| == 1 || |blocks[k].words| == 2
  }

  predicate Holds(regs: map<U16, U16>, a: U16, w: U16) {
    a in regs && regs[a] == w
  }

  /** A register keeps what it held through blocks that do not cover it. */
  lemma {:induction false} StoredKeeps(regs: map<U16, U16>, blocks: seq<Block>, a: U16, w: U16)
    requires Sized(blocks) && Holds(regs, a, w) && forall k :: 0 <= k < |blocks| ==> !Covers(blocks[k], a)
    ensures Holds(Stored(regs, blocks), a, w)
  {
    if |blocks| > 0 {
      var n := |blocks| - 1;
      StoredKeeps(regs, blocks[..n], a, w);
      assert !Covers(blocks[n], a);
      PutAt(Stored(regs, blocks[..n]), blocks[n].addr, blocks[n].words, a);
    }
  }

  lemma {:induction false} StoredSplit(regs: map<U16, U16>, a: seq<Block>, b: seq<Block>)
    ensures Stored(regs, a + b) == Stored(Stored(regs, a), b)
  {
    if |b| == 0 {
      assert a + b == a;
    } else {
      var n := |b| - 1;
      StoredSplit(regs, a, b[..n]);
      Butlast(a, b);
    }
  }

  lemma Butlast(a: seq<Block>, b: seq<Block>)
    requires |b| > 0
    ensures (a + b)[|a + b| - 1] == b[|b| - 1] && (a + b)[..|a + b| - 1] == a + b[..|b| - 1]
  {}

  /** The word a block puts in a register it covers. */
  function WordAt(b: Block, a: U16): U16
    requires |b.words| == 1 || |b.words| == 2
  {
    if |b.words| == 2 && a == Low16(b.addr + 1) then b.words[1] else b.words[0]
  }

  /** After a flush a register holds the word of the last block that covers it, register by
      register: a block overwritten in one register keeps its word in the other. */
  lemma {:induction false} RegisterHoldsLast(regs: map<U16, U16>, before: seq<Block>, b: Block, rest: seq<Block>,
                                             a: U16)
    requires Sized(before + [b] + rest) && Covers(b, a)
    requires |b.words| == 1 || |b.words| == 2
    requires forall k :: 0 <= k < |rest| ==> !Covers(rest[k], a)
    ensures Holds(Stored(regs, before + [b] + rest), a, WordAt(b, a))
  {
    var was := Stored(regs, before);
    var now := Put(was, b.addr, b.words);
    StoredSplit(regs, before + [b], rest);
    assert (before + [b])[..|before|] == before;
    assert Stored(regs, before + [b]) == now;
    PutAt(was, b.addr, b.words, a);
    assert Sized(rest) by {
      assert forall k :: 0 <= k < |rest| ==> rest[k] == (before + [b] + rest)[|before| + 1 + k];
    }
    StoredKeeps(now, rest, a, WordAt(b, a));
  }

  lemma InWord(u: nat)
    requires u < TWO32
    ensures u % TWO32 == u
  {}

  /** HMIProto's readable integer registers. */
  class HmiRegisters {
    var ints: map<U16, U16>

    method SetIntRead(addr: U16, value: U16)
      modifies this
      ensures ints == old(ints)[addr := value]
    {
      ints := ints[addr := value];
    }

    method WriteU32(addr: U16, value: nat)
      requires value < TWO32
      modifies this
      ensures ints == Put(old(ints), addr, Split(value))
    {
      SetIntRead(addr, value / 0x1_0000);
      SetIntRead(Low16(addr + 1), value % 0x1_0000);
      PutTwo(old(ints), addr, value / 0x1_0000, value % 0x1_0000);
    }

    method WriteS32(addr: U16, value: int)
      requires -0x8000_0000 <= value <= 0x7FFF_FFFF
      modifies this
      ensures ints == Put(old(ints), addr, Split(value % TWO32))
    {
      WriteU32(addr, value % TWO32);
    }

    method WriteWord(addr: U16, value: U16)
      modifies this
      ensures ints == Put(old(ints), addr, [value])
    {
      SetIntRead(addr, value);
      PutOne(old(ints), addr, value);
    }

    method WriteDword(addr: U16, signed: bool, raw: int)
      modifies this
      ensures ints == Put(old(ints), addr, Split(Saturate(raw, Lo(true, signed), Hi(true, signed)) % TWO32))
    {
      if signed {
        var s := raw;
        if s < -0x8000_0000 { s := -0x8000_0000; }
        if s > 0x7FFF_FFFF { s := 0x7FFF_FFFF; }
        assert s == Saturate(raw, Lo(true, signed), Hi(true, signed));
        WriteS32(addr, s);
      } else {
        var u := if raw <= 0 then 0 else if raw >= 0xFFFF_FFFF then 0xFFFF_FFFF else raw;
        assert u == Saturate(raw, Lo(true, signed), Hi(true, signed));
        InWord(u);
        WriteU32(addr, u);
      }
    }

    /** The integer branch of flushFromModel for an item whose value is known. */
    method WriteRaw(item: Item, raw: int)
      modifies this
      ensures ints == Put(old(ints), item.addr, Image(raw, item))
    {
      if item.dword {
        WriteDword(item.addr, item.signed, raw);
      } else {
        WriteWord(item.addr, if item.signed then PackS16(raw) else PackU16(raw));
      }
    }

    method WriteItem(item: Item, src: Source)
      modifies this
      ensures ints == Put(old(ints), item.addr, Written(item, src))
    {
      if src.node.Missing? {
        var raw := EngineeringToRaw(Or(item.def, 0.0), item);
        if item.dword && item.signed {
          WriteU32(item.addr, raw % TWO32);
        } else {
          WriteRaw(item, raw);
        }
        return;
      }
      var value := if src.node.Number? then src.node.value else Or(item.def, 0.0);
      if src.node.Number? && src.low.Some? {
        var h, l := PackU16(RoundToI64(value)), PackU16(RoundToI64(src.low.value));
        SetIntRead(item.addr, h);
        SetIntRead(Low16(item.addr + 1), l);
        PutTwo(old(ints), item.addr, h, l);
        return;
      }
      WriteRaw(item, EngineeringToRaw(value, item));
    }

    /** The loop of flushFromModel over the integer items. */
    method Flush(writes: seq<Write>)
      modifies this
      ensures ints == Stored(old(ints), Blocks(writes))
    {
      ghost var blocks := Blocks(writes);
      var k := 0;
      while k < |writes|
        invariant 0 <= k <= |writes| && ints == Stored(old(ints), blocks[..k])
      {
        assert blocks[..k + 1][..k] == blocks[..k];
        WriteItem(writes[k].item, writes[k].src);
        k := k + 1;
      }
      assert blocks[..k] == blocks;
    }
  }
}
