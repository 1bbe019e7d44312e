/** XTEA worked out bit by bit: shifts that move bits, addition with carries, exclusive or of single bits. Any number
    of rounds of the cipher are this, for every block and key, which gives the 32 rounds of a known answer by
    evaluation. */
module XteaBits {
  import opened Bytes
  import opened Words
  import opened Xtea

  /** A hexadecimal digit, bit 3 first. */
  datatype Digit = Digit(p: bool, q: bool, r: bool, s: bool)

  const X0 := Digit(false, false, false, false)
  const X1 := Digit(false, false, false, true)
  const X2 := Digit(false, false, true, false)
  const X3 := Digit(false, false, true, true)
  const X4 := Digit(false, true, false, false)
  const X5 := Digit(false, true, false, true)
  const X6 := Digit(false, true, true, false)
  const X7 := Digit(false, true, true, true)
  const X8 := Digit(true, false, false, false)
  const X9 := Digit(true, false, false, true)
  const XA := Digit(true, false, true, false)
  const XB := Digit(true, false, true, true)
  const XC := Digit(true, true, false, false)
  const XD := Digit(true, true, false, true)
  const XE := Digit(true, true, true, false)
  const XF := Digit(true, true, true, true)

  /** A word, the most significant digit first. */
  datatype Hex = Hex(a: Digit, b: Digit, c: Digit, d: Digit, e: Digit, f: Digit, g: Digit, h: Digit)

  // ---- the number a word stands for, `w` being the weight of a bit ----

  function One(p: bool): nat {
    if p then 1 else 0
  }

  function WeighDigit(w: bool -> nat, d: Digit): nat {
    8 * w(d.p) + 4 * w(d.q) + 2 * w(d.r) + w(d.s)
  }

  function Weigh(w: bool -> nat, x: Hex): nat {
    WeighDigit(w, x.a) * 0x1000_0000 + WeighDigit(w, x.b) * 0x100_0000 + WeighDigit(w, x.c) * 0x10_0000
    + WeighDigit(w, x.d) * 0x1_0000 + WeighDigit(w, x.e) * 0x1000 + WeighDigit(w, x.f) * 0x100
    + WeighDigit(w, x.g) * 0x10 + WeighDigit(w, x.h)
  }

  lemma DigitBound(w: bool -> nat, d: Digit)
    requires forall p :: w(p) < 2
    ensures WeighDigit(w, d) < 16
  {
  }

  lemma WordBound(w: bool -> nat, x: Hex)
    requires forall p :: w(p) < 2
    ensures Weigh(w, x) < 0x1_0000_0000
  {
    DigitBound(w, x.a);
    DigitBound(w, x.b);
    DigitBound(w, x.c);
    DigitBound(w, x.d);
    DigitBound(w, x.e);
    DigitBound(w, x.f);
    DigitBound(w, x.g);
    DigitBound(w, x.h);
  }

  function Value(x: Hex): word {
    WordBound(One, x);
    Weigh(One, x)
  }

  // ---- shifts ----

  function Left(x: Hex): Hex {
    Hex(x.b, x.c, x.d, x.e, x.f, x.g, x.h, X0)
  }

  /** The last bit of `x` and the first three of `y`. */
  function Between(x: Digit, y: Digit): Digit {
    Digit(x.s, y.p, y.q, y.r)
  }

  function Down(x: Hex): Hex {
    Hex(X0, Between(X0, x.a), Between(x.a, x.b), Between(x.b, x.c), Between(x.c, x.d), Between(x.d, x.e),
        Between(x.e, x.f), Between(x.f, x.g))
  }

  lemma LeftWeighs(w: bool -> nat, x: Hex)
    requires w(false) == 0
    ensures 16 * Weigh(w, x) == 0x1_0000_0000 * WeighDigit(w, x.a) + Weigh(w, Left(x))
  {
  }

  lemma Sixteen(v: word, l: nat, a: nat)
    requires 16 * v == 0x1_0000_0000 * a + l && l < 0x1_0000_0000
    ensures ShiftLeft(v, 4) == l
  {
    assert Power2(4) == 16;
    RemainderUnique(v * 16, 0x1_0000_0000, a, l);
  }

  lemma LeftIs(x: Hex)
    ensures ShiftLeft(Value(x), 4) == Value(Left(x))
  {
    LeftWeighs(One, x);
    Sixteen(Value(x), Value(Left(x)), WeighDigit(One, x.a));
  }

  lemma BetweenWeighs(w: bool -> nat, x: Digit, y: Digit)
    ensures 2 * WeighDigit(w, Between(x, y)) + w(y.s) == 16 * w(x.s) + WeighDigit(w, y)
  {
  }

  lemma DownWeighs(w: bool -> nat, x: Hex)
    requires w(false) == 0
    ensures Weigh(w, x) == 32 * Weigh(w, Down(x)) + 16 * w(x.g.s) + WeighDigit(w, x.h)
  {
    BetweenWeighs(w, X0, x.a);
    BetweenWeighs(w, x.a, x.b);
    BetweenWeighs(w, x.b, x.c);
    BetweenWeighs(w, x.c, x.d);
    BetweenWeighs(w, x.d, x.e);
    BetweenWeighs(w, x.e, x.f);
    BetweenWeighs(w, x.f, x.g);
  }

  lemma Quotient(v: nat, q: nat, r: nat)
    requires v == 32 * q + r && r < 32
    ensures v / 32 == q
  {
    RemainderUnique(v, 32, q, r);
  }

  lemma DownIs(x: Hex)
    ensures Value(x) / 32 == Value(Down(x))
  {
    DownWeighs(One, x);
    DigitBound(One, x.h);
    Quotient(Value(x), Value(Down(x)), 16 * One(x.g.s) + WeighDigit(One, x.h));
  }

  // ---- exclusive or ----

  function XorDigit(x: Digit, y: Digit): Digit {
    Digit(x.p != y.p, x.q != y.q, x.r != y.r, x.s != y.s)
  }

  function XorHex(x: Hex, y: Hex): Hex {
    Hex(XorDigit(x.a, y.a), XorDigit(x.b, y.b), XorDigit(x.c, y.c), XorDigit(x.d, y.d),
        XorDigit(x.e, y.e), XorDigit(x.f, y.f), XorDigit(x.g, y.g), XorDigit(x.h, y.h))
  }

  function Differ(s: nat, t: nat): nat {
    if s == t then 0 else 1
  }

  lemma BitBehind(u: nat, v: nat, s: nat, t: nat, a: nat, b: nat)
    requires s < 2 && t < 2 && a == 2 * u + s && b == 2 * v + t
    ensures XorBits(a, b) == 2 * XorBits(u, v) + Differ(s, t)
  {
    assert a / 2 == u && b / 2 == v && a % 2 == s && b % 2 == t;
  }

  lemma BitsBehind(u: nat, v: nat, p: nat, q: nat, r: nat, s: nat, p': nat, q': nat, r': nat, s': nat, a: nat, b: nat)
    requires p < 2 && q < 2 && r < 2 && s < 2 && a == 16 * u + 8 * p + 4 * q + 2 * r + s
    requires p' < 2 && q' < 2 && r' < 2 && s' < 2 && b == 16 * v + 8 * p' + 4 * q' + 2 * r' + s'
    ensures XorBits(a, b)
         == 16 * XorBits(u, v) + 8 * Differ(p, p') + 4 * Differ(q, q') + 2 * Differ(r, r') + Differ(s, s')
  {
    var a1, b1 := 2 * u + p, 2 * v + p';
    var a2, b2 := 2 * a1 + q, 2 * b1 + q';
    var a3, b3 := 2 * a2 + r, 2 * b2 + r';
    BitBehind(u, v, p, p', a1, b1);
    BitBehind(a1, b1, q, q', a2, b2);
    BitBehind(a2, b2, r, r', a3, b3);
    BitBehind(a3, b3, s, s', a, b);
  }

  lemma DigitOfXor(x: Digit, y: Digit)
    ensures WeighDigit(One, XorDigit(x, y))
         == 8 * Differ(One(x.p), One(y.p)) + 4 * Differ(One(x.q), One(y.q))
            + 2 * Differ(One(x.r), One(y.r)) + Differ(One(x.s), One(y.s))
  {
  }

  lemma DigitBehind(u: nat, v: nat, x: Digit, y: Digit, a: nat, b: nat)
    requires a == 16 * u + WeighDigit(One, x) && b == 16 * v + WeighDigit(One, y)
    ensures XorBits(a, b) == 16 * XorBits(u, v) + WeighDigit(One, XorDigit(x, y))
  {
    DigitOfXor(x, y);
    BitsBehind(u, v, One(x.p), One(x.q), One(x.r), One(x.s), One(y.p), One(y.q), One(y.r), One(y.s), a, b);
  }

  /** Two more digits on either side. */
  lemma TwoBehind(u: nat, v: nat, m: nat, n: nat, x: Digit, x': Digit, y: Digit, y': Digit, a: nat, b: nat)
    requires m == 16 * u + WeighDigit(One, x) && n == 16 * v + WeighDigit(One, y)
    requires a == 16 * m + WeighDigit(One, x') && b == 16 * n + WeighDigit(One, y')
    ensures XorBits(a, b)
         == 0x100 * XorBits(u, v) + 16 * WeighDigit(One, XorDigit(x, y)) + WeighDigit(One, XorDigit(x', y'))
  {
    DigitBehind(u, v, x, y, m, n);
    DigitBehind(m, n, x', y', a, b);
  }

  lemma XorIsHex(x: Hex, y: Hex)
    ensures XorBits(Value(x), Value(y)) == Value(XorHex(x, y))
  {
    var xa, ya := WeighDigit(One, x.a), WeighDigit(One, y.a);
    var xb, yb := 16 * xa + WeighDigit(One, x.b), 16 * ya + WeighDigit(One, y.b);
    var xc, yc := 16 * xb + WeighDigit(One, x.c), 16 * yb + WeighDigit(One, y.c);
    var xd, yd := 16 * xc + WeighDigit(One, x.d), 16 * yc + WeighDigit(One, y.d);
    var xe, ye := 16 * xd + WeighDigit(One, x.e), 16 * yd + WeighDigit(One, y.e);
    var xf, yf := 16 * xe + WeighDigit(One, x.f), 16 * ye + WeighDigit(One, y.f);
    var xg, yg := 16 * xf + WeighDigit(One, x.g), 16 * yf + WeighDigit(One, y.g);
    TwoBehind(0, 0, xa, ya, x.a, x.b, y.a, y.b, xb, yb);
    TwoBehind(xb, yb, xc, yc, x.c, x.d, y.c, y.d, xd, yd);
    TwoBehind(xd, yd, xe, ye, x.e, x.f, y.e, y.f, xf, yf);
    TwoBehind(xf, yf, xg, yg, x.g, x.h, y.g, y.h, Value(x), Value(y));
  }

  // ---- addition ----

  datatype Carried = Carried(digit: Digit, carry: bool)

  function Majority(x: bool, y: bool, c: bool): bool {
    (x && y) || (c && (x || y))
  }

  function AddDigit(x: Digit, y: Digit, c: bool): Carried {
    var c1 := Majority(x.s, y.s, c);
    var c2 := Majority(x.r, y.r, c1);
    var c3 := Majority(x.q, y.q, c2);
    Carried(Digit(x.p != (y.p != c3), x.q != (y.q != c2), x.r != (y.r != c1), x.s != (y.s != c)),
            Majority(x.p, y.p, c3))
  }

  /** Addition, one digit after the other; the carry out of the first one is lost. */
  function AddBy(add: (Digit, Digit, bool) -> Carried, x: Hex, y: Hex): Hex {
    var h := add(x.h, y.h, false);
    var g := add(x.g, y.g, h.carry);
    var f := add(x.f, y.f, g.carry);
    var e := add(x.e, y.e, f.carry);
    var d := add(x.d, y.d, e.carry);
    var c := add(x.c, y.c, d.carry);
    var b := add(x.b, y.b, c.carry);
    var a := add(x.a, y.a, b.carry);
    Hex(a.digit, b.digit, c.digit, d.digit, e.digit, f.digit, g.digit, h.digit)
  }

  function AddHex(x: Hex, y: Hex): Hex {
    AddBy(AddDigit, x, y)
  }

  lemma FullAdder(x: bool, y: bool, c: bool)
    ensures One(x) + One(y) + One(c) == One(x != (y != c)) + 2 * One(Majority(x, y, c))
  {
  }

  lemma Places(w: bool -> nat, x: Digit, y: Digit, z: Digit, c: bool, c1: bool, c2: bool, c3: bool, c4: bool)
    requires w(x.s) + w(y.s) + w(c) == w(z.s) + 2 * w(c1) && w(x.r) + w(y.r) + w(c1) == w(z.r) + 2 * w(c2)
    requires w(x.q) + w(y.q) + w(c2) == w(z.q) + 2 * w(c3) && w(x.p) + w(y.p) + w(c3) == w(z.p) + 2 * w(c4)
    ensures WeighDigit(w, x) + WeighDigit(w, y) + w(c) == WeighDigit(w, z) + 16 * w(c4)
  {
  }

  lemma AddDigitIs(x: Digit, y: Digit, c: bool)
    ensures var z := AddDigit(x, y, c);
            WeighDigit(One, x) + WeighDigit(One, y) + One(c) == WeighDigit(One, z.digit) + 16 * One(z.carry)
  {
    var c1 := Majority(x.s, y.s, c);
    var c2 := Majority(x.r, y.r, c1);
    var c3 := Majority(x.q, y.q, c2);
    FullAdder(x.s, y.s, c);
    FullAdder(x.r, y.r, c1);
    FullAdder(x.q, y.q, c2);
    FullAdder(x.p, y.p, c3);
    Places(One, x, y, AddDigit(x, y, c).digit, c, c1, c2, c3, AddDigit(x, y, c).carry);
  }

  ghost predicate Counts(w: bool -> nat, x: Digit, y: Digit, c: bool, z: Carried) {
    WeighDigit(w, x) + WeighDigit(w, y) + w(c) == WeighDigit(w, z.digit) + 16 * w(z.carry)
  }

  lemma Columns(w: bool -> nat, x: Hex, y: Hex, a: Carried, b: Carried, c: Carried, d: Carried, e: Carried, f: Carried,
                g: Carried, h: Carried)
    requires w(false) == 0
    requires Counts(w, x.h, y.h, false, h) && Counts(w, x.g, y.g, h.carry, g) && Counts(w, x.f, y.f, g.carry, f)
    requires Counts(w, x.e, y.e, f.carry, e) && Counts(w, x.d, y.d, e.carry, d) && Counts(w, x.c, y.c, d.carry, c)
    requires Counts(w, x.b, y.b, c.carry, b) && Counts(w, x.a, y.a, b.carry, a)
    ensures Weigh(w, x) + Weigh(w, y)
         == Weigh(w, Hex(a.digit, b.digit, c.digit, d.digit, e.digit, f.digit, g.digit, h.digit))
            + 0x1_0000_0000 * w(a.carry)
  {
  }

  lemma Finish(a: word, b: word, s: word, c: nat)
    requires a + b == s + 0x1_0000_0000 * c && c < 2
    ensures Add(a, b) == s
  {
  }

  lemma Ripple(w: bool -> nat, add: (Digit, Digit, bool) -> Carried, x: Hex, y: Hex) returns (carry: bool)
    requires w(false) == 0 && forall d, e, c :: Counts(w, d, e, c, add(d, e, c))
    ensures Weigh(w, x) + Weigh(w, y) == Weigh(w, AddBy(add, x, y)) + 0x1_0000_0000 * w(carry)
  {
    var h := add(x.h, y.h, false);
    var g := add(x.g, y.g, h.carry);
    var f := add(x.f, y.f, g.carry);
    var e := add(x.e, y.e, f.carry);
    var d := add(x.d, y.d, e.carry);
    var c := add(x.c, y.c, d.carry);
    var b := add(x.b, y.b, c.carry);
    var a := add(x.a, y.a, b.carry);
    carry := a.carry;
    Columns(w, x, y, a, b, c, d, e, f, g, h);
  }

  lemma AddIsHex(x: Hex, y: Hex)
    ensures Add(Value(x), Value(y)) == Value(AddHex(x, y))
  {
    forall d, e, c
      ensures Counts(One, d, e, c, AddDigit(d, e, c))
    {
      AddDigitIs(d, e, c);
    }
    assert forall d, e, c :: Counts(One, d, e, c, AddDigit(d, e, c));
    var carry := Ripple(One, AddDigit, x, y);
    Finish(Value(x), Value(y), Value(AddHex(x, y)), One(carry));
  }

  // ---- a round ----

  datatype Keys = Keys(k0: Hex, k1: Hex, k2: Hex, k3: Hex) {
    function Pick(hi: bool, lo: bool): Hex {
      if hi then if lo then k3 else k2 else if lo then k1 else k0
    }
  }

  /** Both halves of the block and the running sum. */
  datatype State = State(v0: Hex, v1: Hex, sum: Hex)

  const DELTA_HEX := Hex(X9, XE, X3, X7, X7, X9, XB, X9)

  function HalfHex(v: Hex, sum: Hex, keyWord: Hex): Hex {
    XorHex(AddHex(XorHex(Left(v), Down(v)), v), AddHex(sum, keyWord))
  }

  /** A round: the last two bits of the sum before pick the key word of the first half, bits 12 and 11 of the sum after
      that of the second. */
  function Turn(a: State, k: Keys): State {
    var v0 := AddHex(a.v0, HalfHex(a.v1, a.sum, k.Pick(a.sum.h.r, a.sum.h.s)));
    var sum := AddHex(a.sum, DELTA_HEX);
    State(v0, AddHex(a.v1, HalfHex(v0, sum, k.Pick(sum.e.s, sum.f.p))), sum)
  }

  function KeyOf(k: Keys): Key {
    [Value(k.k0), Value(k.k1), Value(k.k2), Value(k.k3)]
  }

  lemma ShiftedIsHex(v: Hex)
    ensures Shifted(Value(v)) == Value(XorHex(Left(v), Down(v)))
  {
    LeftIs(v);
    DownIs(v);
    XorIsHex(Left(v), Down(v));
  }

  lemma HalfIsHex(v: Hex, sum: Hex, keyWord: Hex)
    ensures HalfOf(Value(v), Value(sum), Value(keyWord)).result == Value(HalfHex(v, sum, keyWord))
  {
    ShiftedIsHex(v);
    AddIsHex(XorHex(Left(v), Down(v)), v);
    AddIsHex(sum, keyWord);
    XorIsHex(AddHex(XorHex(Left(v), Down(v)), v), AddHex(sum, keyWord));
  }

  lemma LastWeigh(w: bool -> nat, x: Hex) returns (q: nat)
    ensures Weigh(w, x) == 4 * q + 2 * w(x.h.r) + w(x.h.s)
  {
    q := WeighDigit(w, x.a) * 0x400_0000 + WeighDigit(w, x.b) * 0x40_0000 + WeighDigit(w, x.c) * 0x4_0000
         + WeighDigit(w, x.d) * 0x4000 + WeighDigit(w, x.e) * 0x400 + WeighDigit(w, x.f) * 0x40 + WeighDigit(w, x.g) * 4
         + 2 * w(x.h.p) + w(x.h.q);
  }

  lemma MiddleWeigh(w: bool -> nat, x: Hex) returns (q: nat)
    ensures Weigh(w, x) == 8192 * q + 2048 * (2 * w(x.e.s) + w(x.f.p))
                           + 1024 * w(x.f.q) + 512 * w(x.f.r) + 256 * w(x.f.s)
                           + 16 * WeighDigit(w, x.g) + WeighDigit(w, x.h)
  {
    q := WeighDigit(w, x.a) * 0x8000 + WeighDigit(w, x.b) * 0x800 + WeighDigit(w, x.c) * 0x80 + WeighDigit(w, x.d) * 8
         + 4 * w(x.e.p) + 2 * w(x.e.q) + w(x.e.r);
  }

  lemma Fourth(v: nat, q: nat, r: nat)
    requires v == 4 * q + r && r < 4
    ensures v % 4 == r
  {
    RemainderUnique(v, 4, q, r);
  }

  lemma MiddleFourth(v: nat, q: nat, j: nat, r: nat)
    requires v == 8192 * q + 2048 * j + r && r < 2048 && j < 4
    ensures v / 2048 % 4 == j
  {
    RemainderUnique(v, 2048, 4 * q + j, r);
    Fourth(4 * q + j, q, j);
  }

  lemma LowPart(q: nat, r: nat, s: nat, g: nat, h: nat)
    requires q < 2 && r < 2 && s < 2 && g < 16 && h < 16
    ensures 1024 * q + 512 * r + 256 * s + 16 * g + h < 2048
  {
  }

  lemma EarlyBits(x: Hex)
    ensures Value(x) % 4 == 2 * One(x.h.r) + One(x.h.s)
  {
    var q := LastWeigh(One, x);
    Fourth(Value(x), q, 2 * One(x.h.r) + One(x.h.s));
  }

  lemma LateBits(x: Hex)
    ensures Value(x) / 2048 % 4 == 2 * One(x.e.s) + One(x.f.p)
  {
    var q := MiddleWeigh(One, x);
    var g, h := WeighDigit(One, x.g), WeighDigit(One, x.h);
    DigitBound(One, x.g);
    DigitBound(One, x.h);
    LowPart(One(x.f.q), One(x.f.r), One(x.f.s), g, h);
    MiddleFourth(Value(x), q, 2 * One(x.e.s) + One(x.f.p),
                 1024 * One(x.f.q) + 512 * One(x.f.r) + 256 * One(x.f.s) + 16 * g + h);
  }

  lemma PickIs(k: Keys, hi: bool, lo: bool, i: nat)
    requires i == 2 * One(hi) + One(lo)
    ensures KeyOf(k)[i] == Value(k.Pick(hi, lo))
  {
  }

  lemma PickEarly(k: Keys, x: Hex)
    ensures KeyOf(k)[Value(x) % 4] == Value(k.Pick(x.h.r, x.h.s))
  {
    EarlyBits(x);
    PickIs(k, x.h.r, x.h.s, Value(x) % 4);
  }

  lemma PickLate(k: Keys, x: Hex)
    ensures KeyOf(k)[Value(x) / 2048 % 4] == Value(k.Pick(x.e.s, x.f.p))
  {
    LateBits(x);
    PickIs(k, x.e.s, x.f.p, Value(x) / 2048 % 4);
  }

  lemma DeltaIs()
    ensures Value(DELTA_HEX) == DELTA
  {
  }

  lemma MovedIs(here: Hex, v: Hex, sum: Hex, keyWord: Hex)
    ensures Value(AddHex(here, HalfHex(v, sum, keyWord)))
         == Add(Value(here), HalfOf(Value(v), Value(sum), Value(keyWord)).result)
  {
    HalfIsHex(v, sum, keyWord);
    AddIsHex(here, HalfHex(v, sum, keyWord));
  }

  function BlockOf(a: State): Block {
    Block(Value(a.v0), Value(a.v1))
  }

  lemma Rounded(key: Key, v0: word, v1: word, sum: word, k0: word, k1: word, w0: word, w1: word, next: word)
    requires next == Add(sum, DELTA) && k0 == key[sum % 4] && k1 == key[next / 2048 % 4]
    requires w0 == Add(v0, HalfOf(v1, sum, k0).result) && w1 == Add(v1, HalfOf(w0, next, k1).result)
    ensures Round(Block(v0, v1), NetworkOf(key), sum) == Block(w0, w1)
  {
    RoundParts(Block(v0, v1), key, sum, next);
  }

  /** A round is what the bits do, for every block, sum and key. */
  lemma TurnIs(a: State, k: Keys)
    ensures Round(BlockOf(a), NetworkOf(KeyOf(k)), Value(a.sum)) == BlockOf(Turn(a, k))
    ensures Value(Turn(a, k).sum) == Add(Value(a.sum), DELTA)
  {
    var b := Turn(a, k);
    DeltaIs();
    AddIsHex(a.sum, DELTA_HEX);
    var k0, k1 := k.Pick(a.sum.h.r, a.sum.h.s), k.Pick(b.sum.e.s, b.sum.f.p);
    PickEarly(k, a.sum);
    PickLate(k, b.sum);
    MovedIs(a.v0, a.v1, a.sum, k0);
    MovedIs(a.v1, b.v0, b.sum, k1);
    Rounded(KeyOf(k), Value(a.v0), Value(a.v1), Value(a.sum), Value(k0), Value(k1),
            Value(b.v0), Value(b.v1), Value(b.sum));
  }

  // ---- any number of rounds ----

  function Iterate(f: State -> State, a: State, n: nat): State {
    if n == 0 then a else f(Iterate(f, a, n - 1))
  }

  ghost predicate IsTurn(f: State -> State, k: Keys) {
    forall a {:trigger Turn(a, k)} :: f(a) == Turn(a, k)
  }

  /** `block` and `total` read a state as a block and a sum that `f` moves on by a round. */
  ghost predicate Refines(f: State -> State, block: State -> Block, total: State -> word, net: Network) {
    forall a {:trigger f(a)} ::
      Round(block(a), net, total(a)) == block(f(a)) && total(f(a)) == Add(total(a), DELTA)
  }

  lemma {:induction false} RoundsAre(f: State -> State, block: State -> Block, total: State -> word, net: Network,
                                     a: State, n: nat)
    requires Refines(f, block, total, net) && total(a) == 0
    ensures Rounds(block(a), net, n) == block(Iterate(f, a, n)) && Sum(n) == total(Iterate(f, a, n))
  {
    if n > 0 {
      RoundsAre(f, block, total, net, a, n - 1);
      assert Iterate(f, a, n) == f(Iterate(f, a, n - 1));
    }
  }

  function SumOf(a: State): word {
    Value(a.sum)
  }

  lemma TurnRefines(f: State -> State, k: Keys)
    requires IsTurn(f, k)
    ensures Refines(f, BlockOf, SumOf, NetworkOf(KeyOf(k)))
  {
    forall a
      ensures Round(BlockOf(a), NetworkOf(KeyOf(k)), SumOf(a)) == BlockOf(f(a)) && SumOf(f(a)) == Add(SumOf(a), DELTA)
    {
      TurnIs(a, k);
    }
  }

  // ---- every word has digits ----

  function DigitOf(n: nat): Digit {
    Digit(n / 8 % 2 == 1, n / 4 % 2 == 1, n / 2 % 2 == 1, n % 2 == 1)
  }

  lemma DigitHas(n: nat)
    requires n < 16
    ensures WeighDigit(One, DigitOf(n)) == n
  {
  }

  function HexOf(v: word): Hex {
    var g := v / 16;
    var f := g / 16;
    var e := f / 16;
    var d := e / 16;
    var c := d / 16;
    var b := c / 16;
    Hex(DigitOf(b / 16), DigitOf(b % 16), DigitOf(c % 16), DigitOf(d % 16), DigitOf(e % 16), DigitOf(f % 16),
        DigitOf(g % 16), DigitOf(v % 16))
  }

  lemma HexHas(v: word)
    ensures Value(HexOf(v)) == v
  {
    var g := v / 16;
    var f := g / 16;
    var e := f / 16;
    var d := e / 16;
    var c := d / 16;
    var b := c / 16;
    DigitHas(b / 16);
    DigitHas(b % 16);
    DigitHas(c % 16);
    DigitHas(d % 16);
    DigitHas(e % 16);
    DigitHas(f % 16);
    DigitHas(g % 16);
    DigitHas(v % 16);
  }

  function StateOf(b: Block): State {
    State(HexOf(b.v0), HexOf(b.v1), HexOf(0))
  }

  function KeysOf(k: Key): Keys {
    Keys(HexOf(k[0]), HexOf(k[1]), HexOf(k[2]), HexOf(k[3]))
  }

  lemma KeysHave(k: Key)
    ensures KeyOf(KeysOf(k)) == k
  {
    HexHas(k[0]);
    HexHas(k[1]);
    HexHas(k[2]);
    HexHas(k[3]);
  }

  lemma StateHas(b: Block)
    ensures BlockOf(StateOf(b)) == b && SumOf(StateOf(b)) == 0
  {
    HexHas(b.v0);
    HexHas(b.v1);
    HexHas(0);
  }

  /** The cipher, for every block and key and any number of rounds, is the turns of the bits. */
  lemma RoundsByBits(b: Block, k: Key, n: nat, f: State -> State)
    requires IsTurn(f, KeysOf(k))
    ensures Rounds(b, NetworkOf(k), n) == BlockOf(Iterate(f, StateOf(b), n))
  {
    KeysHave(k);
    StateHas(b);
    TurnRefines(f, KeysOf(k));
    RoundsAre(f, BlockOf, SumOf, NetworkOf(k), StateOf(b), n);
  }

  // ---- known answer ----

  // the key 00010203 04050607 08090A0B 0C0D0E0F
  const KEYS := Keys(Hex(X0, X0, X0, X1, X0, X2, X0, X3), Hex(X0, X4, X0, X5, X0, X6, X0, X7),
                     Hex(X0, X8, X0, X9, X0, XA, X0, XB), Hex(X0, XC, X0, XD, X0, XE, X0, XF))

  // The states after each of the rounds, from the block 41424344 45464748 on.
  const S0 := State(Hex(X4, X1, X4, X2, X4, X3, X4, X4), Hex(X4, X5, X4, X6, X4, X7, X4, X8),
                   Hex(X0, X0, X0, X0, X0, X0, X0, X0))
  const S1 := State(Hex(XD, XC, XD, X7, XC, XF, X4, X5), Hex(X4, X7, X7, XC, XE, X5, XE, XF),
                   Hex(X9, XE, X3, X7, X7, X9, XB, X9))
  const S2 := State(Hex(XF, XC, X2, X6, XA, XF, X5, X3), Hex(XC, XD, X4, X2, X7, X8, XC, XF),
                   Hex(X3, XC, X6, XE, XF, X3, X7, X2))
  const S3 := State(Hex(XD, X8, X0, XE, X9, X4, XC, XB), Hex(X4, XD, XD, XF, X3, X8, XA, X2),
                   Hex(XD, XA, XA, X6, X6, XD, X2, XB))
  const S4 := State(Hex(XA, X3, XD, XE, X6, XC, X8, X8), Hex(XF, X1, XE, X7, X7, X9, X2, XD),
                   Hex(X7, X8, XD, XD, XE, X6, XE, X4))
  const S5 := State(Hex(X1, X7, X1, XD, X3, X7, X2, X9), Hex(X9, X1, X8, X6, X2, XA, X1, XF),
                   Hex(X1, X7, X1, X5, X6, X0, X9, XD))
  const S6 := State(Hex(XC, XC, X8, XC, X1, X3, X4, X4), Hex(XE, XB, XE, XE, XA, XA, X9, XA),
                   Hex(XB, X5, X4, XC, XD, XA, X5, X6))
  const S7 := State(Hex(XE, X5, X7, XD, X7, X7, X3, X3), Hex(X5, X9, XE, X5, XF, XC, X4, X0),
                   Hex(X5, X3, X8, X4, X5, X4, X0, XF))
  const S8 := State(Hex(X8, XF, X6, X5, X0, X1, X6, XF), Hex(XC, XE, X3, X6, X8, XF, XE, X5),
                   Hex(XF, X1, XB, XB, XC, XD, XC, X8))
  const S9 := State(Hex(XD, X2, X5, X8, X1, X7, X4, XE), Hex(X4, X8, XD, X6, X1, X2, X1, X1),
                   Hex(X8, XF, XF, X3, X4, X7, X8, X1))
  const S10 := State(Hex(X1, X6, X5, XE, X0, X5, X6, X7), Hex(X9, XE, X7, X1, X7, XB, X1, X0),
                    Hex(X2, XE, X2, XA, XC, X1, X3, XA))
  const S11 := State(Hex(XC, XA, XC, X4, X8, X4, X1, X4), Hex(X4, XA, XF, XF, X1, XB, X8, X6),
                    Hex(XC, XC, X6, X2, X3, XA, XF, X3))
  const S12 := State(Hex(XE, XB, X8, XE, X9, X9, X5, X4), Hex(X2, X4, XE, X5, XD, XF, XE, XF),
                    Hex(X6, XA, X9, X9, XB, X4, XA, XC))
  const S13 := State(Hex(X0, XA, X8, X8, XB, X2, XA, X5), Hex(XE, X4, XA, X3, XF, X5, XF, X5),
                    Hex(X0, X8, XD, X1, X2, XE, X6, X5))
  const S14 := State(Hex(X4, X7, XF, X0, XB, X5, X3, XD), Hex(X5, X2, XC, XC, X1, XB, X8, X8),
                    Hex(XA, X7, X0, X8, XA, X8, X1, XE))
  const S15 := State(Hex(X7, X6, X2, X2, XF, X7, X0, XA), Hex(XE, X5, X4, XC, X9, X9, X8, X0),
                    Hex(X4, X5, X4, X0, X2, X1, XD, X7))
  const S16 := State(Hex(XD, XE, XA, X0, XB, X0, XB, X4), Hex(X0, X9, X6, X6, XB, X0, X6, X6),
                    Hex(XE, X3, X7, X7, X9, XB, X9, X0))
  const S17 := State(Hex(X5, XB, X9, XF, X2, XA, X8, XE), Hex(XA, X8, XD, XC, X1, X3, X7, XC),
                    Hex(X8, X1, XA, XF, X1, X5, X4, X9))
  const S18 := State(Hex(X1, X0, X7, X7, X1, XC, X1, X5), Hex(XE, X4, X5, XE, X1, X4, X4, X8),
                    Hex(X1, XF, XE, X6, X8, XF, X0, X2))
  const S19 := State(Hex(X1, X1, X4, X5, X6, XD, X7, XC), Hex(XC, X8, X5, XF, X7, X9, X2, XD),
                    Hex(XB, XE, X1, XE, X0, X8, XB, XB))
  const S20 := State(Hex(X9, X7, X8, X5, X6, X2, X0, X8), Hex(X1, X0, X9, X9, X6, X3, X1, XC),
                    Hex(X5, XC, X5, X5, X8, X2, X7, X4))
  const S21 := State(Hex(XD, XD, X8, X0, X3, XB, X8, XB), Hex(XC, XB, X8, XF, X6, X1, XE, X7),
                    Hex(XF, XA, X8, XC, XF, XC, X2, XD))
  const S22 := State(Hex(X5, X2, X2, XC, X0, X0, XD, XD), Hex(X9, XE, X3, XF, X7, X3, X2, X9),
                    Hex(X9, X8, XC, X4, X7, X5, XE, X6))
  const S23 := State(Hex(X7, X7, XB, X7, X4, X4, XA, X0), Hex(X6, X9, XC, X1, X3, X4, X8, XC),
                    Hex(X3, X6, XF, XB, XE, XF, X9, XF))
  const S24 := State(Hex(XC, X1, XC, XD, XC, XC, XF, XE), Hex(X6, XF, X5, X9, X3, X6, X6, X6),
                    Hex(XD, X5, X3, X3, X6, X9, X5, X8))
  const S25 := State(Hex(X7, X5, X4, X4, X5, XA, X6, X0), Hex(X2, XD, XB, X1, X7, X0, X8, XD),
                    Hex(X7, X3, X6, XA, XE, X3, X1, X1))
  const S26 := State(Hex(XF, X4, X8, X8, X7, X5, X5, X9), Hex(X8, XB, XB, X6, X5, X1, XD, X7),
                    Hex(X1, X1, XA, X2, X5, XC, XC, XA))
  const S27 := State(Hex(X4, X7, XC, XC, XD, XC, X5, X9), Hex(XF, XC, XD, X8, XF, X1, X1, XC),
                    Hex(XA, XF, XD, X9, XD, X6, X8, X3))
  const S28 := State(Hex(XC, X4, X7, X1, X0, X0, X4, XF), Hex(X5, X0, X9, X7, XC, X8, X2, X2),
                    Hex(X4, XE, X1, X1, X5, X0, X3, XC))
  const S29 := State(Hex(XD, X6, XF, X3, X5, X7, X0, XB), Hex(X0, X0, XD, X3, X5, X7, X1, X1),
                    Hex(XE, XC, X4, X8, XC, X9, XF, X5))
  const S30 := State(Hex(XD, X5, X3, XD, XE, X4, X5, X0), Hex(XA, X1, X0, X8, X2, X2, XD, X4),
                    Hex(X8, XA, X8, X0, X4, X3, XA, XE))
  const S31 := State(Hex(XF, X9, X5, X9, XA, X6, XE, X3), Hex(X6, X0, X7, X6, XA, X5, X7, X0),
                    Hex(X2, X8, XB, X7, XB, XD, X6, X7))
  const S32 := State(Hex(X4, X9, X7, XD, XF, X3, XD, X0), Hex(X7, X2, X6, X1, X2, XC, XB, X5),
                    Hex(XC, X6, XE, XF, X3, X7, X2, X0))

  lemma Turn1(f: State -> State)
    requires IsTurn(f, KEYS)
    ensures f(S0) == S1
  {
    assert f(S0) == Turn(S0, KEYS);
  }

  lemma Turn2(f: State -> State)
    requires IsTurn(f, KEYS)
    ensures f(S1) == S2
  {
    assert f(S1) == Turn(S1, KEYS);
  }

  lemma Turn3(f: State -> State)
    requires IsTurn(f, KEYS)
    ensures f(S2) == S3
  {
    assert f(S2) == Turn(S2, KEYS);
  }

  lemma Turn4(f: State -> State)
    requires IsTurn(f, KEYS)
    ensures f(S3) == S4
  {
    assert f(S3) == Turn(S3, KEYS);
  }

  lemma Turn5(f: State -> State)
    requires IsTurn(f, KEYS)
    ensures f(S4) == S5
  {
    assert f(S4) == Turn(S4, KEYS);
  }

  lemma Turn6(f: State -> State)
    requires IsTurn(f, KEYS)
    ensures f(S5) == S6
  {
    assert f(S5) == Turn(S5, KEYS);
  }

  lemma Turn7(f: State -> State)
    requires IsTurn(f, KEYS)
    ensures f(S6) == S7
  {
    assert f(S6) == Turn(S6, KEYS);
  }

  lemma Turn8(f: State -> State)
    requires IsTurn(f, KEYS)
    ensures f(S7) == S8
  {
    assert f(S7) == Turn(S7, KEYS);
  }

  lemma Turn9(f: State -> State)
    requires IsTurn(f, KEYS)
    ensures f(S8) == S9
  {
    assert f(S8) == Turn(S8, KEYS);
  }

  lemma Turn10(f: State -> State)
    requires IsTurn(f, KEYS)
    ensures f(S9) == S10
  {
    assert f(S9) == Turn(S9, KEYS);
  }

  lemma Turn11(f: State -> State)
    requires IsTurn(f, KEYS)
    ensures f(S10) == S11
  {
    assert f(S10) == Turn(S10, KEYS);
  }

  lemma Turn12(f: State -> State)
    requires IsTurn(f, KEYS)
    ensures f(S11) == S12
  {
    assert f(S11) == Turn(S11, KEYS);
  }

  lemma Turn13(f: State -> State)
    requires IsTurn(f, KEYS)
    ensures f(S12) == S13
  {
    assert f(S12) == Turn(S12, KEYS);
  }

  lemma Turn14(f: State -> State)
    requires IsTurn(f, KEYS)
    ensures f(S13) == S14
  {
    assert f(S13) == Turn(S13, KEYS);
  }

  lemma Turn15(f: State -> State)
    requires IsTurn(f, KEYS)
    ensures f(S14) == S15
  {
    assert f(S14) == Turn(S14, KEYS);
  }

  lemma Turn16(f: State -> State)
    requires IsTurn(f, KEYS)
    ensures f(S15) == S16
  {
    assert f(S15) == Turn(S15, KEYS);
  }

  lemma Turn17(f: State -> State)
    requires IsTurn(f, KEYS)
    ensures f(S16) == S17
  {
    assert f(S16) == Turn(S16, KEYS);
  }

  lemma Turn18(f: State -> State)
    requires IsTurn(f, KEYS)
    ensures f(S17) == S18
  {
    assert f(S17) == Turn(S17, KEYS);
  }

  lemma Turn19(f: State -> State)
    requires IsTurn(f, KEYS)
    ensures f(S18) == S19
  {
    assert f(S18) == Turn(S18, KEYS);
  }

  lemma Turn20(f: State -> State)
    requires IsTurn(f, KEYS)
    ensures f(S19) == S20
  {
    assert f(S19) == Turn(S19, KEYS);
  }

  lemma Turn21(f: State -> State)
    requires IsTurn(f, KEYS)
    ensures f(S20) == S21
  {
    assert f(S20) == Turn(S20, KEYS);
  }

  lemma Turn22(f: State -> State)
    requires IsTurn(f, KEYS)
    ensures f(S21) == S22
  {
    assert f(S21) == Turn(S21, KEYS);
  }

  lemma Turn23(f: State -> State)
    requires IsTurn(f, KEYS)
    ensures f(S22) == S23
  {
    assert f(S22) == Turn(S22, KEYS);
  }

  lemma Turn24(f: State -> State)
    requires IsTurn(f, KEYS)
    ensures f(S23) == S24
  {
    assert f(S23) == Turn(S23, KEYS);
  }

  lemma Turn25(f: State -> State)
    requires IsTurn(f, KEYS)
    ensures f(S24) == S25
  {
    assert f(S24) == Turn(S24, KEYS);
  }

  lemma Turn26(f: State -> State)
    requires IsTurn(f, KEYS)
    ensures f(S25) == S26
  {
    assert f(S25) == Turn(S25, KEYS);
  }

  lemma Turn27(f: State -> State)
    requires IsTurn(f, KEYS)
    ensures f(S26) == S27
  {
    assert f(S26) == Turn(S26, KEYS);
  }

  lemma Turn28(f: State -> State)
    requires IsTurn(f, KEYS)
    ensures f(S27) == S28
  {
    assert f(S27) == Turn(S27, KEYS);
  }

  lemma Turn29(f: State -> State)
    requires IsTurn(f, KEYS)
    ensures f(S28) == S29
  {
    assert f(S28) == Turn(S28, KEYS);
  }

  lemma Turn30(f: State -> State)
    requires IsTurn(f, KEYS)
    ensures f(S29) == S30
  {
    assert f(S29) == Turn(S29, KEYS);
  }

  lemma Turn31(f: State -> State)
    requires IsTurn(f, KEYS)
    ensures f(S30) == S31
  {
    assert f(S30) == Turn(S30, KEYS);
  }

  lemma Turn32(f: State -> State)
    requires IsTurn(f, KEYS)
    ensures f(S31) == S32
  {
    assert f(S31) == Turn(S31, KEYS);
  }

  lemma KeyIs(key: Key)
    requires key == [0x0001_0203, 0x0405_0607, 0x0809_0A0B, 0x0C0D_0E0F]
    ensures key == KeyOf(KEYS)
  {
  }

  lemma StartIs()
    ensures BlockOf(S0) == Block(0x4142_4344, 0x4546_4748)
  {
  }

  lemma StartSum()
    ensures Value(S0.sum) == 0
  {
  }

  lemma EndIs()
    ensures BlockOf(S32) == Block(0x497D_F3D0, 0x7261_2CB5)
  {
  }

  lemma KnownTurns(f: State -> State, n: nat)
    requires IsTurn(f, KEYS) && n == 32
    ensures Iterate(f, S0, n) == S32
  {
    var m := n - n;
    Turn1(f);
    Turn2(f);
    Turn3(f);
    Turn4(f);
    Turn5(f);
    Turn6(f);
    Turn7(f);
    Turn8(f);
    Turn9(f);
    Turn10(f);
    Turn11(f);
    Turn12(f);
    Turn13(f);
    Turn14(f);
    Turn15(f);
    Turn16(f);
    Turn17(f);
    Turn18(f);
    Turn19(f);
    Turn20(f);
    Turn21(f);
    Turn22(f);
    Turn23(f);
    Turn24(f);
    Turn25(f);
    Turn26(f);
    Turn27(f);
    Turn28(f);
    Turn29(f);
    Turn30(f);
    Turn31(f);
    Turn32(f);
    assert Iterate(f, S0, m + 1) == S1;
    assert Iterate(f, S0, m + 2) == S2;
    assert Iterate(f, S0, m + 3) == S3;
    assert Iterate(f, S0, m + 4) == S4;
    assert Iterate(f, S0, m + 5) == S5;
    assert Iterate(f, S0, m + 6) == S6;
    assert Iterate(f, S0, m + 7) == S7;
    assert Iterate(f, S0, m + 8) == S8;
    assert Iterate(f, S0, m + 9) == S9;
    assert Iterate(f, S0, m + 10) == S10;
    assert Iterate(f, S0, m + 11) == S11;
    assert Iterate(f, S0, m + 12) == S12;
    assert Iterate(f, S0, m + 13) == S13;
    assert Iterate(f, S0, m + 14) == S14;
    assert Iterate(f, S0, m + 15) == S15;
    assert Iterate(f, S0, m + 16) == S16;
    assert Iterate(f, S0, m + 17) == S17;
    assert Iterate(f, S0, m + 18) == S18;
    assert Iterate(f, S0, m + 19) == S19;
    assert Iterate(f, S0, m + 20) == S20;
    assert Iterate(f, S0, m + 21) == S21;
    assert Iterate(f, S0, m + 22) == S22;
    assert Iterate(f, S0, m + 23) == S23;
    assert Iterate(f, S0, m + 24) == S24;
    assert Iterate(f, S0, m + 25) == S25;
    assert Iterate(f, S0, m + 26) == S26;
    assert Iterate(f, S0, m + 27) == S27;
    assert Iterate(f, S0, m + 28) == S28;
    assert Iterate(f, S0, m + 29) == S29;
    assert Iterate(f, S0, m + 30) == S30;
    assert Iterate(f, S0, m + 31) == S31;
    assert Iterate(f, S0, m + 32) == S32;
  }

  lemma KnownRounds(f: State -> State, block: State -> Block, total: State -> word, net: Network, n: nat)
    requires IsTurn(f, KEYS) && Refines(f, block, total, net) && total(S0) == 0 && n == 32
    ensures Rounds(block(S0), net, n) == block(S32)
  {
    KnownTurns(f, n);
    RoundsAre(f, block, total, net, S0, n);
  }

  lemma TurnOf(k: Keys) returns (f: State -> State)
    ensures IsTurn(f, k)
  {
    f := (a: State) => Turn(a, k);
  }

  lemma KnownBits(n: nat)
    requires n == 32
    ensures Rounds(BlockOf(S0), NetworkOf(KeyOf(KEYS)), n) == BlockOf(S32)
  {
    var f := TurnOf(KEYS);
    TurnRefines(f, KEYS);
    StartSum();
    KnownRounds(f, BlockOf, SumOf, NetworkOf(KeyOf(KEYS)), n);
  }

  /** The 32 rounds of a known block under a known key. */
  lemma KnownBlock(key: Key)
    requires key == [0x0001_0203, 0x0405_0607, 0x0809_0A0B, 0x0C0D_0E0F]
    ensures Encipher(Block(0x4142_4344, 0x4546_4748), key) == Block(0x497D_F3D0, 0x7261_2CB5)
  {
    KeyIs(key);
    KnownBits(NetworkOf(key).rounds);
    StartIs();
    EndIs();
  }

  lemma LoadedIs(s: seq<byte>, t: seq<byte>)
    requires s == [0x44, 0x43, 0x42, 0x41] && t == [0x48, 0x47, 0x46, 0x45]
    ensures Load32(s) == 0x4142_4344 && Load32(t) == 0x4546_4748
  {
  }

  lemma StoredIs(s: seq<byte>, t: seq<byte>)
    requires s == [0xD0, 0xF3, 0x7D, 0x49] && t == [0xB5, 0x2C, 0x61, 0x72]
    ensures Load32(s) == 0x497D_F3D0 && Load32(t) == 0x7261_2CB5
  {
  }

  lemma SignOf(key: Key, s: seq<byte>, t: seq<byte>, s': seq<byte>, t': seq<byte>)
    requires |s| == |t| == |s'| == |t'| == 4
    requires Encipher(Block(Load32(s), Load32(t)), key) == Block(Load32(s'), Load32(t'))
    ensures Sign(s + t, key) == s' + t'
  {
    assert (s + t)[..4] == s && (s + t)[4..] == t;
    StoreLoad(s');
    StoreLoad(t');
  }

  /** The same as signature octets. */
  lemma KnownAnswer(key: Key, s: seq<byte>, t: seq<byte>, s': seq<byte>, t': seq<byte>)
    requires key == [0x0001_0203, 0x0405_0607, 0x0809_0A0B, 0x0C0D_0E0F]
    requires s == [0x44, 0x43, 0x42, 0x41] && t == [0x48, 0x47, 0x46, 0x45]
    requires s' == [0xD0, 0xF3, 0x7D, 0x49] && t' == [0xB5, 0x2C, 0x61, 0x72]
    ensures Sign(s + t, key) == s' + t'
  {
    KnownBlock(key);
    LoadedIs(s, t);
    StoredIs(s', t');
    SignOf(key, s, t, s', t');
  }
}
