/** 32-bit words as the ciphers use them: wrap-around addition, exclusive or, little-endian load and store. */
module Words {
  import opened Bytes

  type word = x: int | 0 <= x < 0x1_0000_0000

  function Add(a: word, b: word): word {
    if a + b < 0x1_0000_0000 then a + b else a + b - 0x1_0000_0000
  }

  function Sub(a: word, b: word): word {
    if b <= a then a - b else a - b + 0x1_0000_0000
  }

  /** `a << n`, the bits shifted out being lost. */
  function ShiftLeft(a: word, n: nat): word {
    a * Power2(n) % 0x1_0000_0000
  }

  function Power2(n: nat): (r: nat)
    ensures r > 0
  {
    if n == 0 then 1 else 2 * Power2(n - 1)
  }

  // ---- exclusive or, bit by bit ----

  function XorBits(a: nat, b: nat): nat
    decreases a + b
  {
    if a == 0 && b == 0 then 0 else (if a % 2 == b % 2 then 0 else 1) + 2 * XorBits(a / 2, b / 2)
  }

  lemma XorStep(a: nat, b: nat)
    ensures XorBits(a, b) % 2 == (if a % 2 == b % 2 then 0 else 1)
    ensures XorBits(a, b) / 2 == XorBits(a / 2, b / 2)
  {
  }

  lemma {:induction false} XorBound(a: nat, b: nat, n: nat)
    requires a < Power2(n) && b < Power2(n)
    ensures XorBits(a, b) < Power2(n)
  {
    if n > 0 {
      XorBound(a / 2, b / 2, n - 1);
    }
  }

  function Xor(a: word, b: word): word {
    assert Power2(8) == 0x100 && Power2(16) == 0x1_0000 && Power2(24) == 0x100_0000 && Power2(32) == 0x1_0000_0000;
    XorBound(a, b, 32);
    XorBits(a, b)
  }

  lemma {:induction false} XorBitsCancel(a: nat, b: nat)
    ensures XorBits(XorBits(a, b), b) == a
    decreases a + b
  {
    if a != 0 || b != 0 {
      XorStep(a, b);
      XorStep(XorBits(a, b), b);
      XorBitsCancel(a / 2, b / 2);
    }
  }

  lemma {:induction false} XorBitsExchange(a: nat, b: nat, c: nat)
    ensures XorBits(XorBits(a, b), c) == XorBits(XorBits(a, c), b)
    decreases a + b + c
  {
    if a != 0 || b != 0 || c != 0 {
      XorStep(a, b);
      XorStep(a, c);
      XorStep(XorBits(a, b), c);
      XorStep(XorBits(a, c), b);
      XorBitsExchange(a / 2, b / 2, c / 2);
    }
  }

  /** XORing the same word in again takes it out, also past another one. */
  lemma XorXor(a: word, b: word, c: word)
    ensures Xor(Xor(a, b), b) == a
    ensures Xor(Xor(Xor(a, b), c), b) == Xor(a, c)
  {
    XorBitsCancel(a, b);
    XorBitsExchange(Xor(a, b), c, b);
  }

  // ---- octets ----

  /** Little-endian load of four octets. */
  function Load32(b: seq<byte>): word
    requires |b| == 4
  {
    b[0] as int + 0x100 * (b[1] as int + 0x100 * (b[2] as int + 0x100 * b[3] as int))
  }

  /** Little-endian store of a word. */
  function Store32(w: word): (b: seq<byte>)
    ensures |b| == 4
  {
    var w1 := w / 0x100;
    var w2 := w1 / 0x100;
    [w % 0x100, w1 % 0x100, w2 % 0x100, w2 / 0x100]
  }

  lemma LoadStore(w: word)
    ensures Load32(Store32(w)) == w
  {
    var b := Store32(w);
    var w1 := w / 0x100;
    var w2 := w1 / 0x100;
    assert b[2] as int + 0x100 * b[3] as int == w2;
    assert b[1] as int + 0x100 * w2 == w1;
  }

  lemma StoreLoad(b: seq<byte>)
    requires |b| == 4
    ensures Store32(Load32(b)) == b
  {
    var w2 := b[2] as int + 0x100 * b[3] as int;
    var w1 := b[1] as int + 0x100 * w2;
    var w := b[0] as int + 0x100 * w1;
    assert w / 0x100 == w1 && w1 / 0x100 == w2;
    assert Store32(w) == b;
  }

  /** Network byte order: what `ntohl` makes of four octets in memory, and back. */
  function LoadBE32(b: seq<byte>): word
    requires |b| == 4
  {
    Load32([b[3], b[2], b[1], b[0]])
  }

  function StoreBE32(w: word): (b: seq<byte>)
    ensures |b| == 4
  {
    var l := Store32(w);
    [l[3], l[2], l[1], l[0]]
  }

  lemma StoreLoadBE(b: seq<byte>)
    requires |b| == 4
    ensures StoreBE32(LoadBE32(b)) == b
  {
    StoreLoad([b[3], b[2], b[1], b[0]]);
  }

  // ---- what the operations mean, octet by octet and bit by bit ----

  /** Little-endian: octet `i` has the weight 256^i. */
  lemma LittleEndian(w: word)
    ensures Store32(w) == [w % 0x100, w / 0x100 % 0x100, w / 0x1_0000 % 0x100, w / 0x100_0000]
  {
    assert w / 0x100 / 0x100 == w / 0x1_0000 && w / 0x1_0000 / 0x100 == w / 0x100_0000;
  }

  /** Network order: the most significant octet first. */
  lemma BigEndian(w: word)
    ensures StoreBE32(w) == [w / 0x100_0000, w / 0x1_0000 % 0x100, w / 0x100 % 0x100, w % 0x100]
    ensures ToNat(StoreBE32(w)) == w
  {
    LittleEndian(w);
    var b := StoreBE32(w);
    ToNatFour(b[0], b[1], b[2], b[3]);
    LoadStore(w);
  }

  lemma LoadIsNumber(b: seq<byte>)
    requires |b| == 4
    ensures LoadBE32(b) == ToNat(b)
    ensures Load32(b) == ToNat([b[3], b[2], b[1], b[0]])
  {
    assert b == [b[0], b[1], b[2], b[3]];
    ToNatFour(b[0], b[1], b[2], b[3]);
    ToNatFour(b[3], b[2], b[1], b[0]);
  }

  lemma AddIsModular(a: nat, b: word)
    ensures Add(a % 0x1_0000_0000, b) == (a + b) % 0x1_0000_0000
  {
    var q, r := a / 0x1_0000_0000, a % 0x1_0000_0000;
    RemainderUnique(a + b, 0x1_0000_0000, if r + b < 0x1_0000_0000 then q else q + 1, Add(r, b));
  }

  lemma AddIs(a: word, b: word)
    ensures Add(a, b) == (a + b) % 0x1_0000_0000
  {
    AddIsModular(a, b);
  }

  lemma SubIsModular(a: word, b: word)
    ensures Sub(a, b) == (a - b) % 0x1_0000_0000
  {
  }

  /** Bit `i`, the least significant one being bit 0. */
  function Bit(w: nat, i: nat): (r: nat)
    ensures r < 2
    decreases i
  {
    if i == 0 then w % 2 else Bit(w / 2, i - 1)
  }

  /** The bits of a word are all there is to it. */
  lemma {:induction false} BitsDetermine(a: nat, b: nat, n: nat)
    requires a < Power2(n) && b < Power2(n) && forall i :: 0 <= i < n ==> Bit(a, i) == Bit(b, i)
    ensures a == b
    decreases n
  {
    if n > 0 {
      assert Bit(a, 0) == Bit(b, 0);
      forall i | 0 <= i < n - 1
        ensures Bit(a / 2, i) == Bit(b / 2, i)
      {
        assert Bit(a, i + 1) == Bit(b, i + 1);
      }
      BitsDetermine(a / 2, b / 2, n - 1);
    }
  }

  lemma {:induction false} BitOfXor(a: nat, b: nat, i: nat)
    ensures Bit(XorBits(a, b), i) == (Bit(a, i) + Bit(b, i)) % 2
    decreases i
  {
    XorStep(a, b);
    if i > 0 {
      BitOfXor(a / 2, b / 2, i - 1);
    }
  }

  /** Exclusive or of two bits. */
  function Either(a: nat, b: nat): nat {
    (a + b) % 2
  }

  lemma BitOfWord(a: word, b: word, i: nat)
    ensures Bit(Xor(a, b), i) == Either(Bit(a, i), Bit(b, i))
  {
    BitOfXor(a, b, i);
  }

  /** Every bit of `c` is the exclusive or of the two above it. */
  ghost predicate EitherBits(a: word, b: word, c: word) {
    forall i :: 0 <= i < 32 ==> Bit(c, i) == Either(Bit(a, i), Bit(b, i))
  }

  lemma XorIsEither(a: word, b: word)
    ensures EitherBits(a, b, Xor(a, b))
  {
    forall i | 0 <= i < 32
      ensures Bit(Xor(a, b), i) == Either(Bit(a, i), Bit(b, i))
    {
      BitOfWord(a, b, i);
    }
  }

  lemma WordsEqual(a: word, b: word)
    requires forall i :: 0 <= i < 32 ==> Bit(a, i) == Bit(b, i)
    ensures a == b
  {
    assert Power2(8) == 0x100 && Power2(16) == 0x1_0000 && Power2(24) == 0x100_0000 && Power2(32) == 0x1_0000_0000;
    BitsDetermine(a, b, 32);
  }

  /** A shift to the right by five moves every bit down five places. */
  lemma BitOfQuotient(a: nat, i: nat)
    ensures Bit(a / 32, i) == Bit(a, i + 5)
  {
    var b := a / 2;
    var c := b / 2;
    var d := c / 2;
    var e := d / 2;
    assert a / 32 == e / 2;
    assert Bit(a, i + 5) == Bit(b, i + 4) == Bit(c, i + 3) == Bit(d, i + 2) == Bit(e, i + 1);
  }

  lemma Doubled(p: int, q: int)
    ensures 2 * (p * q) == 2 * p * q
  {
  }

  lemma {:induction false} BitOfProduct(a: nat, k: nat, i: nat)
    ensures Bit(a * Power2(k), i) == if i < k then 0 else Bit(a, i - k)
    decreases k
  {
    if k > 0 {
      var b := a * Power2(k - 1);
      assert a * Power2(k) == 2 * b by {
        Doubled(a, Power2(k - 1));
      }
      if i > 0 {
        BitOfProduct(a, k - 1, i - 1);
      }
    }
  }

  lemma {:induction false} BitOfRemainder(a: nat, n: nat, i: nat)
    requires i < n
    ensures Bit(a % Power2(n), i) == Bit(a, i)
    decreases n
  {
    RemainderTwice(a, Power2(n - 1));
    if i > 0 {
      BitOfRemainder(a / 2, n - 1, i - 1);
    }
  }

  lemma RemainderTwice(a: nat, p: nat)
    requires p > 0
    ensures a % (2 * p) == 2 * (a / 2 % p) + a % 2
  {
    var q, r := a / 2 / p, a / 2 % p;
    var s := 2 * r + a % 2;
    assert a == 2 * p * q + s by {
      assert a / 2 == p * q + r;
      Doubled(p, q);
    }
    RemainderUnique(a, 2 * p, q, s);
  }

  /** A shift to the left moves them up, drops those past bit 31 and lets zeros in. */
  lemma BitOfShift(v: word, k: nat, i: nat)
    requires i < 32
    ensures Bit(ShiftLeft(v, k), i) == if i < k then 0 else Bit(v, i - k)
  {
    assert Power2(8) == 0x100 && Power2(16) == 0x1_0000 && Power2(24) == 0x100_0000 && Power2(32) == 0x1_0000_0000;
    BitOfRemainder(v * Power2(k), 32, i);
    BitOfProduct(v, k, i);
  }

  /** The two words of an eight-octet block. */
  datatype Block = Block(v0: word, v1: word)

  function ToBlock(s: seq<byte>): Block
    requires |s| == 8
  {
    Block(Load32(s[..4]), Load32(s[4..]))
  }

  function ToBytes(b: Block): (s: seq<byte>)
    ensures |s| == 8
  {
    Store32(b.v0) + Store32(b.v1)
  }

  lemma BlockBytes(b: Block)
    ensures ToBlock(ToBytes(b)) == b
  {
    LoadStore(b.v0);
    LoadStore(b.v1);
    assert ToBytes(b)[..4] == Store32(b.v0) && ToBytes(b)[4..] == Store32(b.v1);
  }

  lemma BytesBlock(s: seq<byte>)
    requires |s| == 8
    ensures ToBytes(ToBlock(s)) == s
  {
    StoreLoad(s[..4]);
    StoreLoad(s[4..]);
    assert s == s[..4] + s[4..];
  }

  /** Loads the block at `a[i..i + 8]`. */
  method LoadBlock(a: array<byte>, i: nat) returns (v0: word, v1: word)
    requires i + 8 <= a.Length
    ensures Block(v0, v1) == ToBlock(a[i..i + 8])
  {
    v0, v1 := Load32(a[i..i + 4]), Load32(a[i + 4..i + 8]);
    assert a[i..i + 8][..4] == a[i..i + 4] && a[i..i + 8][4..] == a[i + 4..i + 8];
  }
}
