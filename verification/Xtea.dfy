/** The XTEA encryption that RTMPE type 8 applies to handshake signatures. */
module Xtea {
  import opened Bytes
  import opened Words

  const DELTA: word := 0x9E3779B9

  type Key = k: seq<word> | |k| == 4 witness [0, 0, 0, 0]

  /** The number of rounds, and what each half round adds to one half, given the running sum and the other half. */
  datatype Network = Network(rounds: nat, low: (word, word) -> word, high: (word, word) -> word)

  function Round(b: Block, net: Network, sum: word): Block {
    var v0 := Add(b.v0, net.low(sum, b.v1));
    Block(v0, Add(b.v1, net.high(Add(sum, DELTA), v0)))
  }

  function Unround(b: Block, net: Network, sum: word): Block {
    var v1 := Sub(b.v1, net.high(sum, b.v0));
    Block(Sub(b.v0, net.low(Sub(sum, DELTA), v1)), v1)
  }

  function Sum(n: nat): word {
    if n == 0 then 0 else Add(Sum(n - 1), DELTA)
  }

  /** The block after `n` rounds, the running sum starting at 0. */
  function Rounds(b: Block, net: Network, n: nat): Block {
    if n == 0 then b else Round(Rounds(b, net, n - 1), net, Sum(n - 1))
  }

  /** `n` rounds backwards, the running sum starting at `sum`. */
  function Unrounds(b: Block, net: Network, sum: word, n: nat): Block
    decreases n
  {
    if n == 0 then b else Unrounds(Unround(b, net, sum), net, Sub(sum, DELTA), n - 1)
  }

  // ---- every round can be taken back, whatever the round functions are ----

  lemma {:induction false} UnroundsRounds(b: Block, net: Network, n: nat)
    ensures Unrounds(Rounds(b, net, n), net, Sum(n), n) == b
  {
    if n > 0 {
      UnroundsRounds(b, net, n - 1);
      assert Sub(Sum(n), DELTA) == Sum(n - 1);
      assert Unround(Rounds(b, net, n), net, Sum(n)) == Rounds(b, net, n - 1);
    }
  }

  lemma {:induction false} RoundsUnrounds(b: Block, net: Network, n: nat)
    ensures Rounds(Unrounds(b, net, Sum(n), n), net, n) == b
    decreases n
  {
    if n > 0 {
      assert Sub(Sum(n), DELTA) == Sum(n - 1);
      RoundsUnrounds(Unround(b, net, Sum(n)), net, n - 1);
    }
  }

  lemma FinalSum()
    ensures Sum(32) == FINAL_SUM
  {
    assert Sum(4) == 0x78DDE6E4;
    assert Sum(8) == 0xF1BBCDC8;
    assert Sum(12) == 0x6A99B4AC;
    assert Sum(16) == 0xE3779B90;
    assert Sum(20) == 0x5C558274;
    assert Sum(24) == 0xD5336958;
    assert Sum(28) == 0x4E11503C;
    assert Sum(32) == 0xC6EF3720;
  }

  // ---- rtmpe8_sig ----

  function Shifted(v: word): word {
    Xor(ShiftLeft(v, 4), v / 32)
  }

  function Mix(v: word): word {
    Add(Shifted(v), v)
  }

  function NetworkOf(k: Key): Network {
    Network(32,
            (sum: word, v: word) => Xor(Mix(v), Add(sum, k[sum % 4])),
            (sum: word, v: word) => Xor(Mix(v), Add(sum, k[sum / 2048 % 4])))
  }

  // 32 * DELTA modulo 2^32, where decryption starts
  const FINAL_SUM: word := 0xC6EF3720

  function Encipher(b: Block, k: Key): Block {
    Rounds(b, NetworkOf(k), NetworkOf(k).rounds)
  }

  function Decipher(b: Block, k: Key): Block {
    Unrounds(b, NetworkOf(k), FINAL_SUM, NetworkOf(k).rounds)
  }

  /** Eight signature octets after encryption. */
  function Sign(s: seq<byte>, k: Key): (r: seq<byte>)
    requires |s| == 8
    ensures |r| == 8
  {
    ToBytes(Encipher(ToBlock(s), k))
  }

  function Unsign(s: seq<byte>, k: Key): (r: seq<byte>)
    requires |s| == 8
    ensures |r| == 8
  {
    ToBytes(Decipher(ToBlock(s), k))
  }

  /** `rtmpe8_sig` is a permutation of the 8-octet strings: decryption undoes it on both sides. */
  lemma SignIsPermutation(s: seq<byte>, k: Key)
    requires |s| == 8
    ensures Unsign(Sign(s, k), k) == s
    ensures Sign(Unsign(s, k), k) == s
  {
    var b := ToBlock(s);
    FinalSum();
    UnroundsRounds(b, NetworkOf(k), NetworkOf(k).rounds);
    RoundsUnrounds(b, NetworkOf(k), 32);
    BlockBytes(Encipher(b, k));
    BlockBytes(Decipher(b, k));
    BytesBlock(s);
  }

  /** Equal encrypted signatures come from equal signatures. */
  lemma SignInjective(s: seq<byte>, t: seq<byte>, k: Key)
    requires |s| == |t| == 8
    ensures Sign(s, k) == Sign(t, k) <==> s == t
  {
    SignIsPermutation(s, k);
    SignIsPermutation(t, k);
  }

  /** Encrypts the eight octets at `src[i..]` into `dst[j..]`; the two regions may be the same. */
  method Rtmpe8Sig(src: array<byte>, i: nat, dst: array<byte>, j: nat, k: Key)
    requires i + 8 <= src.Length && j + 8 <= dst.Length
    modifies dst
    ensures dst[..] == Patch(old(dst[..]), j, Sign(old(src[i..i + 8]), k))
  {
    ghost var start := ToBlock(src[i..i + 8]);
    var net := NetworkOf(k);
    var v0, v1 := LoadBlock(src, i);
    var sum: word := 0;
    for n := 0 to 32
      invariant Block(v0, v1) == Rounds(start, net, n) && sum == Sum(n)
    {
      v0 := Add(v0, net.low(sum, v1));
      sum := Add(sum, DELTA);
      v1 := Add(v1, net.high(sum, v0));
    }
    Store(dst, j, ToBytes(Block(v0, v1)));
  }

  // ---- which permutation it is ----

  /** The shifted parts of a half round: bit `i` of the one is bit `i - 4`, of the other bit `i + 5`. */
  lemma ShiftedBits(v: word, i: nat)
    requires i < 32
    ensures Bit(Shifted(v), i) == Either(if i < 4 then 0 else Bit(v, i - 4), Bit(v, i + 5))
  {
    BitOfWord(ShiftLeft(v, 4), v / 32, i);
    BitOfShift(v, 4, i);
    BitOfQuotient(v, i);
  }

  lemma TwoBits(v: nat)
    ensures v % 4 == 2 * Bit(v, 1) + Bit(v, 0)
  {
    var h := v / 2;
    assert Bit(v, 1) == Bit(h, 0) == h % 2;
    RemainderUnique(v, 4, h / 2, 2 * (h % 2) + v % 2);
  }

  lemma BitsElevenTwelve(v: word)
    ensures v / 2048 % 4 == 2 * Bit(v, 12) + Bit(v, 11)
  {
    TwoBits(v / 2048);
    var w := v / 32;
    var x := w / 32;
    assert v / 2048 == x / 2;
    BitOfQuotient(v, 6);
    BitOfQuotient(v, 7);
    BitOfQuotient(w, 1);
    BitOfQuotient(w, 2);
    assert Bit(x, 1) == Bit(x / 2, 0) && Bit(x, 2) == Bit(x / 2, 1);
  }

  /** What a half round goes through: the shifted parts, `v` added to them, the key side, and the result. */
  datatype Half = Half(mixed: word, left: word, right: word, result: word)

  ghost predicate MixedBits(v: word, mixed: word) {
    forall i :: 0 <= i < 32 ==> Bit(mixed, i) == Either(if i < 4 then 0 else Bit(v, i - 4), Bit(v, i + 5))
  }

  /** A half round, bit by bit: `mixed` is `(v << 4) ^ (v >> 5)`, to which `v` is added modulo 2^32; the key side is the
      running sum plus a key word; and the result is the exclusive or of the two. */
  ghost predicate HalfRound(v: word, sum: word, keyWord: word, h: Half) {
    && MixedBits(v, h.mixed)
    && h.left == (h.mixed + v) % 0x1_0000_0000 && h.right == (sum + keyWord) % 0x1_0000_0000
    && EitherBits(h.left, h.right, h.result)
  }

  function HalfOf(v: word, sum: word, keyWord: word): Half {
    Half(Shifted(v), Mix(v), Add(sum, keyWord), Xor(Mix(v), Add(sum, keyWord)))
  }

  lemma ShiftedIsMixed(v: word)
    ensures MixedBits(v, Shifted(v))
  {
    forall i | 0 <= i < 32
      ensures Bit(Shifted(v), i) == Either(if i < 4 then 0 else Bit(v, i - 4), Bit(v, i + 5))
    {
      ShiftedBits(v, i);
    }
  }

  lemma HalfRoundIs(v: word, sum: word, keyWord: word)
    ensures HalfRound(v, sum, keyWord, HalfOf(v, sum, keyWord))
  {
    ShiftedIsMixed(v);
    AddIs(Shifted(v), v);
    AddIs(sum, keyWord);
    XorIsEither(Mix(v), Add(sum, keyWord));
  }

  lemma RoundParts(b: Block, k: Key, sum: word, next: word)
    requires next == Add(sum, DELTA)
    ensures var r := Round(b, NetworkOf(k), sum);
            && r.v0 == Add(b.v0, HalfOf(b.v1, sum, k[sum % 4]).result)
            && r.v1 == Add(b.v1, HalfOf(r.v0, next, k[next / 2048 % 4]).result)
  {
  }

  /** One round on any block: each half is moved on by a half round of the other, modulo 2^32, the key word being picked
      by bits 0 and 1 of the sum before and by bits 11 and 12 of the sum after 9E3779B9 was added to it. */
  lemma RoundIs(b: Block, k: Key, sum: word, next: word) returns (i: nat, j: nat, h0: Half, h1: Half)
    requires next == (sum + 0x9E3779B9) % 0x1_0000_0000
    ensures i == 2 * Bit(sum, 1) + Bit(sum, 0) && j == 2 * Bit(next, 12) + Bit(next, 11)
    ensures var r := Round(b, NetworkOf(k), sum);
            && HalfRound(b.v1, sum, k[i], h0) && r.v0 == (b.v0 + h0.result) % 0x1_0000_0000
            && HalfRound(r.v0, next, k[j], h1) && r.v1 == (b.v1 + h1.result) % 0x1_0000_0000
  {
    AddIs(sum, DELTA);
    TwoBits(sum);
    BitsElevenTwelve(next);
    i, j := sum % 4, next / 2048 % 4;
    RoundParts(b, k, sum, next);
    var r := Round(b, NetworkOf(k), sum);
    h0, h1 := HalfOf(b.v1, sum, k[i]), HalfOf(r.v0, next, k[j]);
    HalfRoundIs(b.v1, sum, k[i]);
    HalfRoundIs(r.v0, next, k[j]);
    AddIs(b.v0, h0.result);
    AddIs(b.v1, h1.result);
  }

  /** A half round has one result only, so these equations say all of it. */
  lemma HalfRoundUnique(v: word, sum: word, keyWord: word, h: Half, g: Half)
    requires HalfRound(v, sum, keyWord, h) && HalfRound(v, sum, keyWord, g)
    ensures h == g
  {
    WordsEqual(h.mixed, g.mixed);
    WordsEqual(h.result, g.result);
  }
}
