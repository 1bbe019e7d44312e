/** The Blowfish encryption that RTMPE type 9 applies to handshake signatures, for arbitrary initial tables. */
module Blowfish {
  import opened Bytes
  import opened Words

  const ROUNDS := 16

  type Subkeys = p: seq<word> | |p| == 18 witness seq(18, _ => 0)

  type Boxes = s: seq<word> | |s| == 1024 witness seq(1024, _ => 0)

  /** P array and the four 256-word S boxes, the boxes laid end to end. */
  datatype Key = Key(p: Subkeys, s: Boxes)

  // ---- the network, for any round function ----

  /** The halves after `i` rounds, each round swapping them. */
  function Rounds(x: Block, p: Subkeys, f: word -> word, i: nat): Block
    requires i <= |p|
  {
    if i == 0 then x else
      var b := Rounds(x, p, f, i - 1);
      var l := Xor(b.v0, p[i - 1]);
      Block(Xor(b.v1, f(l)), l)
  }

  function Crypt(x: Block, p: Subkeys, f: word -> word): Block {
    var b := Rounds(x, p, f, |p| - 2);
    Block(Xor(b.v1, p[|p| - 1]), Xor(b.v0, p[|p| - 2]))
  }

  function Reverse(p: Subkeys): Subkeys {
    seq(18, i requires 0 <= i < 18 => p[17 - i])
  }

  // Running the rounds on a ciphertext with the subkeys reversed retraces the encryption
  lemma {:induction false} Retrace(x: Block, p: Subkeys, f: word -> word, j: nat)
    requires j <= ROUNDS
    ensures var b := Rounds(x, p, f, ROUNDS - j);
            Rounds(Crypt(x, p, f), Reverse(p), f, j) == Block(Xor(b.v1, p[17 - j]), Xor(b.v0, p[16 - j]))
  {
    if j > 0 {
      Retrace(x, p, f, j - 1);
      var m := 17 - j;
      var b, c := Rounds(x, p, f, m), Rounds(x, p, f, m - 1);
      XorXor(b.v1, p[m + 1], 0);
      XorXor(c.v1, f(b.v1), p[m]);
    }
  }

  /** Encryption with the P array reversed undoes encryption. */
  lemma CryptReversed(x: Block, p: Subkeys, f: word -> word)
    ensures Crypt(Crypt(x, p, f), Reverse(p), f) == x
  {
    Retrace(x, p, f, ROUNDS);
    XorXor(x.v1, p[1], 0);
    XorXor(x.v0, p[0], 0);
  }

  lemma ReverseReverse(p: Subkeys)
    ensures Reverse(Reverse(p)) == p
  {
  }

  // ---- bf_enc ----

  /** The `BF_ENC` macro. */
  function F(s: Boxes): word -> word {
    (x: word) =>
      Add(Xor(Add(s[x / 0x100_0000], s[256 + x / 0x1_0000 % 256]), s[512 + x / 0x100 % 256]), s[768 + x % 256])
  }

  function Enc(x: Block, key: Key): Block {
    Crypt(x, key.p, F(key.s))
  }

  function Dec(x: Block, key: Key): Block {
    Enc(x, key.(p := Reverse(key.p)))
  }

  /** For any key tables, `bf_enc` is a bijection on 64-bit blocks. */
  lemma EncIsPermutation(x: Block, key: Key)
    ensures Dec(Enc(x, key), key) == x
    ensures Enc(Dec(x, key), key) == x
  {
    CryptReversed(x, key.p, F(key.s));
    CryptReversed(x, Reverse(key.p), F(key.s));
    ReverseReverse(key.p);
  }

  /** A key as `bf_setkey` builds it: both tables updated in place. */
  class KeyTables {
    const p: array<word>
    const s: array<word>

    ghost predicate Valid()
    {
      p.Length == 18 && s.Length == 1024 && p != s
    }

    ghost function Value(): Key
      requires Valid()
      reads p, s
    {
      Key(p[..], s[..])
    }

    constructor (pinit: Subkeys, sinit: Boxes)
      ensures Valid() && fresh(p) && fresh(s) && Value() == Key(pinit, sinit)
    {
      p := new word[18](i requires 0 <= i < 18 => pinit[i]);
      s := new word[1024](i requires 0 <= i < 1024 => sinit[i]);
      new;
      assert p[..] == pinit && s[..] == sinit;
    }

    method Encrypt(x: Block) returns (y: Block)
      requires Valid()
      ensures y == Enc(x, Value())
    {
      var l, r := x.v0, x.v1;
      for i := 0 to ROUNDS
        invariant Block(l, r) == Rounds(x, p[..], F(s[..]), i)
      {
        l := Xor(l, p[i]);
        r := Xor(r, F(s[..])(l));
        l, r := r, l;
      }
      y := Block(Xor(r, p[ROUNDS + 1]), Xor(l, p[ROUNDS]));
    }

    /** XORs the key octets into the P array, starting over at the end of the key. */
    method MixKey(kp: seq<byte>)
      requires Valid() && 0 < |kp|
      modifies p
      ensures p[..] == Mixed(old(p[..]), kp)
    {
      var j := 0;
      for i := 0 to 18
        invariant j == 4 * i % |kp|
        invariant forall q :: 0 <= q < i ==> p[q] == Xor(old(p[q]), KeyWord(kp, 4 * q, 4))
        invariant forall q :: i <= q < 18 ==> p[q] == old(p[q])
      {
        var data;
        data, j := NextKeyWord(kp, 4 * i, j);
        p[i] := Xor(p[i], data);
      }
      assert p[..] == Mixed(old(p[..]), kp);
    }

    ghost predicate Reached(key: Key, n: nat, d: Block)
      requires Valid() && n <= 521
      reads p, s
    {
      Chain(key, n) == (Value(), d)
    }

    /** Replaces words `i` and `i + 1` of the P array by the next encryption. */
    method NextSubkeys(d: Block, i: nat, ghost key: Key, ghost n: nat) returns (e: Block)
      requires Valid() && i == 2 * n && i < 18
      requires Reached(key, n, d)
      modifies p
      ensures Reached(key, n + 1, e)
    {
      e := Encrypt(d);
      p[i] := e.v0;
      p[i + 1] := e.v1;
      assert p[..] == old(p[..])[i := e.v0][i + 1 := e.v1];
    }

    method NextBoxWords(d: Block, i: nat, ghost key: Key, ghost n: nat) returns (e: Block)
      requires Valid() && i == 2 * (n - 9) && i < 1024
      requires Reached(key, n, d)
      modifies s
      ensures Reached(key, n + 1, e)
    {
      e := Encrypt(d);
      s[i] := e.v0;
      s[i + 1] := e.v1;
      assert s[..] == old(s[..])[i := e.v0][i + 1 := e.v1];
    }

    method FillSubkeys(d: Block, ghost key: Key, ghost start: nat) returns (e: Block, ghost n: nat)
      requires Valid() && start == 0 && Reached(key, start, d)
      modifies p
      ensures 2 * n == p.Length && Reached(key, n, e)
    {
      e, n := d, start;
      var i := 0;
      while i < 18
        invariant i == 2 * n <= p.Length
        invariant Reached(key, n, e)
      {
        e := NextSubkeys(e, i, key, n);
        i, n := i + 2, n + 1;
      }
    }

    method FillBox(d: Block, box: nat, ghost key: Key, ghost start: nat) returns (e: Block, ghost n: nat)
      requires Valid() && box < 4 && start == 9 + 128 * box
      requires Reached(key, start, d)
      modifies s
      ensures n == start + 128 && Reached(key, n, e)
    {
      e, n := d, start;
      var j := 0;
      while j < 256
        invariant n <= start + 128 && j == 2 * (n - start)
        invariant Reached(key, n, e)
      {
        e := NextBoxWords(e, 256 * box + j, key, n);
        j, n := j + 2, n + 1;
      }
    }

    /** `bf_setkey`: the P array and then the boxes are replaced by successive encryptions of zero. */
    method SetKey(kp: seq<byte>)
      requires Valid() && 0 < |kp|
      modifies p, s
      ensures Value() == ScheduledKey(old(Value()), kp)
    {
      MixKey(kp);
      ghost var key := Value();
      var d, n := FillSubkeys(Block(0, 0), key, 0);
      for box := 0 to 4
        invariant n == 9 + 128 * box
        invariant Reached(key, n, d)
      {
        d, n := FillBox(d, box, key, n);
      }
      ScheduledAfter(old(Value()), kp, key, n);
    }
  }

  /** Reads four key octets from index `j`, which wraps around, and leaves the index behind them. */
  method NextKeyWord(kp: seq<byte>, ghost at: nat, j: nat) returns (data: word, next: nat)
    requires 0 < |kp| && j == at % |kp|
    ensures data == KeyWord(kp, at, 4) && next == (at + 4) % |kp|
  {
    data, next := 0, j;
    for k := 0 to 4
      invariant next == (at + k) % |kp|
      invariant data == KeyWord(kp, at, k)
    {
      data := Shift(data, kp[next]);
      NextIndex(at + k, |kp|);
      next := next + 1;
      if next >= |kp| {
        next := 0;
      }
    }
  }

  function Shift(data: word, b: byte): word {
    ShiftLeft(data, 8) + b as int
  }

  /** The first `n` octets of the cyclically repeated key from offset `at`, most significant first. */
  function KeyWord(kp: seq<byte>, at: nat, n: nat): word
    requires 0 < |kp|
  {
    if n == 0 then 0 else Shift(KeyWord(kp, at, n - 1), kp[(at + n - 1) % |kp|])
  }

  function Mixed(p: Subkeys, kp: seq<byte>): Subkeys
    requires 0 < |kp|
  {
    seq(18, i requires 0 <= i < 18 => Xor(p[i], KeyWord(kp, 4 * i, 4)))
  }

  /** Key and chaining block after `n` of the 521 word pairs were replaced, P array first. */
  function Chain(key: Key, n: nat): (Key, Block)
    requires n <= 521
  {
    if n == 0 then (key, Block(0, 0)) else
      var (k, prev) := Chain(key, n - 1);
      var d := Enc(prev, k);
      (Replace(k, n - 1, d), d)
  }

  function Replace(key: Key, t: nat, d: Block): Key
    requires t < 521
  {
    if t < 9 then Key(key.p[2 * t := d.v0][2 * t + 1 := d.v1], key.s)
    else Key(key.p, key.s[2 * (t - 9) := d.v0][2 * (t - 9) + 1 := d.v1])
  }

  function ScheduledKey(key: Key, kp: seq<byte>): Key
    requires 0 < |kp|
  {
    Chain(key.(p := Mixed(key.p, kp)), (|key.p| + |key.s|) / 2).0
  }

  lemma ScheduledAfter(start: Key, kp: seq<byte>, key: Key, n: nat)
    requires 0 < |kp| && key == start.(p := Mixed(start.p, kp)) && n == 521
    ensures ScheduledKey(start, kp) == Chain(key, n).0
  {
  }

  // ---- what is computed ----

  /** The round function on the octets of its argument: the word `a` of the first box plus word `b` of the second,
      modulo 2^32; the exclusive or of that with word `c` of the third; plus word `d` of the fourth. */
  lemma FIs(s: Boxes, a: byte, b: byte, c: byte, d: byte, x: word) returns (t: word, u: word)
    requires x == ToNat([a, b, c, d])
    ensures t == (s[a] as int + s[256 + b as int] as int) % 0x1_0000_0000
    ensures EitherBits(t, s[512 + c as int], u)
    ensures F(s)(x) == (u as int + s[768 + d as int] as int) % 0x1_0000_0000
  {
    OctetsAre(a, b, c, d, x);
    t := Add(s[a], s[256 + b as int]);
    u := Xor(t, s[512 + c as int]);
    AddIs(s[a], s[256 + b as int]);
    XorIsEither(t, s[512 + c as int]);
    AddIs(u, s[768 + d as int]);
  }

  lemma OctetsAre(a: byte, b: byte, c: byte, d: byte, x: word)
    requires x == ToNat([a, b, c, d])
    ensures x / 0x100_0000 == a && x / 0x1_0000 % 256 == b && x / 0x100 % 256 == c && x % 256 == d
  {
    ToNatFour(a, b, c, d);
    RemainderUnique(x, 0x100_0000, a, 0x1_0000 * b as int + 0x100 * c as int + d as int);
    RemainderUnique(x, 0x1_0000, 0x100 * a as int + b as int, 0x100 * c as int + d as int);
    RemainderUnique(x, 0x100, 0x1_0000 * a as int + 0x100 * b as int + c as int, d);
    RemainderUnique(0x100 * a as int + b as int, 0x100, a, b);
    RemainderUnique(0x1_0000 * a as int + 0x100 * b as int + c as int, 0x100, 0x100 * a as int + b as int, c);
  }

  /** The network without its swapping: eighteen words, each made of the two before it; the last two, the first of them
      with the last subkey, are the result. */
  lemma NetworkIs(x: Block, p: Subkeys, f: word -> word) returns (l: seq<word>)
    ensures |l| == 18 && l[0] == x.v1 && l[1] == Xor(x.v0, p[0])
    ensures forall i :: 1 <= i <= 16 ==> l[i + 1] == Xor(Xor(l[i - 1], f(l[i])), p[i])
    ensures Crypt(x, p, f) == Block(Xor(l[16], p[17]), l[17])
  {
    l := Halves(x, p, f, |p| - 2);
  }

  lemma {:induction false} Halves(x: Block, p: Subkeys, f: word -> word, n: nat) returns (l: seq<word>)
    requires n <= 16
    ensures |l| == n + 2 && l[0] == x.v1 && l[1] == Xor(x.v0, p[0])
    ensures forall i :: 1 <= i <= n ==> l[i + 1] == Xor(Xor(l[i - 1], f(l[i])), p[i])
    ensures Rounds(x, p, f, n).v1 == l[n] && Xor(Rounds(x, p, f, n).v0, p[n]) == l[n + 1]
  {
    if n == 0 {
      l := [x.v1, Xor(x.v0, p[0])];
    } else {
      var m := Halves(x, p, f, n - 1);
      l := m + [Xor(Xor(m[n - 1], f(m[n])), p[n])];
    }
  }

  /** All words of a key, P array first. */
  function WordsOf(k: Key): (w: seq<word>)
    ensures |w| == 1042
  {
    k.p + k.s
  }

  function FromWords(w: seq<word>): Key
    requires |w| == 1042
  {
    Key(w[..18], w[18..])
  }

  /** Pair `t` of the words; before the first one is zero. */
  function PairBefore(w: seq<word>, t: nat): Block
    requires 2 * t <= |w|
  {
    if t == 0 then Block(0, 0) else Block(w[2 * t - 2], w[2 * t - 1])
  }

  lemma ReplaceIs(key: Key, t: nat, d: Block)
    requires t < 521
    ensures WordsOf(Replace(key, t, d)) == WordsOf(key)[2 * t := d.v0][2 * t + 1 := d.v1]
  {
  }

  lemma PairReplaced(w: seq<word>, v: seq<word>, was: seq<word>, t: nat, d: Block)
    requires 2 * t + 1 < |w| == |was| && v == w[2 * t := d.v0][2 * t + 1 := d.v1] && w[2 * t..] == was[2 * t..]
    ensures v[2 * (t + 1)..] == was[2 * (t + 1)..] && PairBefore(v, t + 1) == d && v[..2 * t] == w[..2 * t]
  {
    assert w[2 * (t + 1)..] == w[2 * t..][2..] && was[2 * (t + 1)..] == was[2 * t..][2..];
  }

  /** After `n` steps the words behind pair `n` are still the old ones, and the chaining block is pair `n - 1`. */
  lemma {:induction false} ChainIs(key: Key, n: nat)
    requires n <= 521
    ensures WordsOf(Chain(key, n).0)[2 * n..] == WordsOf(key)[2 * n..]
    ensures Chain(key, n).1 == PairBefore(WordsOf(Chain(key, n).0), n)
  {
    if n > 0 {
      ChainIs(key, n - 1);
      var (k, prev) := Chain(key, n - 1);
      var d := Enc(prev, k);
      ReplaceIs(k, n - 1, d);
      PairReplaced(WordsOf(k), WordsOf(Replace(k, n - 1, d)), WordsOf(key), n - 1, d);
    }
  }

  /** Pairs already replaced stay as they are. */
  lemma {:induction false} ChainKeeps(key: Key, n: nat, m: nat)
    requires n <= m <= 521
    ensures WordsOf(Chain(key, m).0)[..2 * n] == WordsOf(Chain(key, n).0)[..2 * n]
    decreases m
  {
    if n < m {
      ChainKeeps(key, n, m - 1);
      var (k, prev) := Chain(key, m - 1);
      ReplaceIs(k, m - 1, Enc(prev, k));
    }
  }

  lemma FromWordsOf(k: Key)
    ensures FromWords(WordsOf(k)) == k
  {
  }

  lemma NextPair(key: Key, t: nat, k: Key, prev: Block)
    requires t < 521 && Chain(key, t) == (k, prev)
    ensures Chain(key, t + 1).1 == Enc(prev, k)
  {
  }

  lemma Stitched(w: seq<word>, v: seq<word>, was: seq<word>, i: nat)
    requires i <= |w| == |v| == |was| && w[..i] == v[..i] && v[i..] == was[i..]
    ensures w[..i] + was[i..] == v
  {
    assert v == v[..i] + v[i..];
  }

  // Words `w` that agree with key `k` on the first `t` pairs and go on with what it encrypts the last of them to
  lemma PairIs(w: seq<word>, v: seq<word>, was: seq<word>, t: nat, k: Key, prev: Block)
    requires |w| == |v| == |was| == 1042 && t < 521 && w[..2 * t] == WordsOf(k)[..2 * t]
    requires WordsOf(k)[2 * t..] == was[2 * t..] && prev == PairBefore(WordsOf(k), t)
    requires w[..2 * (t + 1)] == v[..2 * (t + 1)] && PairBefore(v, t + 1) == Enc(prev, k)
    ensures PairBefore(w, t + 1) == Enc(PairBefore(w, t), FromWords(w[..2 * t] + was[2 * t..]))
  {
    PairsAgree(w, WordsOf(k), t);
    PairsAgree(w, v, t + 1);
    Stitched(w, WordsOf(k), was, 2 * t);
    FromWordsOf(k);
  }

  lemma PairsSettled(key: Key, t: nat, n: nat, w: seq<word>)
    requires t < n <= 521 && w == WordsOf(Chain(key, n).0)
    ensures w[..2 * t] == WordsOf(Chain(key, t).0)[..2 * t]
    ensures w[..2 * (t + 1)] == WordsOf(Chain(key, t + 1).0)[..2 * (t + 1)]
  {
    ChainKeeps(key, t, n);
    ChainKeeps(key, t + 1, n);
  }

  // Step `t` of the chain whose last state is `w`
  lemma ChainPair(key: Key, t: nat, n: nat, w: seq<word>, k: Key, prev: Block, next: (Key, Block))
    requires t < n <= 521 && w == WordsOf(Chain(key, n).0) && Chain(key, t) == (k, prev) && next == Chain(key, t + 1)
    ensures PairBefore(w, t + 1) == Enc(PairBefore(w, t), FromWords(w[..2 * t] + WordsOf(key)[2 * t..]))
  {
    PairsSettled(key, t, n, w);
    ChainIs(key, t);
    ChainIs(key, t + 1);
    NextPair(key, t, k, prev);
    PairIs(w, WordsOf(next.0), WordsOf(key), t, k, prev);
  }

  lemma PairsAgree(w: seq<word>, v: seq<word>, t: nat)
    requires 2 * t <= |w| == |v| && w[..2 * t] == v[..2 * t]
    ensures PairBefore(w, t) == PairBefore(v, t)
  {
    if t > 0 {
      assert w[2 * t - 2] == w[..2 * t][2 * t - 2] && w[2 * t - 1] == w[..2 * t][2 * t - 1];
    }
  }

  /** The key schedule by its result: pair `t` of the words is the encryption of the pair before it (of zero, at the
      start) under the key that has the result's words up to here and behind them the ones the schedule started from. */
  lemma ScheduleIs(start: Key, kp: seq<byte>, t: nat)
    requires 0 < |kp| && t < 521
    ensures var w := WordsOf(ScheduledKey(start, kp));
            PairBefore(w, t + 1)
            == Enc(PairBefore(w, t), FromWords(w[..2 * t] + (Mixed(start.p, kp) + start.s)[2 * t..]))
  {
    var key, n := start.(p := Mixed(start.p, kp)), (|start.p| + |start.s|) / 2;
    ScheduledAfter(start, kp, key, n);
    ChainPair(key, t, n, WordsOf(ScheduledKey(start, kp)), Chain(key, t).0, Chain(key, t).1, Chain(key, t + 1));
  }

  /** Where the schedule starts: subkey `i`, bit by bit, with the number that four key octets are, most significant
      first, the key starting over at its end. */
  lemma MixedIs(p: Subkeys, kp: seq<byte>, i: nat, n: nat)
    requires 0 < |kp| == n && i < 18
    ensures ToNat([kp[4 * i % n], kp[(4 * i + 1) % n], kp[(4 * i + 2) % n], kp[(4 * i + 3) % n]]) < 0x1_0000_0000
    ensures EitherBits(p[i], ToNat([kp[4 * i % n], kp[(4 * i + 1) % n], kp[(4 * i + 2) % n], kp[(4 * i + 3) % n]]),
                       Mixed(p, kp)[i])
  {
    KeyWordIs(kp, 4 * i, n);
    XorIsEither(p[i], KeyWord(kp, 4 * i, 4));
  }

  lemma ShiftIs(data: nat, b: byte)
    requires data < 0x100_0000
    ensures Shift(data, b) == 0x100 * data + b as int
  {
    assert Power2(8) == 0x100;
  }

  lemma KeyWordIs(kp: seq<byte>, at: nat, n: nat)
    requires 0 < |kp| == n
    ensures KeyWord(kp, at, 4) == ToNat([kp[at % n], kp[(at + 1) % n], kp[(at + 2) % n], kp[(at + 3) % n]])
  {
    var a, b, c, d := kp[at % n], kp[(at + 1) % n], kp[(at + 2) % n], kp[(at + 3) % n];
    assert KeyWord(kp, at, 0) == 0;
    ShiftIs(0, a);
    assert KeyWord(kp, at, 1) == a;
    ShiftIs(a, b);
    assert KeyWord(kp, at, 2) == 0x100 * a as int + b as int;
    ShiftIs(0x100 * a as int + b as int, c);
    assert KeyWord(kp, at, 3) == 0x1_0000 * a as int + 0x100 * b as int + c as int;
    ShiftIs(0x1_0000 * a as int + 0x100 * b as int + c as int, d);
    ToNatFour(a, b, c, d);
  }

  // ---- rtmpe9_sig ----

  /** Eight signature octets after encryption. */
  function Sign(s: seq<byte>, key: Key): (r: seq<byte>)
    requires |s| == 8
    ensures |r| == 8
  {
    ToBytes(Enc(ToBlock(s), key))
  }

  function Unsign(s: seq<byte>, key: Key): (r: seq<byte>)
    requires |s| == 8
    ensures |r| == 8
  {
    ToBytes(Dec(ToBlock(s), key))
  }

  /** `rtmpe9_sig` is a permutation of the 8-octet strings, for every scheduled key. */
  lemma SignIsPermutation(s: seq<byte>, key: Key)
    requires |s| == 8
    ensures Unsign(Sign(s, key), key) == s
    ensures Sign(Unsign(s, key), key) == s
  {
    var b := ToBlock(s);
    EncIsPermutation(b, key);
    BlockBytes(Enc(b, key));
    BlockBytes(Dec(b, key));
    BytesBlock(s);
  }

  /** The constant tables the cipher starts from: pi digits and the sixteen 24-octet signature keys. */
  datatype Tables = Tables(p: Subkeys, s: Boxes, keys: seq<SigKey>)

  type SigKey = k: seq<byte> | |k| == 24 witness seq(24, _ => 0)

  function KeyOf(t: Tables, keyid: nat): Key
    requires keyid < |t.keys|
  {
    ScheduledKey(Key(t.p, t.s), t.keys[keyid])
  }

  /** Encrypts the eight octets at `src[i..]` into `dst[j..]`; the two regions may be the same. */
  method Rtmpe9Sig(t: Tables, src: array<byte>, i: nat, dst: array<byte>, j: nat, keyid: nat)
    requires i + 8 <= src.Length && j + 8 <= dst.Length && keyid < |t.keys|
    modifies dst
    ensures dst[..] == Patch(old(dst[..]), j, Sign(old(src[i..i + 8]), KeyOf(t, keyid)))
  {
    var key := new KeyTables(t.p, t.s);
    key.SetKey(t.keys[keyid]);
    var l, r := LoadBlock(src, i);
    var y := key.Encrypt(Block(l, r));
    Store(dst, j, ToBytes(y));
  }
}
