/** Octets, 32-bit words and the one buffer write (memcpy to an offset) that the modelled programs share. */
module Bytes {

  type byte = x: int | 0 <= x < 256

  /** `m` after `d` was copied over it at offset `pos`. */
  function Patch<T>(m: seq<T>, pos: nat, d: seq<T>): (r: seq<T>)
    requires pos + |d| <= |m|
    ensures |r| == |m|
    ensures r[pos..pos + |d|] == d
    ensures forall i :: 0 <= i < |m| && !(pos <= i < pos + |d|) ==> r[i] == m[i]
  {
    m[..pos] + d + m[pos + |d|..]
  }

  /** Copies `d` into the buffer at offset `pos`. */
  method Store<T>(a: array<T>, pos: nat, d: seq<T>)
    requires pos + |d| <= a.Length
    modifies a
    ensures a[..] == Patch(old(a[..]), pos, d)
  {
    forall i | 0 <= i < |d| {
      a[pos + i] := d[i];
    }
    assert a[..] == Patch(old(a[..]), pos, d);
  }

  // ---- numbers ----

  /** The number that octets stand for, most significant first. */
  function ToNat(b: seq<byte>): nat {
    if b == [] then 0 else ToNat(b[..|b| - 1]) * 0x100 + b[|b| - 1] as int
  }

  lemma ToNatOne(a: byte)
    ensures ToNat([a]) == a
  {
    assert [a][..0] == [];
  }

  lemma ToNatTwo(a: byte, b: byte)
    ensures ToNat([a, b]) == a as int * 0x100 + b as int
  {
    assert [a, b][..1] == [a];
    ToNatOne(a);
  }

  lemma ToNatThree(a: byte, b: byte, c: byte)
    ensures ToNat([a, b, c]) == a as int * 0x1_0000 + b as int * 0x100 + c as int
  {
    assert [a, b, c][..2] == [a, b];
    ToNatTwo(a, b);
  }

  lemma ToNatFour(a: byte, b: byte, c: byte, d: byte)
    ensures ToNat([a, b, c, d]) == a as int * 0x100_0000 + b as int * 0x1_0000 + c as int * 0x100 + d as int
  {
    assert [a, b, c, d][..3] == [a, b, c];
    ToNatThree(a, b, c);
  }

  // ---- concatenation of pieces ----

  function Flat<T>(ss: seq<seq<T>>): seq<T> {
    if ss == [] then [] else ss[0] + Flat(ss[1..])
  }

  lemma {:induction false} FlatAppend<T>(a: seq<seq<T>>, b: seq<seq<T>>)
    ensures Flat(a + b) == Flat(a) + Flat(b)
  {
    if a == [] {
      assert a + b == b;
    } else {
      assert (a + b)[1..] == a[1..] + b;
      FlatAppend(a[1..], b);
    }
  }

  lemma FlatSnoc<T>(a: seq<seq<T>>, s: seq<T>)
    ensures Flat(a + [s]) == Flat(a) + s
  {
    FlatAppend(a, [s]);
    assert Flat([s]) == s + Flat<T>([]);
  }

  /** Piece `i` sits behind the pieces before it. */
  lemma FlatAt<T>(ss: seq<seq<T>>, i: nat)
    requires i < |ss|
    ensures Flat(ss[..i + 1]) == Flat(ss[..i]) + ss[i]
    ensures |Flat(ss[..i])| + |ss[i]| <= |Flat(ss)|
    ensures Flat(ss)[|Flat(ss[..i])|..|Flat(ss[..i])| + |ss[i]|] == ss[i]
    ensures Flat(ss)[|Flat(ss[..i])| + |ss[i]|..] == Flat(ss[i + 1..])
  {
    assert ss[..i + 1] == ss[..i] + [ss[i]];
    FlatSnoc(ss[..i], ss[i]);
    assert ss == ss[..i + 1] + ss[i + 1..];
    FlatAppend(ss[..i + 1], ss[i + 1..]);
  }

  lemma Regrouped<T>(a: seq<T>, b: seq<T>, c: seq<T>)
    ensures a + b + c == a + (b + c)
  {
  }

  lemma SliceOfSlice<T>(s: seq<T>, a: nat, b: nat, i: nat, j: nat)
    requires a <= b <= |s| && i <= j <= b - a
    ensures s[a..b][i..j] == s[a + i..a + j]
  {
    forall k | 0 <= k < j - i
      ensures s[a..b][i..j][k] == s[a + i..a + j][k]
    {
      assert s[a..b][i + k] == s[a + i + k];
    }
  }

  lemma SliceOfMiddle<T>(a: seq<T>, b: seq<T>, c: seq<T>, i: nat, j: nat)
    requires i <= j <= |b|
    ensures (a + b + c)[|a| + i..|a| + j] == b[i..j]
  {
    assert (a + b + c)[|a|..|a| + |b|] == b;
    SliceOfSlice(a + b + c, |a|, |a| + |b|, i, j);
  }

  /** Piece `i` of the concatenation between a head and a tail. */
  lemma PieceInPlace<T>(head: seq<T>, pieces: seq<seq<T>>, tail: seq<T>, i: nat)
    requires i < |pieces|
    ensures var at := |head| + |Flat(pieces[..i])|;
            var s := head + Flat(pieces) + tail;
            at + |pieces[i]| + |tail| <= |s| && s[at..at + |pieces[i]|] == pieces[i]
    ensures |Flat(pieces[..i + 1])| == |Flat(pieces[..i])| + |pieces[i]|
  {
    FlatAt(pieces, i);
    var at := |Flat(pieces[..i])|;
    SliceOfMiddle(head, Flat(pieces), tail, at, at + |pieces[i]|);
  }

  // ---- remainders ----

  lemma AtLeastOne(n: int, d: int)
    requires 0 <= n && 1 <= d
    ensures n <= n * d
  {
  }

  lemma RemainderUnique(i: nat, n: nat, q: nat, r: nat)
    requires r < n && i == n * q + r
    ensures i / n == q && i % n == r
  {
    var d := i / n - q;
    assert n * d == r - i % n;
    if d >= 1 {
      AtLeastOne(n, d);
    } else if d <= -1 {
      AtLeastOne(n, -d);
    }
  }

  /** Stepping a cyclic index is the code's "back to 0 at the end". */
  lemma NextIndex(i: nat, n: nat)
    requires 0 < n
    ensures (i + 1) % n == if i % n + 1 >= n then 0 else i % n + 1
  {
    var q, r := i / n, i % n;
    if r + 1 < n {
      RemainderUnique(i + 1, n, q, r + 1);
    } else {
      RemainderUnique(i + 1, n, q + 1, 0);
    }
  }
}
