/** Splitting an H.264 byte stream into NAL units (ITU-T H.264, section B.1), as `GetAnnexbNALU` does. */
module AnnexB {
  import opened Bytes
  import opened CFile

  // ---- start codes ----

  predicate Code3(s: seq<byte>, i: nat) {
    i + 3 <= |s| && s[i] == 0 && s[i + 1] == 0 && s[i + 2] == 1
  }

  predicate Code4(s: seq<byte>, i: nat) {
    i + 4 <= |s| && s[i] == 0 && s[i + 1] == 0 && s[i + 2] == 0 && s[i + 3] == 1
  }

  predicate CodeAt(s: seq<byte>, i: nat) {
    Code3(s, i) || Code4(s, i)
  }

  /** Length of the start code the stream begins with, 0 if it begins with none. */
  function PrefixLength(s: seq<byte>): (p: nat)
    ensures p != 0 <==> CodeAt(s, 0)
    ensures p <= |s| && (p == 0 || p == 3 || p == 4)
  {
    if Code3(s, 0) then 3 else if Code4(s, 0) then 4 else 0
  }

  /** Where the next start code begins, from `i` on; the end of the stream if there is none. */
  function NextCode(s: seq<byte>, i: nat): (e: nat)
    requires i <= |s|
    ensures i <= e <= |s|
    ensures e < |s| ==> CodeAt(s, e)
    ensures forall j :: i <= j < e ==> !CodeAt(s, j)
    decreases |s| - i
  {
    if i == |s| || CodeAt(s, i) then i else NextCode(s, i + 1)
  }

  lemma NextCodeIs(s: seq<byte>, i: nat, e: nat)
    requires i <= e <= |s| && (e == |s| || CodeAt(s, e))
    requires forall j :: i <= j < e ==> !CodeAt(s, j)
    ensures NextCode(s, i) == e
  {
  }

  /** A unit with the length of the start code before it. */
  datatype Unit = Unit(prefix: nat, nal: seq<byte>)

  function Code(prefix: nat): (c: seq<byte>)
    requires prefix == 3 || prefix == 4
    ensures |c| == prefix
  {
    if prefix == 3 then [0, 0, 1] else [0, 0, 0, 1]
  }

  /** All units of a stream that begins with a start code. */
  function Units(s: seq<byte>): (us: seq<Unit>)
    requires s == [] || CodeAt(s, 0)
    ensures forall i :: 0 <= i < |us| ==> us[i].prefix == 3 || us[i].prefix == 4
    decreases |s|
  {
    if s == [] then [] else
      var p := PrefixLength(s);
      var e := NextCode(s, p);
      RestBeginsWithCode(s, e);
      [Unit(p, s[p..e])] + Units(s[e..])
  }

  lemma RestBeginsWithCode(s: seq<byte>, e: nat)
    requires e <= |s| && (e < |s| ==> CodeAt(s, e))
    ensures s[e..] == [] || CodeAt(s[e..], 0)
  {
  }

  function Joined(us: seq<Unit>): seq<byte>
    requires forall i :: 0 <= i < |us| ==> us[i].prefix == 3 || us[i].prefix == 4
  {
    if us == [] then [] else Code(us[0].prefix) + us[0].nal + Joined(us[1..])
  }

  // ---- conservation ----

  ghost predicate ContainsCode(u: seq<byte>) {
    exists i: nat :: Code3(u, i)
  }

  lemma JoinedCons(u: Unit, us: seq<Unit>)
    requires u.prefix == 3 || u.prefix == 4
    requires forall i :: 0 <= i < |us| ==> us[i].prefix == 3 || us[i].prefix == 4
    ensures Joined([u] + us) == Code(u.prefix) + u.nal + Joined(us)
  {
    assert ([u] + us)[1..] == us;
  }

  lemma PrefixOctets(s: seq<byte>)
    requires CodeAt(s, 0)
    ensures s[..PrefixLength(s)] == Code(PrefixLength(s))
  {
  }

  /** Prefixes and units, put back together, are the whole stream. */
  lemma {:induction false} UnitsConserve(s: seq<byte>)
    requires s == [] || CodeAt(s, 0)
    ensures Joined(Units(s)) == s
    decreases |s|
  {
    if s != [] {
      var p := PrefixLength(s);
      var e := NextCode(s, p);
      RestBeginsWithCode(s, e);
      UnitsConserve(s[e..]);
      calc {
        Joined(Units(s));
        Joined([Unit(p, s[p..e])] + Units(s[e..]));
        { JoinedCons(Unit(p, s[p..e]), Units(s[e..])); }
        Code(p) + s[p..e] + s[e..];
        { PrefixOctets(s); ThreeParts(s, p, e); }
        s;
      }
    }
  }

  lemma CodeInSlice(s: seq<byte>, p: nat, e: nat, i: nat)
    requires p <= e <= |s| && Code3(s[p..e], i)
    ensures p + i < e && CodeAt(s, p + i)
  {
    var u := s[p..e];
    assert u[i] == s[p + i] && u[i + 1] == s[p + i + 1] && u[i + 2] == s[p + i + 2];
  }

  lemma ThreeParts(s: seq<byte>, p: nat, e: nat)
    requires p <= e <= |s|
    ensures s[..p] + s[p..e] + s[e..] == s
  {
  }

  /** No unit contains 00 00 01. */
  lemma {:induction false} UnitsAreClean(s: seq<byte>)
    requires s == [] || CodeAt(s, 0)
    ensures forall i :: 0 <= i < |Units(s)| ==> !ContainsCode(Units(s)[i].nal)
    decreases |s|
  {
    if s != [] {
      var p := PrefixLength(s);
      var e := NextCode(s, p);
      RestBeginsWithCode(s, e);
      UnitsAreClean(s[e..]);
      if ContainsCode(s[p..e]) {
        var i: nat :| Code3(s[p..e], i);
        CodeInSlice(s, p, e, i);
        assert false;
      }
    }
  }

  // ---- round trip ----

  ghost predicate Prefixed(us: seq<Unit>) {
    forall i :: 0 <= i < |us| ==> us[i].prefix == 3 || us[i].prefix == 4
  }

  /** No start code inside a unit, and no zero octet at its end where a three-octet code would take it in. */
  ghost predicate Splittable(us: seq<Unit>) {
    && (forall i :: 0 <= i < |us| ==> !ContainsCode(us[i].nal))
    && (forall i :: 0 <= i < |us| - 1 ==> !Absorbed(us[i].nal, us[i + 1].prefix))
  }

  predicate Absorbed(u: seq<byte>, nextPrefix: nat) {
    u != [] && u[|u| - 1] == 0 && nextPrefix == 3
  }

  lemma {:induction false} JoinedBeginsWithCode(us: seq<Unit>)
    requires Prefixed(us) && us != []
    ensures Joined(us) != [] && CodeAt(Joined(us), 0) && PrefixLength(Joined(us)) == us[0].prefix
  {
    var s, p := Joined(us), us[0].prefix;
    assert s[..p] == Code(p);
    assert s[..p][0] == 0 && s[..p][1] == 0 && s[..p][2] == if p == 3 then 1 else 0;
    assert p == 4 ==> s[..p][3] == 1;
  }

  lemma {:induction false} SplittableComesBack(us: seq<Unit>)
    requires Prefixed(us) && Splittable(us)
    ensures Joined(us) == [] || CodeAt(Joined(us), 0)
    ensures Units(Joined(us)) == us
    decreases |us|
  {
    if us != [] {
      var s, p := Joined(us), us[0].prefix;
      var e, rest := p + |us[0].nal|, us[1..];
      JoinedBeginsWithCode(us);
      assert Splittable(rest);
      SplittableComesBack(rest);
      FirstUnitEnds(us);
      assert s[p..e] == us[0].nal && s[e..] == Joined(rest);
    }
  }

  lemma {:induction false} ComesBackSplittable(us: seq<Unit>)
    requires Prefixed(us) && (Joined(us) == [] || CodeAt(Joined(us), 0)) && Units(Joined(us)) == us
    ensures Splittable(us)
    decreases |us|
  {
    UnitsAreClean(Joined(us));
    if us != [] {
      var s, p := Joined(us), us[0].prefix;
      var e, rest := p + |us[0].nal|, us[1..];
      JoinedBeginsWithCode(us);
      assert NextCode(s, p) == e;
      assert s[e..] == Joined(rest) && Units(s)[1..] == Units(s[e..]);
      AbsorbedIsMisread(us);
      ComesBackSplittable(rest);
    }
  }

  /** Units joined with any mix of start codes come back as they were, prefix lengths included, exactly when they
      are splittable. */
  lemma RoundTrip(us: seq<Unit>)
    requires Prefixed(us)
    ensures Joined(us) == [] || CodeAt(Joined(us), 0)
    ensures Units(Joined(us)) == us <==> Splittable(us)
  {
    if us != [] {
      JoinedBeginsWithCode(us);
    }
    if Splittable(us) {
      SplittableComesBack(us);
    }
    if Units(Joined(us)) == us {
      ComesBackSplittable(us);
    }
  }

  // Where the first unit of a splittable list ends, the splitter finds the next code, and not before
  lemma FirstUnitEnds(us: seq<Unit>)
    requires Prefixed(us) && us != [] && Splittable(us)
    ensures NextCode(Joined(us), us[0].prefix) == us[0].prefix + |us[0].nal|
  {
    var s, p := Joined(us), us[0].prefix;
    var e, rest := p + |us[0].nal|, us[1..];
    assert s[p..e] == us[0].nal && s[e..] == Joined(rest);
    if rest != [] {
      JoinedBeginsWithCode(rest);
      PrefixOctets(s[e..]);
      CodeAtShift(s, e);
      assert us[1] == rest[0];
    }
    forall j | p <= j < e
      ensures !CodeAt(s, j)
    {
      if CodeAt(s, j) {
        CodeReachesOut(us, j);
      }
    }
    NextCodeIs(s, p, e);
  }

  // A code beginning inside the first unit would lie inside it or take in its last octet
  lemma CodeReachesOut(us: seq<Unit>, j: nat)
    requires Prefixed(us) && us != [] && us[0].prefix <= j < us[0].prefix + |us[0].nal| && CodeAt(Joined(us), j)
    ensures ContainsCode(us[0].nal) || (|us| > 1 && Absorbed(us[0].nal, us[1].prefix))
  {
    var s, p := Joined(us), us[0].prefix;
    var e := p + |us[0].nal|;
    assert s[p..e] == us[0].nal && s[e..] == Joined(us[1..]);
    var k := Code3Near(s, j);
    if k + 3 <= e {
      CodeOfSlice(s, p, e, k);
    } else {
      assert us[0].nal[|us[0].nal| - 1] == s[p..e][e - 1 - p] == s[e - 1];
      NextPrefix(us, s, e);
    }
  }

  lemma CodeOfSlice(s: seq<byte>, p: nat, e: nat, k: nat)
    requires p <= k && k + 3 <= e <= |s| && Code3(s, k)
    ensures ContainsCode(s[p..e])
  {
    var u := s[p..e];
    assert u[k - p] == s[k] && u[k - p + 1] == s[k + 1] && u[k - p + 2] == s[k + 2];
    assert Code3(u, k - p);
  }

  lemma Code3Near(s: seq<byte>, e: nat) returns (k: nat)
    requires CodeAt(s, e)
    ensures e <= k <= e + 1 && Code3(s, k)
    ensures k == e + 1 ==> s[e] == 0
  {
    k := if Code3(s, e) then e else e + 1;
  }

  // The octets behind the first unit are those of the second one's start code
  lemma NextPrefix(us: seq<Unit>, s: seq<byte>, e: nat)
    requires Prefixed(us) && |us| > 0 && e < |s| && s[e..] == Joined(us[1..])
    ensures |us| > 1 && e + 3 <= |s| && s[e] == 0 && s[e + 1] == 0 && s[e + 2] == (if us[1].prefix == 3 then 1 else 0)
  {
    assert us[1..] != [];
    var r, q := s[e..], us[1].prefix;
    JoinedBeginsWithCode(us[1..]);
    PrefixOctets(r);
    assert r[0] == r[..q][0] && r[1] == r[..q][1] && r[2] == r[..q][2];
  }

  lemma AbsorbedIsMisread(us: seq<Unit>)
    requires Prefixed(us) && us != []
    requires NextCode(Joined(us), us[0].prefix) == us[0].prefix + |us[0].nal|
    ensures |us| > 1 ==> !Absorbed(us[0].nal, us[1].prefix)
  {
    var s, p, u := Joined(us), us[0].prefix, us[0].nal;
    var e := p + |u|;
    if |us| > 1 && Absorbed(u, us[1].prefix) {
      JoinedBeginsWithCode(us[1..]);
      assert s[p..e] == u && s[e..] == Joined(us[1..]);
      NextPrefix(us, s, e);
      assert s[e - 1] == u[|u| - 1];
      assert CodeAt(s, e - 1);
    }
  }

  lemma CodeAtShift(s: seq<byte>, e: nat)
    requires e <= |s| && CodeAt(s[e..], 0)
    ensures CodeAt(s, e)
  {
  }

  // ---- GetAnnexbNALU ----

  /** The NALU_t record; `len` octets of `buf` are the unit. */
  class NALU {
    var startcodeprefix_len: nat
    var len: nat
    const max_size: nat
    var forbidden_bit: nat
    var nal_reference_idc: nat
    var nal_unit_type: nat
    const buf: array<byte>

    constructor (max_size: nat)
      ensures this.max_size == max_size == buf.Length && fresh(buf) && len == 0
      ensures forall i :: 0 <= i < buf.Length ==> buf[i] == 0
    {
      this.max_size := max_size;
      startcodeprefix_len, len, forbidden_bit, nal_reference_idc, nal_unit_type := 0, 0, 0, 0, 0;
      buf := new byte[max_size](_ => 0);
    }

    ghost predicate Valid()
    {
      buf.Length == max_size > 0
    }

    /** The record holds this unit, with its header bits picked out of the first octet. */
    ghost predicate Holds(u: Unit)
      reads this, buf
    {
      && len == |u.nal| <= buf.Length && buf[..len] == u.nal && startcodeprefix_len == u.prefix
      && buf.Length > 0
      && forbidden_bit == buf[0] / 128 * 128 && nal_reference_idc == buf[0] / 32 % 4 * 32
      && nal_unit_type == buf[0] % 32
    }

    method SetHeader()
      requires buf.Length > 0
      modifies this`forbidden_bit, this`nal_reference_idc, this`nal_unit_type
      ensures forbidden_bit == buf[0] / 128 * 128 && nal_reference_idc == buf[0] / 32 % 4 * 32
      ensures nal_unit_type == buf[0] % 32
    {
      forbidden_bit := buf[0] / 128 * 128;
      nal_reference_idc := buf[0] / 32 % 4 * 32;
      nal_unit_type := buf[0] % 32;
    }
  }

  function FindStartCode2(b: seq<byte>): bool
    requires |b| == 3
  {
    !(b[0] != 0 || b[1] != 0 || b[2] != 1)
  }

  function FindStartCode3(b: seq<byte>): bool
    requires |b| == 4
  {
    !(b[0] != 0 || b[1] != 0 || b[2] != 0 || b[3] != 1)
  }

  /** The octets the scan holds at most: the first unit, its prefix and what is read behind it. */
  ghost function Footprint(s: seq<byte>): nat
    requires CodeAt(s, 0)
  {
    var e := NextCode(s, PrefixLength(s));
    if e == |s| then e + 1 else e + PrefixLength(s[e..])
  }

  /** The scan has read `pos` octets of the stream into `buf` and met no code since the prefix. */
  ghost predicate Scanned(s: seq<byte>, p: nat, pos: nat, b: seq<byte>) {
    && p <= pos <= |s| && pos <= |b| && b[..pos] == s[..pos]
    && (forall j :: p <= j && j + 3 <= pos ==> !Code3(s, j))
  }

  /** One more octet: either a code ends here, and the two tests tell which, or the scan goes on. */
  lemma ScanStep(s: seq<byte>, p: nat, pos: nat, b: seq<byte>)
    requires CodeAt(s, 0) && p == PrefixLength(s) && p < pos <= |s| && pos <= |b| && b[..pos] == s[..pos]
    requires forall j :: p <= j && j + 3 < pos ==> !Code3(s, j)
    ensures FindStartCode3(b[pos - 4..pos]) ==> NextCode(s, p) == pos - 4 < |s|
    ensures !FindStartCode3(b[pos - 4..pos]) && FindStartCode2(b[pos - 3..pos]) ==> NextCode(s, p) == pos - 3 < |s|
    ensures !FindStartCode3(b[pos - 4..pos]) && !FindStartCode2(b[pos - 3..pos]) ==> Scanned(s, p, pos, b)
  {
    assert b[pos - 4..pos] == b[..pos][pos - 4..] == s[pos - 4..pos];
    assert b[pos - 3..pos] == b[..pos][pos - 3..] == s[pos - 3..pos];
    TestsAreCodes(s, pos);
    assert s[p - 1] == 1 && s[p - 2] == 0;
    if FindStartCode3(b[pos - 4..pos]) {
      assert pos - 4 >= p;
      NoCodeBefore(s, p, pos - 4);
      NextCodeIs(s, p, pos - 4);
    } else if FindStartCode2(b[pos - 3..pos]) {
      assert pos - 3 >= p;
      NoCodeBefore(s, p, pos - 3);
      NextCodeIs(s, p, pos - 3);
    }
  }

  lemma TestsAreCodes(s: seq<byte>, pos: nat)
    requires 4 <= pos <= |s|
    ensures FindStartCode3(s[pos - 4..pos]) <==> Code4(s, pos - 4)
    ensures FindStartCode2(s[pos - 3..pos]) <==> Code3(s, pos - 3)
    ensures Code4(s, pos - 4) ==> Code3(s, pos - 3)
  {
    var four, three := s[pos - 4..pos], s[pos - 3..pos];
    assert four[0] == s[pos - 4] && four[1] == s[pos - 3] && four[2] == s[pos - 2] && four[3] == s[pos - 1];
    assert three[0] == s[pos - 3] && three[1] == s[pos - 2] && three[2] == s[pos - 1];
  }

  lemma NoCodeBefore(s: seq<byte>, p: nat, e: nat)
    requires p <= e <= |s| && forall j :: p <= j < e ==> !Code3(s, j)
    requires e > p ==> !Code4(s, e - 1)
    ensures forall j :: p <= j < e ==> !CodeAt(s, j)
  {
    forall j | p <= j < e
      ensures !CodeAt(s, j)
    {
      if Code4(s, j) {
        assert Code3(s, j + 1);
      }
    }
  }

  /** Reads one unit, leaving the stream at the next start code or, with the end-of-file indicator set, at its end.
      Returns the octets consumed; 0 when the stream ends within a start code, -1 when it begins with none. */
  method GetAnnexbNALU(bits: File, nalu: NALU) returns (ret: int)
    requires bits.pos <= |bits.data| && !bits.eof
    requires nalu.Valid() && nalu.max_size >= 4
    requires CodeAt(bits.Rest(), 0) ==> Footprint(bits.Rest()) <= nalu.max_size
    modifies bits, nalu, nalu.buf
    ensures var s := old(bits.Rest());
            if CodeAt(s, 0) then
              var p := PrefixLength(s);
              var e := NextCode(s, p);
              && nalu.Holds(Unit(p, s[p..e])) && nalu.buf[e - p..] == old(nalu.buf[e - p..])
              && ret == e && bits.pos == old(bits.pos) + e && bits.eof == (e == |s|)
            else
              && ret == (if |s| < 4 then 0 else -1) && bits.eof == (|s| < 4)
              && nalu.buf[..] == old(nalu.buf[..])
  {
    ghost var s := bits.Rest();
    assert s == bits.data[|bits.data| - |s|..];
    var buf := new byte[nalu.max_size](_ => 0);
    ret := ReadPrefix(bits, buf, s);
    nalu.startcodeprefix_len := if ret == 4 then 4 else 3;
    if ret <= 0 {
      return;
    }
    ret := ScanUnit(bits, nalu, buf, ret, s);
  }

  /** Reads the start code and returns its length; 0 if the stream ends in it, -1 if there is none. */
  method ReadPrefix(bits: File, buf: array<byte>, ghost s: seq<byte>) returns (ret: int)
    requires s == bits.Rest() && bits.pos <= |bits.data| && !bits.eof && buf.Length >= 4
    modifies bits, buf
    ensures CodeAt(s, 0) ==> ret == PrefixLength(s) && !bits.eof && bits.pos == old(bits.pos) + ret
    ensures CodeAt(s, 0) ==> buf[..ret] == s[..ret]
    ensures !CodeAt(s, 0) ==> ret == (if |s| < 4 then 0 else -1) && bits.eof == (|s| < 4)
  {
    var d := bits.Read(3);
    if |d| != 3 {
      return 0;
    }
    Store(buf, 0, d);
    assert buf[0..3] == buf[..3] == s[..3] == s[0..3];
    if FindStartCode2(buf[0..3]) {
      assert s[0..3][0] == s[0] && s[0..3][1] == s[1] && s[0..3][2] == s[2];
      return 3;
    }
    d := bits.Read(1);
    if |d| != 1 {
      assert s[0..3][0] == s[0] && s[0..3][1] == s[1] && s[0..3][2] == s[2];
      return 0;
    }
    Store(buf, 3, d);
    assert buf[0..4] == buf[..4] == s[..4] == s[0..4];
    assert s[0..4][0] == s[0] && s[0..4][1] == s[1] && s[0..4][2] == s[2] && s[0..4][3] == s[3];
    assert s[0..3][0] == s[0] && s[0..3][1] == s[1] && s[0..3][2] == s[2];
    return if FindStartCode3(buf[0..4]) then 4 else -1;
  }

  /** One turn of the scan loop: reads an octet and looks for a start code that ends with it. */
  method ScanOctet(bits: File, buf: array<byte>, prefix: nat, pos: nat, ghost s: seq<byte>)
    returns (info2: bool, info3: bool)
    requires CodeAt(s, 0) && prefix == PrefixLength(s) && Scanned(s, prefix, pos, buf[..]) && pos < buf.Length
    requires |s| <= |bits.data| && s == bits.data[|bits.data| - |s|..]
    requires bits.pos == |bits.data| - |s| + pos && !bits.eof
    modifies bits, buf
    ensures pos == |s| ==> bits.eof && bits.pos == |bits.data| && !info2 && !info3
    ensures pos == |s| ==> buf[..|s|] == s && NextCode(s, prefix) == |s|
    ensures pos < |s| ==> !bits.eof && bits.pos == old(bits.pos) + 1 && buf[..pos + 1] == s[..pos + 1]
    ensures info3 ==> pos < |s| && NextCode(s, prefix) == pos - 3
    ensures !info3 && info2 ==> pos < |s| && NextCode(s, prefix) == pos - 2
    ensures pos < |s| && !info3 && !info2 ==> Scanned(s, prefix, pos + 1, buf[..])
  {
    var c := bits.Getc();
    assert pos < |s| ==> c == s[pos];
    buf[pos] := if c == -1 then 255 else c;
    assert buf[..pos] == old(buf[..pos]) == s[..pos];
    info2 := false;
    info3 := FindStartCode3(buf[pos - 3..pos + 1]);
    if !info3 {
      info2 := FindStartCode2(buf[pos - 2..pos + 1]);
    }
    if c == -1 {
      assert buf[pos - 3..pos + 1][3] == 255 && buf[pos - 2..pos + 1][2] == 255;
      NoCodeToTheEnd(s, prefix, old(buf[..]));
    } else {
      assert buf[..][..pos + 1] == s[..pos + 1];
      assert buf[..][pos - 3..pos + 1] == buf[pos - 3..pos + 1] && buf[..][pos - 2..pos + 1] == buf[pos - 2..pos + 1];
      ScanStep(s, prefix, pos + 1, buf[..]);
    }
  }

  /** The scan loop: reads to the end of the next start code, or past the end of the file. */
  method Scan(bits: File, buf: array<byte>, prefix: nat, ghost s: seq<byte>) returns (pos: nat, info3: bool)
    requires CodeAt(s, 0) && prefix == PrefixLength(s) && Footprint(s) <= buf.Length
    requires |s| <= |bits.data| && s == bits.data[|bits.data| - |s|..] && bits.pos == |bits.data| - |s| + prefix
    requires !bits.eof && buf[..prefix] == s[..prefix]
    modifies bits, buf
    ensures prefix < pos <= buf.Length && (bits.eof ==> pos == |s| + 1)
    ensures NextCode(s, prefix) == pos - (if bits.eof then 1 else if info3 then 4 else 3)
    ensures var e := NextCode(s, prefix); prefix <= e && buf[..e] == s[..e] && (bits.eof <==> e == |s|)
    ensures bits.pos == |bits.data| - |s| + if bits.eof then |s| else pos
  {
    ghost var start := |bits.data| - |s|;
    pos := prefix;
    var info2 := false;
    info3 := false;
    while !info2 && !info3
      invariant !info2 && !info3 && !bits.eof ==> Scanned(s, prefix, pos, buf[..]) && bits.pos == start + pos
      invariant !info2 && !info3 && bits.eof ==> NextCode(s, prefix) == |s| == pos - 1 && bits.pos == start + |s|
      invariant !info2 && !info3 && bits.eof ==> prefix < pos <= buf.Length && buf[..pos - 1] == s[..pos - 1]
      invariant info2 || info3 ==> prefix < pos <= |s| && pos <= buf.Length && buf[..pos] == s[..pos]
      invariant info2 || info3 ==> !bits.eof && bits.pos == start + pos
      invariant info3 ==> NextCode(s, prefix) == pos - 4
      invariant !info3 && info2 ==> NextCode(s, prefix) == pos - 3
      decreases !info2 && !info3, !bits.eof, |s| + 1 - pos
    {
      if bits.eof {
        return;
      }
      Bounded(s, prefix, pos, buf[..]);
      info2, info3 := ScanOctet(bits, buf, prefix, pos, s);
      pos := pos + 1;
    }
    ghost var e := NextCode(s, prefix);
    assert buf[..e] == buf[..pos][..e] == s[..pos][..e] == s[..e];
  }

  /** Scans for the end of the unit, rewinds over a start code that was found, and fills the record. */
  method ScanUnit(bits: File, nalu: NALU, buf: array<byte>, prefix: nat, ghost s: seq<byte>) returns (ret: int)
    requires CodeAt(s, 0) && prefix == PrefixLength(s) && Footprint(s) <= buf.Length
    requires |s| <= |bits.data| && s == bits.data[|bits.data| - |s|..] && bits.pos == |bits.data| - |s| + prefix
    requires !bits.eof && nalu.Valid() && buf.Length == nalu.max_size && buf != nalu.buf
    requires nalu.startcodeprefix_len == prefix && buf[..prefix] == s[..prefix]
    modifies bits, nalu, nalu.buf, buf
    ensures var e := NextCode(s, prefix);
            && nalu.Holds(Unit(prefix, s[prefix..e])) && nalu.buf[e - prefix..] == old(nalu.buf[e - prefix..])
            && ret == e && bits.pos == |bits.data| - |s| + e && bits.eof == (e == |s|)
  {
    var pos, info3 := Scan(bits, buf, prefix, s);
    if bits.eof {
      FillRecord(nalu, buf, prefix, pos - 1, s);
      return pos - 1;
    }
    var rewind: int := if info3 then -4 else -3;
    var ok := bits.SeekBy(rewind);
    FillRecord(nalu, buf, prefix, pos + rewind, s);
    return pos + rewind;
  }

  method FillRecord(nalu: NALU, buf: array<byte>, prefix: nat, end: nat, ghost s: seq<byte>)
    requires prefix <= end <= |s| && end <= buf.Length == nalu.max_size && buf != nalu.buf && nalu.Valid()
    requires buf[..end] == s[..end] && nalu.startcodeprefix_len == prefix
    modifies nalu, nalu.buf
    ensures nalu.Holds(Unit(prefix, s[prefix..end]))
    ensures nalu.buf[end - prefix..] == old(nalu.buf[end - prefix..])
  {
    nalu.len := end - prefix;
    assert buf[prefix..end] == s[prefix..end] by {
      assert buf[prefix..end] == buf[..end][prefix..] && s[prefix..end] == s[..end][prefix..];
    }
    Store(nalu.buf, 0, buf[prefix..end]);
    assert nalu.buf[..end - prefix] == s[prefix..end];
    nalu.SetHeader();
  }

  // While the scan has met no code there is room for one more octet
  lemma Bounded(s: seq<byte>, p: nat, pos: nat, b: seq<byte>)
    requires CodeAt(s, 0) && p == PrefixLength(s) && Scanned(s, p, pos, b) && Footprint(s) <= |b|
    ensures pos < |b|
  {
    var e := NextCode(s, p);
    if e < |s| {
      var k := Code3Near(s, e);
    }
  }

  lemma NoCodeToTheEnd(s: seq<byte>, p: nat, b: seq<byte>)
    requires CodeAt(s, 0) && p == PrefixLength(s) && Scanned(s, p, |s|, b)
    ensures NextCode(s, p) == |s|
  {
    var e := NextCode(s, p);
    if e < |s| {
      var k := Code3Near(s, e);
    }
  }
}
