/** The RTP packets the push program sends for a list of NAL units, and the receiver's side of RFC 6184,
    sections 5.6 (single NAL unit packets) and 5.8 (fragmentation units). */
module FuA {
  import opened Bytes
  import opened Words

  const MAX_RTP_PKT_LENGTH := 1400
  const TIMESTAMP_INCREASE := 3600
  const FU_A := 28
  const H264 := 96

  /** Sequence numbers are 16 bits wide and wrap around. */
  type short = x: int | 0 <= x < 0x1_0000

  function Next(n: short): short {
    if n + 1 == 0x1_0000 then 0 else n + 1
  }

  function Advanced(n: short, t: nat): short {
    if t == 0 then n else Next(Advanced(n, t - 1))
  }

  lemma {:induction false} AdvancedIs(n: short, t: nat)
    ensures Advanced(n, t) == (n + t) % 0x1_0000
  {
    if t > 0 {
      AdvancedIs(n, t - 1);
      NextIndex(n + t - 1, 0x1_0000);
    }
  }

  lemma {:induction false} AdvancedTwice(n: short, s: nat, t: nat)
    ensures Advanced(Advanced(n, s), t) == Advanced(n, s + t)
  {
    if t > 0 {
      AdvancedTwice(n, s, t - 1);
    }
  }

  datatype Packet = Packet(marker: bool, seqNo: short, ts: word, body: seq<byte>)

  // ---- on the wire ----

  /** RTP header of twelve octets with SSRC 10, then the payload. */
  function Octets(p: Packet): (d: seq<byte>)
    ensures |d| == 12 + |p.body|
  {
    [128, H264 + if p.marker then 128 else 0] + BE16(p.seqNo) + StoreBE32(p.ts) + [0, 0, 0, 10] + p.body
  }

  function BE16(n: short): (b: seq<byte>)
    ensures |b| == 2
  {
    [n / 256, n % 256]
  }

  /** What a receiver reads out of a datagram (RFC 3550, section 5.1), numbers with their most significant octet
      first. */
  function Parse(d: seq<byte>): Packet
    requires |d| >= 12
  {
    ToNatTwo(d[2], d[3]);
    ToNatFour(d[4], d[5], d[6], d[7]);
    Packet(d[1] >= 128, ToNat([d[2], d[3]]), ToNat([d[4], d[5], d[6], d[7]]), d[12..])
  }

  /** On the wire: version 2 without padding, extension or CSRCs; the marker bit before payload type 96; sequence number
      and timestamp in network order; SSRC 10; the payload. The receiver gets the packet back. */
  lemma ParseOctets(p: Packet)
    ensures Parse(Octets(p)) == p
    ensures var d := Octets(p);
            && d[0] == 0x80 && d[1] == (if p.marker then 0xE0 else 0x60)
            && d[2] as int * 0x100 + d[3] as int == p.seqNo
            && d[4] as int * 0x100_0000 + d[5] as int * 0x1_0000 + d[6] as int * 0x100 + d[7] as int == p.ts
            && d[8..12] == [0, 0, 0, 10] && d[12..] == p.body
  {
    var d, t := Octets(p), StoreBE32(p.ts);
    assert d[4..8] == t;
    assert d[4] == t[0] && d[5] == t[1] && d[6] == t[2] && d[7] == t[3];
    assert t == [t[0], t[1], t[2], t[3]];
    BigEndian(p.ts);
    ToNatFour(t[0], t[1], t[2], t[3]);
    ToNatTwo(d[2], d[3]);
    assert d[12..] == p.body;
  }

  // ---- what is sent ----

  function Indicator(u: seq<byte>): byte
    requires u != []
  {
    u[0] / 32 * 32 + FU_A
  }

  function FuHeader(u: seq<byte>, start: bool, end: bool): byte
    requires u != []
  {
    (if start then 128 else 0) + (if end then 64 else 0) + u[0] % 32
  }

  /** Payload octets of fragment `t`; with `|u|` a multiple of 1400 the one before the last reaches one octet behind
      the unit. */
  function Chunk(u: seq<byte>, behind: byte, t: nat): seq<byte>
    requires t < FragmentCount(u)
  {
    (u + [behind])[t * 1400 + 1..ChunkEnd(u, t)]
  }

  function ChunkEnd(u: seq<byte>, t: nat): nat {
    if t < |u| / 1400 then t * 1400 + 1401 else |u|
  }

  /** The last fragment goes out only if at least two octets are left for it. */
  function FragmentCount(u: seq<byte>): nat {
    |u| / 1400 + if |u| % 1400 >= 2 then 1 else 0
  }

  function Fragment(u: seq<byte>, behind: byte, t: nat, seqNo: short, ts: word): Packet
    requires u != [] && t < FragmentCount(u)
  {
    var last := t == |u| / 1400;
    Packet(last, Advanced(seqNo, t), ts, [Indicator(u), FuHeader(u, t == 0, last)] + Chunk(u, behind, t))
  }

  /** The first `n` fragments. */
  function Fragments(u: seq<byte>, behind: byte, n: nat, seqNo: short, ts: word): (ps: seq<Packet>)
    requires u != [] && n <= FragmentCount(u)
    ensures |ps| == n
    ensures forall t :: 0 <= t < n ==> ps[t] == Fragment(u, behind, t, seqNo, ts)
  {
    if n == 0 then [] else Fragments(u, behind, n - 1, seqNo, ts) + [Fragment(u, behind, n - 1, seqNo, ts)]
  }

  /** All packets of one unit; a single one carries an extra zero octet. */
  function PacketsOf(u: seq<byte>, behind: byte, seqNo: short, ts: word): (ps: seq<Packet>)
    requires u != []
    ensures |ps| > 0
  {
    if |u| <= 1400 then [Packet(true, seqNo, ts, u + [0])]
    else Fragments(u, behind, FragmentCount(u), seqNo, ts)
  }

  /** Sequence numbers a unit uses up, sent or not. */
  function Slots(u: seq<byte>): nat {
    if |u| <= 1400 then 1 else |u| / 1400 + 1
  }

  ghost predicate NonEmpty(us: seq<seq<byte>>) {
    forall i :: 0 <= i < |us| ==> us[i] != []
  }

  function Last<T>(s: seq<T>): T
    requires s != []
  {
    s[|s| - 1]
  }

  function Front<T>(s: seq<T>): seq<T>
    requires s != []
  {
    s[..|s| - 1]
  }

  /** Octet `k` of the unit buffer after the units were read into it one after the other. */
  function Buffered(us: seq<seq<byte>>, k: nat): byte {
    if us == [] then 0 else if k < |Last(us)| then Last(us)[k] else Buffered(Front(us), k)
  }

  function SeqAfter(us: seq<seq<byte>>): short {
    if us == [] then 0 else Advanced(SeqAfter(Front(us)), Slots(Last(us)))
  }

  function TimeAfter(us: seq<seq<byte>>): word {
    if us == [] then 0 else Add(TimeAfter(Front(us)), TIMESTAMP_INCREASE)
  }

  /** Everything sent for a list of units. */
  function Run(us: seq<seq<byte>>): seq<Packet>
    requires NonEmpty(us)
  {
    if us == [] then [] else Run(Front(us)) + PacketsOfLast(us)
  }

  function PacketsOfLast(us: seq<seq<byte>>): (ps: seq<Packet>)
    requires NonEmpty(us) && us != []
    ensures |ps| > 0
  {
    PacketsOf(Last(us), Buffered(Front(us), |Last(us)|), SeqAfter(Front(us)), TimeAfter(us))
  }

  // ---- fragments rebuild their unit ----

  /** A payload as sections 5.6 and 5.8 read it: a fragment with its start and end bits, the header octet of the unit it
      is from (F and NRI of the indicator, type of the FU header) and the octets it carries; a whole unit; or nothing
      that these two sections know. */
  datatype View = Piece(start: bool, end: bool, header: byte, octets: seq<byte>) | Whole | Other

  /** The types a single NAL unit packet may have. */
  predicate SingleType(header: byte) {
    1 <= header % 32 <= 23
  }

  /** The types of the other payload structures: aggregation packets and fragmentation units. */
  predicate StructureType(header: byte) {
    24 <= header % 32 <= 29
  }

  function ViewOf(body: seq<byte>): View {
    if body == [] then Other
    else if SingleType(body[0]) then Whole
    else if body[0] % 32 != 28 || |body| < 2 then Other
    else Piece(body[1] / 128 == 1, body[1] / 64 % 2 == 1, body[0] / 32 * 32 + body[1] % 32, body[2..])
  }

  lemma FragmentView(u: seq<byte>, behind: byte, t: nat, seqNo: short, ts: word)
    requires u != [] && t < FragmentCount(u)
    ensures ViewOf(Fragment(u, behind, t, seqNo, ts).body)
         == Piece(t == 0, t == |u| / 1400, u[0], Chunk(u, behind, t))
  {
    var h, c := [Indicator(u), FuHeader(u, t == 0, t == |u| / 1400)], Chunk(u, behind, t);
    assert (h + c)[2..] == c;
  }

  ghost predicate AllPieces(vs: seq<View>) {
    forall i :: 0 <= i < |vs| ==> vs[i].Piece?
  }

  /** A complete fragmented unit: start bit on the first packet alone, end bit and marker on the last alone, the same
      header octet throughout. */
  ghost predicate Complete(ps: seq<Packet>, vs: seq<View>, header: byte)
    requires |vs| == |ps|
  {
    && |ps| >= 2 && AllPieces(vs)
    && (forall i :: 0 <= i < |ps| ==> vs[i].header == header && (vs[i].start <==> i == 0))
    && (forall i :: 0 <= i < |ps| ==> (vs[i].end <==> i == |ps| - 1) && (ps[i].marker <==> i == |ps| - 1))
  }

  function Views(ps: seq<Packet>): (vs: seq<View>)
    ensures |vs| == |ps| && forall i :: 0 <= i < |ps| ==> vs[i] == ViewOf(ps[i].body)
  {
    seq(|ps|, i requires 0 <= i < |ps| => ViewOf(ps[i].body))
  }

  function Carried(vs: seq<View>): seq<byte>
    requires AllPieces(vs)
  {
    if vs == [] then [] else Carried(Front(vs)) + Last(vs).octets
  }

  /** Where fragment `t` starts the octets before end, and where it ends those of the next one start. */
  lemma ChunkExtends(u: seq<byte>, behind: byte, t: nat, from: nat)
    requires |u| > 1400 && t < FragmentCount(u) && from <= t * 1400 + 1
    ensures t * 1400 + 1 <= ChunkEnd(u, t) <= |u| + 1
    ensures (u + [behind])[from..t * 1400 + 1] + Chunk(u, behind, t) == (u + [behind])[from..ChunkEnd(u, t)]
  {
  }

  ghost predicate Covers(v: View, w: seq<byte>, i: nat, j: nat) {
    i <= j <= |w| && v.Piece? && v.octets == w[i..j]
  }

  lemma SliceJoin<T>(w: seq<T>, i: nat, j: nat, k: nat)
    requires i <= j <= k <= |w|
    ensures w[i..j] + w[j..k] == w[i..k]
  {
  }

  /** Pieces that lie end to end in a buffer, put together, are the stretch they cover. */
  lemma {:induction false} CarriedIs(vs: seq<View>, w: seq<byte>, cut: nat -> nat)
    requires AllPieces(vs) && cut(0) <= |w|
    requires forall t :: 0 <= t < |vs| ==> Covers(vs[t], w, cut(t), cut(t + 1))
    ensures cut(0) <= cut(|vs|) <= |w| && Carried(vs) == w[cut(0)..cut(|vs|)]
    decreases |vs|
  {
    if vs != [] {
      var n := |vs| - 1;
      CarriedIs(Front(vs), w, cut);
      assert Covers(vs[n], w, cut(n), cut(n + 1));
      SliceJoin(w, cut(0), cut(n), cut(n + 1));
    }
  }

  lemma FragmentViews(u: seq<byte>, behind: byte, seqNo: short, ts: word)
    requires |u| > 1400
    ensures var ps := PacketsOf(u, behind, seqNo, ts);
            && |ps| == FragmentCount(u)
            && forall t :: 0 <= t < |ps| ==>
                 ps[t].marker == (t == |u| / 1400)
                 && Views(ps)[t] == Piece(t == 0, t == |u| / 1400, u[0], Chunk(u, behind, t))
  {
    var ps := PacketsOf(u, behind, seqNo, ts);
    forall t | 0 <= t < |ps|
      ensures ViewOf(ps[t].body) == Piece(t == 0, t == |u| / 1400, u[0], Chunk(u, behind, t))
    {
      FragmentView(u, behind, t, seqNo, ts);
    }
  }

  /** FU-A refines the unit: the fragments sent form a complete fragmented unit exactly when at least two octets are
      left for the last one; then there are `|u| / 1400 + 1`, and header octet and payloads are the unit. */
  lemma FragmentsRebuild(u: seq<byte>, behind: byte, seqNo: short, ts: word)
    requires |u| > 1400
    ensures var ps := PacketsOf(u, behind, seqNo, ts);
            && (Complete(ps, Views(ps), u[0]) <==> |u| % 1400 >= 2)
            && (|u| % 1400 >= 2 ==> |ps| == |u| / 1400 + 1 && [u[0]] + Carried(Views(ps)) == u)
  {
    var n, ps := FragmentCount(u), PacketsOf(u, behind, seqNo, ts);
    var vs := Views(ps);
    FragmentViews(u, behind, seqNo, ts);
    if |u| % 1400 < 2 {
      assert !vs[n - 1].end;
    } else {
      PiecesAre(u, behind, vs);
    }
  }

  lemma PieceCovers(v: View, u: seq<byte>, behind: byte, t: nat)
    requires |u| > 1400 && t < FragmentCount(u) && v.Piece? && v.octets == Chunk(u, behind, t)
    ensures Covers(v, u + [behind], t * 1400 + 1, ChunkEnd(u, t))
  {
  }

  /** Where piece `t` of `n` begins. */
  function PieceStart(u: seq<byte>, n: nat, t: nat): nat {
    if t < n then t * 1400 + 1 else |u|
  }

  lemma PieceEnd(u: seq<byte>, n: nat, t: nat)
    requires |u| > 1400 && |u| % 1400 >= 2 && n == FragmentCount(u) && t < n
    ensures PieceStart(u, n, t + 1) == ChunkEnd(u, t)
  {
  }

  lemma PiecesAre(u: seq<byte>, behind: byte, vs: seq<View>)
    requires |u| > 1400 && |u| % 1400 >= 2 && |vs| == FragmentCount(u) && AllPieces(vs)
    requires forall t :: 0 <= t < |vs| ==> vs[t].octets == Chunk(u, behind, t)
    ensures [u[0]] + Carried(vs) == u
  {
    var n, w, cut := |vs|, u + [behind], (t: nat) => PieceStart(u, |vs|, t);
    forall t | 0 <= t < n
      ensures Covers(vs[t], w, cut(t), cut(t + 1))
    {
      PieceEnd(u, n, t);
      PieceCovers(vs[t], u, behind, t);
    }
    CarriedIs(vs, w, cut);
    WholeUnit(u, behind);
  }

  lemma WholeUnit(u: seq<byte>, behind: byte)
    requires u != []
    ensures [u[0]] + (u + [behind])[1..|u|] == u
  {
  }

  // ---- numbering ----

  ghost predicate Consecutive(ps: seq<Packet>) {
    forall i :: 0 <= i < |ps| - 1 ==> ps[i + 1].seqNo == Next(ps[i].seqNo)
  }

  /** The last fragment of such a unit is not sent. */
  predicate CutShort(u: seq<byte>) {
    |u| > 1400 && |u| % 1400 < 2
  }

  lemma UnitNumbering(u: seq<byte>, behind: byte, seqNo: short, ts: word)
    requires u != []
    ensures var ps := PacketsOf(u, behind, seqNo, ts);
            && Consecutive(ps) && ps[0].seqNo == seqNo
            && (forall i :: 0 <= i < |ps| ==> ps[i].ts == ts)
            && (Next(Last(ps).seqNo) == Advanced(seqNo, Slots(u)) <==> !CutShort(u))
  {
    var ps := PacketsOf(u, behind, seqNo, ts);
    if |u| > 1400 {
      assert Last(ps) == Fragment(u, behind, |ps| - 1, seqNo, ts);
    }
  }

  lemma ConsecutiveAppend(a: seq<Packet>, b: seq<Packet>)
    requires a != [] && b != []
    ensures Consecutive(a + b) <==> Consecutive(a) && Consecutive(b) && b[0].seqNo == Next(Last(a).seqNo)
  {
    var c := a + b;
    if Consecutive(c) {
      assert c[|a| - 1 + 1].seqNo == Next(c[|a| - 1].seqNo);
      forall i | 0 <= i < |a| - 1
        ensures a[i + 1].seqNo == Next(a[i].seqNo)
      {
        assert c[i + 1].seqNo == Next(c[i].seqNo);
      }
      forall i | 0 <= i < |b| - 1
        ensures b[i + 1].seqNo == Next(b[i].seqNo)
      {
        assert c[|a| + i + 1].seqNo == Next(c[|a| + i].seqNo);
      }
    }
  }

  lemma {:induction false} RunNumbering(us: seq<seq<byte>>)
    requires NonEmpty(us) && us != []
    ensures Run(us) != [] && (Next(Last(Run(us)).seqNo) == SeqAfter(us) <==> !CutShort(Last(us)))
    ensures Consecutive(Run(us)) <==> forall i :: 0 <= i < |us| - 1 ==> !CutShort(us[i])
    decreases |us|
  {
    var front, b := Front(us), PacketsOfLast(us);
    UnitNumbering(Last(us), Buffered(front, |Last(us)|), SeqAfter(front), TimeAfter(us));
    assert Run(us) == Run(front) + b && Last(Run(us)) == Last(b);
    assert SeqAfter(us) == Advanced(SeqAfter(front), Slots(Last(us)));
    if front == [] {
      assert Run(us) == b;
    } else {
      RunNumbering(front);
      ConsecutiveAppend(Run(front), b);
      assert forall i :: 0 <= i < |front| ==> front[i] == us[i];
    }
  }

  lemma {:induction false} ConsecutiveIs(ps: seq<Packet>, j: nat)
    requires Consecutive(ps) && j < |ps|
    ensures ps[j].seqNo == (ps[0].seqNo + j) % 0x1_0000
  {
    if j > 0 {
      ConsecutiveIs(ps, j - 1);
      assert ps[j - 1 + 1].seqNo == Next(ps[j - 1].seqNo);
      NextIndex(ps[0].seqNo + j - 1, 0x1_0000);
    }
  }

  lemma {:induction false} FirstNumber(us: seq<seq<byte>>)
    requires NonEmpty(us) && us != []
    ensures Run(us) != [] && Run(us)[0].seqNo == 0
    decreases |us|
  {
    var front := Front(us);
    if front == [] {
      UnitNumbering(Last(us), Buffered(front, |Last(us)|), SeqAfter(front), TimeAfter(us));
      assert Run(us) == PacketsOfLast(us);
    } else {
      FirstNumber(front);
    }
  }

  /** Whole-run numbering: the packets sent are numbered 0, 1, 2 and so on modulo 2^16 exactly when no unit but possibly
      the last one is cut short. */
  lemma SequenceNumbers(us: seq<seq<byte>>)
    requires NonEmpty(us)
    ensures (forall j :: 0 <= j < |Run(us)| ==> Run(us)[j].seqNo == j % 0x1_0000)
       <==> (forall i :: 0 <= i < |us| - 1 ==> !CutShort(us[i]))
  {
    if us != [] {
      RunNumbering(us);
      FirstNumber(us);
      var ps := Run(us);
      if Consecutive(ps) {
        forall j | 0 <= j < |ps|
          ensures ps[j].seqNo == j % 0x1_0000
        {
          ConsecutiveIs(ps, j);
        }
      } else {
        var i :| 0 <= i < |ps| - 1 && ps[i + 1].seqNo != Next(ps[i].seqNo);
        NextIndex(i, 0x1_0000);
      }
    }
  }

  /** All packets of unit `i` carry the timestamp 3600 * (i + 1) modulo 2^32. */
  lemma {:induction false} Timestamps(us: seq<seq<byte>>, i: nat, j: nat)
    requires NonEmpty(us) && i < |us|
    requires |Run(us[..i])| <= j < |Run(us[..i + 1])|
    ensures j < |Run(us)| && Run(us)[j].ts == 3600 * (i + 1) % 0x1_0000_0000
    decreases |us|
  {
    if i == |us| - 1 {
      assert us[..i] == Front(us) && us[..i + 1] == us;
      UnitNumbering(Last(us), Buffered(Front(us), |Last(us)|), SeqAfter(Front(us)), TimeAfter(us));
      TimeAfterIs(us);
    } else {
      var front := Front(us);
      assert front[..i] == us[..i] && front[..i + 1] == us[..i + 1];
      Timestamps(front, i, j);
    }
  }

  lemma {:induction false} TimeAfterIs(us: seq<seq<byte>>)
    ensures TimeAfter(us) == 3600 * |us| % 0x1_0000_0000
    decreases |us|
  {
    if us != [] {
      TimeAfterIs(Front(us));
      AddIsModular(3600 * |Front(us)|, TIMESTAMP_INCREASE);
    }
  }

  // ---- the receiver ----

  /** A receiver is between units, or collects one and knows the sequence number that has to follow. */
  datatype Receiver = Idle | Collecting(nal: seq<byte>, next: short)

  /** One packet: single units pass, fragments are collected, a unit with a fragment missing is dropped, and so is what
      has a reserved type. */
  function Receive(r: Receiver, p: Packet): (Receiver, seq<seq<byte>>) {
    match ViewOf(p.body)
    case Whole => (Idle, [p.body])
    case Other => (Idle, [])
    case Piece(start, end, header, octets) =>
      if start && end then (Idle, [])
      else if start then (Collecting([header] + octets, Next(p.seqNo)), [])
      else if r.Idle? || r.next != p.seqNo then (Idle, [])
      else if end then (Idle, [r.nal + octets])
      else (Collecting(r.nal + octets, Next(p.seqNo)), [])
  }

  function Feed(r: Receiver, ps: seq<Packet>): (Receiver, seq<seq<byte>>) {
    if ps == [] then (r, []) else
      var (r1, out) := Feed(r, Front(ps));
      var (r2, more) := Receive(r1, Last(ps));
      (r2, out + more)
  }

  lemma {:induction false} FeedAppend(r: Receiver, a: seq<Packet>, b: seq<Packet>)
    ensures Feed(r, a + b) == (Feed(Feed(r, a).0, b).0, Feed(r, a).1 + Feed(Feed(r, a).0, b).1)
    decreases |b|
  {
    if b == [] {
      assert a + b == a && Feed(r, a).1 + [] == Feed(r, a).1;
    } else {
      assert Front(a + b) == a + Front(b) && Last(a + b) == Last(b);
      FeedAppend(r, a, Front(b));
      var more := Feed(Feed(r, a).0, Front(b));
      Regrouped(Feed(r, a).1, more.1, Receive(more.0, Last(b)).1);
    }
  }

  lemma FeedSnoc(r: Receiver, ps: seq<Packet>, p: Packet, r1: Receiver, r2: Receiver, out: seq<seq<byte>>)
    requires Feed(r, ps) == (r1, []) && Receive(r1, p) == (r2, out)
    ensures Feed(r, ps + [p]) == (r2, out)
  {
    assert Front(ps + [p]) == ps && Last(ps + [p]) == p;
    assert [] + out == out;
  }

  /** The receiver after `t` fragments of a unit. */
  function GotSoFar(u: seq<byte>, behind: byte, seqNo: short, t: nat): Receiver {
    Collecting((u + [behind])[..if t * 1400 <= |u| then t * 1400 + 1 else 0], Advanced(seqNo, t))
  }

  lemma ReceiveFragment(r: Receiver, u: seq<byte>, behind: byte, t: nat, seqNo: short, ts: word)
    requires |u| > 1400 && t < FragmentCount(u) && (t > 0 ==> r == GotSoFar(u, behind, seqNo, t))
    ensures Receive(r, Fragment(u, behind, t, seqNo, ts))
         == if t == |u| / 1400 then (Idle, [u]) else (GotSoFar(u, behind, seqNo, t + 1), [])
  {
    FragmentView(u, behind, t, seqNo, ts);
    ChunkExtends(u, behind, t, 0);
    assert t == 0 ==> (u + [behind])[0..1] == [u[0]];
    assert (u + [behind])[0..|u|] == u;
  }

  /** Packets that each take the receiver to its next state and deliver nothing. */
  lemma {:induction false} Silent(r: Receiver, ps: seq<Packet>, held: nat -> Receiver)
    requires forall t :: 0 <= t < |ps| ==> Receive(if t == 0 then r else held(t), ps[t]) == (held(t + 1), [])
    ensures Feed(r, ps) == (if ps == [] then r else held(|ps|), [])
    decreases |ps|
  {
    if ps != [] {
      Silent(r, Front(ps), held);
      var n := |ps| - 1;
      assert Last(ps) == ps[n] && Receive(if n == 0 then r else held(n), ps[n]) == (held(n + 1), []);
      var none: seq<seq<byte>> := [];
      assert Feed(r, Front(ps)).1 == none && none + none == none;
    }
  }

  lemma HalfReceived(r: Receiver, u: seq<byte>, behind: byte, seqNo: short, ts: word, k: nat)
    requires |u| > 1400 && k == |u| / 1400
    ensures Feed(r, Fragments(u, behind, k, seqNo, ts)) == (GotSoFar(u, behind, seqNo, k), [])
  {
    var most, held := Fragments(u, behind, k, seqNo, ts), (t: nat) => GotSoFar(u, behind, seqNo, t);
    forall t | 0 <= t < k
      ensures Receive(if t == 0 then r else held(t), most[t]) == (held(t + 1), [])
    {
      ReceiveFragment(if t == 0 then r else held(t), u, behind, t, seqNo, ts);
    }
    Silent(r, most, held);
  }

  lemma LastFragmentDelivers(r: Receiver, u: seq<byte>, behind: byte, seqNo: short, ts: word, k: nat)
    requires |u| > 1400 && |u| % 1400 >= 2 && k == |u| / 1400
    ensures Feed(r, Fragments(u, behind, k, seqNo, ts) + [Fragment(u, behind, k, seqNo, ts)]) == (Idle, [u])
  {
    var held := GotSoFar(u, behind, seqNo, k);
    HalfReceived(r, u, behind, seqNo, ts, k);
    ReceiveFragment(held, u, behind, k, seqNo, ts);
    FeedSnoc(r, Fragments(u, behind, k, seqNo, ts), Fragment(u, behind, k, seqNo, ts), held, Idle, [u]);
  }

  lemma PacketsOfLong(u: seq<byte>, behind: byte, seqNo: short, ts: word, k: nat)
    requires |u| > 1400 && k == |u| / 1400
    ensures PacketsOf(u, behind, seqNo, ts)
         == Fragments(u, behind, k, seqNo, ts) + if |u| % 1400 >= 2 then [Fragment(u, behind, k, seqNo, ts)] else []
  {
  }

  lemma FragmentsDelivered(r: Receiver, u: seq<byte>, behind: byte, seqNo: short, ts: word)
    requires |u| > 1400
    ensures Feed(r, PacketsOf(u, behind, seqNo, ts)).1 == if |u| % 1400 >= 2 then [u] else []
  {
    var k := |u| / 1400;
    PacketsOfLong(u, behind, seqNo, ts, k);
    if |u| % 1400 >= 2 {
      LastFragmentDelivers(r, u, behind, seqNo, ts, k);
    } else {
      HalfReceived(r, u, behind, seqNo, ts, k);
      assert PacketsOf(u, behind, seqNo, ts) == Fragments(u, behind, k, seqNo, ts);
    }
  }

  /** What a receiver makes of one unit's packets. */
  function Delivered(u: seq<byte>): seq<seq<byte>> {
    if u != [] && |u| <= 1400 then if 1 <= u[0] % 32 <= 23 then [u + [0]] else []
    else if |u| % 1400 >= 2 then [u] else []
  }

  lemma UnitDelivered(r: Receiver, u: seq<byte>, behind: byte, seqNo: short, ts: word)
    requires u != [] && (|u| <= 1400 ==> !StructureType(u[0]))
    ensures Feed(r, PacketsOf(u, behind, seqNo, ts)).1 == Delivered(u)
  {
    var ps := PacketsOf(u, behind, seqNo, ts);
    if |u| <= 1400 {
      assert Front(ps) == [] && (u + [0])[0] == u[0];
    } else {
      FragmentsDelivered(r, u, behind, seqNo, ts);
    }
  }

  function AllDelivered(us: seq<seq<byte>>): seq<seq<byte>> {
    if us == [] then [] else AllDelivered(Front(us)) + Delivered(Last(us))
  }

  /** No unit short enough to be sent by itself passes for an aggregation packet or a fragment. */
  ghost predicate Unmistakable(us: seq<seq<byte>>)
    requires NonEmpty(us)
  {
    forall i :: 0 <= i < |us| ==> |us[i]| <= 1400 ==> !StructureType(us[i][0])
  }

  /** From sender to receiver: a unit over 1400 octets arrives as it was exactly when it is not cut short, and not at
      all otherwise; a shorter one arrives with a zero octet behind it exactly when its type is 1 to 23. Nothing else
      arrives, and the order is kept. */
  lemma {:induction false} UnitsArrive(us: seq<seq<byte>>)
    requires NonEmpty(us) && Unmistakable(us)
    ensures Feed(Idle, Run(us)).1 == AllDelivered(us)
    decreases |us|
  {
    if us != [] {
      var front, u := Front(us), Last(us);
      UnitsArrive(front);
      FeedAppend(Idle, Run(front), PacketsOfLast(us));
      UnitDelivered(Feed(Idle, Run(front)).0, u, Buffered(front, |u|), SeqAfter(front), TimeAfter(us));
    }
  }

  // ---- inputs the sender fails on ----

  /** A unit of 2800 octets is sent in two fragments that no receiver can complete, and does not arrive. */
  lemma CutShortUnit(u: seq<byte>, behind: byte, r: Receiver, seqNo: short, ts: word)
    requires u == seq(2800, _ => 65)
    ensures var ps := PacketsOf(u, behind, seqNo, ts);
            |ps| == 2 && !Complete(ps, Views(ps), u[0]) && Feed(r, ps).1 == []
  {
    FragmentsRebuild(u, behind, seqNo, ts);
    UnitDelivered(r, u, behind, seqNo, ts);
  }

  /** Behind it the next unit's sequence number leaves a gap: 0, 1, 3. */
  lemma NumbersWithGap(u: seq<byte>)
    requires u == seq(2800, _ => 65)
    ensures NonEmpty([u, [65]]) && !Consecutive(Run([u, [65]]))
  {
    var us := [u, [65]];
    RunNumbering(us);
    assert CutShort(us[0]);
  }
}
