/** The program that pushes an Annex B file as RTP packets: it builds each datagram in place in its send buffer. */
module RtpPush {
  import opened Bytes
  import opened Words
  import opened CFile
  import opened AnnexB
  import opened FuA

  const BUFFER_SIZE := 8000000

  function Wire(ps: seq<Packet>): (ds: seq<seq<byte>>)
    ensures |ds| == |ps| && forall i :: 0 <= i < |ps| ==> ds[i] == Octets(ps[i])
  {
    seq(|ps|, i requires 0 <= i < |ps| => Octets(ps[i]))
  }

  lemma WireAppend(a: seq<Packet>, b: seq<Packet>)
    ensures Wire(a + b) == Wire(a) + Wire(b)
  {
  }

  lemma HeaderBits(b: byte)
    ensures b / 128 * 128 + b / 32 % 4 * 32 == b / 32 * 32
    ensures b / 128 * 128 / 128 == b / 128 && b / 32 % 4 * 32 / 32 == b / 32 % 4
    ensures b / 32 * 32 + b % 32 == b
  {
  }

  /** `datagram` with the header octets that stay the same within a unit. */
  ghost predicate Stamped(b: seq<byte>, time: seq<byte>) {
    |b| == 1500 && |time| == 4 && b[0] == 128 && b[1] % 128 == H264 && b[4..8] == time && b[8..12] == [0, 0, 0, 10]
  }

  lemma DatagramIs(b: seq<byte>, p: Packet, time: seq<byte>)
    requires Stamped(b, time) && time == StoreBE32(p.ts) && 12 + |p.body| <= 1500
    requires b[1] == H264 + (if p.marker then 128 else 0) && b[2..4] == BE16(p.seqNo) && b[12..12 + |p.body|] == p.body
    ensures b[..12 + |p.body|] == Octets(p)
  {
    var n := 12 + |p.body|;
    assert b[..n] == b[..2] + b[2..4] + b[4..8] + b[8..12] + b[12..n];
    assert b[..2] == [b[0], b[1]];
  }

  /** Datagrams sent, next sequence number and last timestamp. */
  datatype Progress = Progress(sent: seq<seq<byte>>, seqNo: short, ts: word)

  /** Where the program stands when these units are out. */
  function After(us: seq<seq<byte>>): Progress
    requires NonEmpty(us)
  {
    Progress(Wire(Run(us)), SeqAfter(us), TimeAfter(us))
  }

  /** The same with one more unit out, under the timestamp already set. */
  function UnitSent(p: Progress, u: seq<byte>, behind: byte): Progress
    requires u != []
  {
    Progress(p.sent + Wire(PacketsOf(u, behind, p.seqNo, p.ts)), Advanced(p.seqNo, Slots(u)), p.ts)
  }

  /** The record holds unit `u` with room for an octet behind it. */
  ghost predicate Loaded(n: NALU, u: seq<byte>)
    reads n, n.buf
  {
    && n.Valid() && 0 < n.len < n.buf.Length && u == n.buf[..n.len] && n.Holds(Unit(n.startcodeprefix_len, u))
  }

  /** What the first `t` turns of the fragment loop send. */
  function SentBefore(u: seq<byte>, behind: byte, t: nat, first: short, ts: word): (ds: seq<seq<byte>>)
    requires u != []
    ensures t == 0 ==> ds == []
    ensures |u| > 1400 && t == |u| / 1400 + 1 ==> ds == Wire(PacketsOf(u, behind, first, ts))
  {
    Wire(Fragments(u, behind, if t < FragmentCount(u) then t else FragmentCount(u), first, ts))
  }

  lemma SentNext(u: seq<byte>, behind: byte, t: nat, first: short, ts: word)
    requires u != []
    ensures SentBefore(u, behind, t + 1, first, ts)
         == SentBefore(u, behind, t, first, ts)
            + if t < FragmentCount(u) then [Octets(Fragment(u, behind, t, first, ts))] else []
  {
    if t < FragmentCount(u) {
      WireAppend(Fragments(u, behind, t, first, ts), [Fragment(u, behind, t, first, ts)]);
    }
  }

  lemma SingleBody(b: seq<byte>, u: seq<byte>)
    requires u != [] && 13 + |u| <= |b|
    requires b[12] == u[0] && b[13..12 + |u|] == u[1..] && b[12 + |u|] == 0
    ensures b[12..13 + |u|] == u + [0]
  {
    assert b[12..13 + |u|] == [b[12]] + b[13..12 + |u|] + [b[12 + |u|]];
  }

  lemma SingleSent(u: seq<byte>, behind: byte, seqNo: short, ts: word)
    requires 0 < |u| <= 1400
    ensures Wire(PacketsOf(u, behind, seqNo, ts)) == [Octets(Packet(true, seqNo, ts, u + [0]))]
    ensures Advanced(seqNo, Slots(u)) == Next(seqNo)
  {
    assert Advanced(seqNo, 1) == Next(Advanced(seqNo, 0));
  }

  lemma ChunkInBuffer(b: seq<byte>, u: seq<byte>, t: nat)
    requires |u| < |b| && b[..|u|] == u && |u| > 1400 && t < FragmentCount(u)
    ensures t * 1400 + 1 <= ChunkEnd(u, t) <= |u| + 1 && ChunkEnd(u, t) - (t * 1400 + 1) <= 1400
    ensures b[t * 1400 + 1..ChunkEnd(u, t)] == Chunk(u, b[|u|], t)
  {
    assert b[..|u| + 1] == u + [b[|u|]];
    SliceOfSlice(b, 0, |u| + 1, t * 1400 + 1, ChunkEnd(u, t));
  }

  class Pusher {
    const sendbuf: array<byte>
    var seq_num: short
    var ts_current: word
    /** The datagrams handed to `sendto`, in order. */
    var sent: seq<seq<byte>>

    constructor ()
      ensures Valid() && fresh(sendbuf) && seq_num == 0 && ts_current == 0 && sent == []
    {
      sendbuf := new byte[1500](_ => 0);
      seq_num, ts_current, sent := 0, 0, [];
    }

    ghost predicate Valid() {
      sendbuf.Length == 1500
    }

    ghost function State(): Progress
      reads this
    {
      Progress(sent, seq_num, ts_current)
    }

    /** Marker bit and the next sequence number. */
    method Number(marker: bool, ghost time: seq<byte>)
      requires Valid() && Stamped(sendbuf[..], time)
      modifies sendbuf, this`seq_num
      ensures Stamped(sendbuf[..], time) && forall i :: 12 <= i < 1500 ==> sendbuf[i] == old(sendbuf[i])
      ensures sendbuf[1] == H264 + (if marker then 128 else 0) && sendbuf[2..4] == BE16(old(seq_num))
      ensures seq_num == Next(old(seq_num))
    {
      sendbuf[1] := sendbuf[1] % 128 + if marker then 128 else 0;
      Store(sendbuf, 2, BE16(seq_num));
      seq_num := Next(seq_num);
    }

    method SendTo(bytes: nat)
      requires Valid() && bytes <= 1500
      modifies this`sent
      ensures sent == old(sent) + [sendbuf[..bytes]]
    {
      sent := sent + [sendbuf[..bytes]];
    }

    /** Clears the buffer and writes the fixed header, with this unit's timestamp. */
    method StartUnit() returns (ghost time: seq<byte>)
      requires Valid()
      modifies sendbuf, this`ts_current
      ensures ts_current == Add(old(ts_current), TIMESTAMP_INCREASE) && time == StoreBE32(ts_current)
      ensures Stamped(sendbuf[..], time) && forall i :: 12 <= i < 1500 ==> sendbuf[i] == 0
    {
      forall i | 0 <= i < sendbuf.Length {
        sendbuf[i] := 0;
      }
      sendbuf[0] := 128;
      sendbuf[1] := H264;
      Store(sendbuf, 8, [0, 0, 0, 10]);
      ts_current := Add(ts_current, TIMESTAMP_INCREASE);
      var t := StoreBE32(ts_current);
      Store(sendbuf, 4, t);
      time := t;
    }

    /** A unit of at most 1400 octets: one packet, one octet longer than header and unit. */
    method SendSingle(n: NALU, ghost u: seq<byte>, ghost time: seq<byte>)
      requires Valid() && Stamped(sendbuf[..], time) && time == StoreBE32(ts_current)
      requires forall i :: 12 <= i < 1500 ==> sendbuf[i] == 0
      requires Loaded(n, u) && n.buf != sendbuf && n.len <= 1400
      modifies sendbuf, this`seq_num, this`sent
      ensures State() == UnitSent(old(State()), u, n.buf[n.len])
    {
      ghost var p := Packet(true, seq_num, ts_current, u + [0]);
      Number(true, time);
      WriteSingle(n, u, time);
      DatagramIs(sendbuf[..], p, time);
      SendTo(n.len + 12 + 1);
      SingleSent(u, n.buf[n.len], old(seq_num), ts_current);
    }

    /** NAL unit header and the rest of the unit. */
    method WriteSingle(n: NALU, ghost u: seq<byte>, ghost time: seq<byte>)
      requires Valid() && Stamped(sendbuf[..], time) && forall i :: 12 <= i < 1500 ==> sendbuf[i] == 0
      requires Loaded(n, u) && n.buf != sendbuf && n.len <= 1400
      modifies sendbuf
      ensures Stamped(sendbuf[..], time) && sendbuf[1] == old(sendbuf[1]) && sendbuf[2..4] == old(sendbuf[2..4])
      ensures sendbuf[12..13 + n.len] == u + [0]
    {
      HeaderBits(n.buf[0]);
      sendbuf[12] := n.forbidden_bit / 128 * 128 + n.nal_reference_idc / 32 * 32 + n.nal_unit_type;
      Store(sendbuf, 13, n.buf[1..n.len]);
      SingleBody(sendbuf[..], u);
    }

    /** FU indicator and FU header. */
    method WriteFu(n: NALU, start: bool, end: bool, ghost u: seq<byte>, ghost time: seq<byte>)
      requires Valid() && Stamped(sendbuf[..], time)
      requires Loaded(n, u) && n.buf != sendbuf
      modifies sendbuf
      ensures Stamped(sendbuf[..], time) && sendbuf[1] == old(sendbuf[1]) && sendbuf[2..4] == old(sendbuf[2..4])
      ensures sendbuf[12] == Indicator(u) && sendbuf[13] == FuHeader(u, start, end)
    {
      HeaderBits(n.buf[0]);
      sendbuf[12] := n.forbidden_bit / 128 * 128 + n.nal_reference_idc / 32 * 32 + FU_A;
      sendbuf[13] := (if start then 128 else 0) + (if end then 64 else 0) + n.nal_unit_type;
    }

    /** One turn of the fragment loop. */
    method SendFragment(n: NALU, t: nat, k: nat, l: nat, ghost u: seq<byte>, ghost first: short, ghost time: seq<byte>)
      requires Valid() && Stamped(sendbuf[..], time) && time == StoreBE32(ts_current)
      requires Loaded(n, u) && n.buf != sendbuf && n.len > 1400
      requires k == n.len / 1400 && l == n.len % 1400 && t <= k && seq_num == Advanced(first, t)
      modifies sendbuf, this`seq_num, this`sent
      ensures Stamped(sendbuf[..], time) && seq_num == Advanced(first, t + 1)
      ensures sent == old(sent)
                   + if t < FragmentCount(u) then [Octets(Fragment(u, n.buf[n.len], t, first, ts_current))] else []
    {
      var behind := n.buf[n.len];
      Number(k == t, time);
      if t < FragmentCount(u) {
        ChunkInBuffer(n.buf[..], u, t);
      }
      if t == 0 {
        WriteFu(n, true, false, u, time);
        assert n.buf[1..1401] == n.buf[..][1..1401];
        FinishFragment(n.buf[1..1401], u, behind, t, first, time);
      } else if k == t {
        WriteFu(n, false, true, u, time);
        if l > 1 {
          assert n.buf[t * 1400 + 1..t * 1400 + l] == n.buf[..][t * 1400 + 1..ChunkEnd(u, t)];
          FinishFragment(n.buf[t * 1400 + 1..t * 1400 + l], u, behind, t, first, time);
        }
      } else {
        WriteFu(n, false, false, u, time);
        assert n.buf[t * 1400 + 1..t * 1400 + 1401] == n.buf[..][t * 1400 + 1..ChunkEnd(u, t)];
        FinishFragment(n.buf[t * 1400 + 1..t * 1400 + 1401], u, behind, t, first, time);
      }
    }

    /** Copies the payload behind the headers and sends the datagram. */
    method FinishFragment(payload: seq<byte>, ghost u: seq<byte>, ghost behind: byte, ghost t: nat, ghost first: short,
        ghost time: seq<byte>)
      requires Valid() && Stamped(sendbuf[..], time) && time == StoreBE32(ts_current)
      requires u != [] && t < FragmentCount(u) && payload == Chunk(u, behind, t) && |payload| <= 1400
      requires sendbuf[12] == Indicator(u) && sendbuf[13] == FuHeader(u, t == 0, t == |u| / 1400)
      requires sendbuf[1] == H264 + (if t == |u| / 1400 then 128 else 0) && sendbuf[2..4] == BE16(Advanced(first, t))
      modifies sendbuf, this`sent
      ensures Stamped(sendbuf[..], time)
      ensures sent == old(sent) + [Octets(Fragment(u, behind, t, first, ts_current))]
    {
      Store(sendbuf, 14, payload);
      ghost var p := Fragment(u, behind, t, first, ts_current);
      assert sendbuf[12..12 + |p.body|] == p.body;
      assert sendbuf[2..4] == old(sendbuf[2..4]);
      DatagramIs(sendbuf[..], p, time);
      SendTo(|payload| + 12 + 2);
    }

    /** A unit of more than 1400 octets. */
    method SendFragments(n: NALU, ghost u: seq<byte>, ghost time: seq<byte>)
      requires Valid() && Stamped(sendbuf[..], time) && time == StoreBE32(ts_current)
      requires Loaded(n, u) && n.buf != sendbuf && n.len > 1400
      modifies sendbuf, this`seq_num, this`sent
      ensures State() == UnitSent(old(State()), u, n.buf[n.len])
    {
      var k, l, t := n.len / 1400, n.len % 1400, 0;
      ghost var first, behind := seq_num, n.buf[n.len];
      while t <= k
        invariant t <= k + 1 && Stamped(sendbuf[..], time) && seq_num == Advanced(first, t)
        invariant sent == old(sent) + SentBefore(u, behind, t, first, ts_current)
      {
        SendFragment(n, t, k, l, u, first, time);
        SentNext(u, behind, t, first, ts_current);
        t := t + 1;
      }
    }

    /** Sends the unit the record holds, the one after `us`. */
    method SendUnit(n: NALU, ghost us: seq<seq<byte>>, ghost u: seq<byte>)
      requires Valid() && Loaded(n, u) && n.buf != sendbuf
      requires NonEmpty(us) && State() == After(us) && n.buf[n.len] == Buffered(us, |u|)
      modifies this, sendbuf
      ensures NonEmpty(us + [u]) && State() == After(us + [u])
    {
      RunNext(us, u);
      ghost var time := StartUnit();
      if n.len <= 1400 {
        SendSingle(n, u, time);
      } else {
        SendFragments(n, u, time);
      }
    }

    /** The program's main loop over a file. */
    method Push(bits: File)
      requires Valid() && State() == Progress([], 0, 0)
      requires bits.pos == 0 && !bits.eof && bits.data != [] && Readable(bits.data)
      modifies this, sendbuf, bits
      ensures NonEmpty(Nals(Units(bits.data))) && sent == Wire(Run(Nals(Units(bits.data))))
      ensures bits.eof && bits.Rest() == []
    {
      var n := new NALU(BUFFER_SIZE);
      ghost var all, us: seq<seq<byte>> := Nals(Units(bits.data)), [];
      assert bits.Rest() == bits.data;
      while !bits.eof
        invariant bits.pos <= |bits.data| && bits.eof == (bits.Rest() == []) && Left(bits.Rest(), us, all)
        invariant Buffers(n.buf[..], us) && State() == After(us)
        decreases |bits.Rest()|
      {
        ghost var s := bits.Rest();
        LeftNext(s, us, all);
        ghost var u := ReadNext(bits, n, us);
        SendUnit(n, us, u);
        us := us + [u];
      }
      assert all == us;
    }
  }

  /** Reads a unit into the record, which keeps the rest of what it held. */
  method ReadNext(bits: File, n: NALU, ghost us: seq<seq<byte>>) returns (ghost u: seq<byte>)
    requires n.Valid() && n.max_size == BUFFER_SIZE && Buffers(n.buf[..], us)
    requires bits.pos <= |bits.data| && !bits.eof && bits.Rest() != [] && StartsUnit(bits.Rest())
    modifies bits, n, n.buf
    ensures u == FirstNal(old(bits.Rest())) && bits.Rest() == AfterFirst(old(bits.Rest()))
    ensures bits.pos <= |bits.data| && bits.eof == (bits.Rest() == [])
    ensures Loaded(n, u) && Buffers(n.buf[..], us + [u]) && n.buf[n.len] == Buffered(us, |u|)
  {
    ghost var s, was := bits.Rest(), n.buf[..];
    var ret := GetAnnexbNALU(bits, n);
    u := FirstNal(s);
    BuffersNext(was, n.buf[..], us, u);
  }

  /** A unit of at least one octet that the record's buffer is large enough for. */
  ghost predicate StartsUnit(s: seq<byte>) {
    CodeAt(s, 0) && NextCode(s, PrefixLength(s)) > PrefixLength(s) && Footprint(s) <= BUFFER_SIZE
  }

  function FirstNal(s: seq<byte>): seq<byte>
    requires CodeAt(s, 0)
  {
    s[PrefixLength(s)..NextCode(s, PrefixLength(s))]
  }

  function AfterFirst(s: seq<byte>): (r: seq<byte>)
    requires CodeAt(s, 0)
    ensures |r| < |s|
  {
    s[NextCode(s, PrefixLength(s))..]
  }

  /** Begins with a start code, every unit has an octet at least, and the record's buffer is large enough. */
  ghost predicate Readable(s: seq<byte>)
    decreases |s|
  {
    s == [] || (StartsUnit(s) && Readable(AfterFirst(s)))
  }

  /** These units were read, the others of `all` are still in the file. */
  ghost predicate Left(s: seq<byte>, us: seq<seq<byte>>, all: seq<seq<byte>>) {
    Readable(s) && NonEmpty(us) && all == us + Nals(Units(s))
  }

  lemma LeftNext(s: seq<byte>, us: seq<seq<byte>>, all: seq<seq<byte>>)
    requires s != [] && Left(s, us, all)
    ensures StartsUnit(s) && Left(AfterFirst(s), us + [FirstNal(s)], all)
  {
    NalsNext(s);
    assert us + ([FirstNal(s)] + Nals(Units(AfterFirst(s)))) == us + [FirstNal(s)] + Nals(Units(AfterFirst(s)));
  }

  function Nals(us: seq<Unit>): (ns: seq<seq<byte>>)
    ensures |ns| == |us| && forall i :: 0 <= i < |us| ==> ns[i] == us[i].nal
  {
    seq(|us|, i requires 0 <= i < |us| => us[i].nal)
  }

  ghost predicate Buffers(b: seq<byte>, us: seq<seq<byte>>) {
    |b| == BUFFER_SIZE && forall k :: 0 <= k < |b| ==> b[k] == Buffered(us, k)
  }

  lemma BuffersNext(was: seq<byte>, now: seq<byte>, us: seq<seq<byte>>, u: seq<byte>)
    requires Buffers(was, us) && |u| < |now| == |was| && now[..|u|] == u && now[|u|..] == was[|u|..]
    ensures Buffers(now, us + [u]) && now[|u|] == Buffered(us, |u|)
  {
    assert Last(us + [u]) == u && Front(us + [u]) == us;
    forall k | 0 <= k < |now|
      ensures now[k] == Buffered(us + [u], k)
    {
      if k < |u| {
        assert now[..|u|][k] == u[k];
      } else {
        assert now[|u|..][k - |u|] == was[|u|..][k - |u|];
      }
    }
    assert now[|u|..][0] == was[|u|..][0];
  }

  lemma RunNext(us: seq<seq<byte>>, u: seq<byte>)
    requires NonEmpty(us) && u != []
    ensures var more := us + [u];
            var stamped := After(us).(ts := Add(TimeAfter(us), TIMESTAMP_INCREASE));
            NonEmpty(more) && After(more) == UnitSent(stamped, u, Buffered(us, |u|))
  {
    var more := us + [u];
    assert Front(more) == us && Last(more) == u;
    WireAppend(Run(us), PacketsOfLast(more));
  }

  lemma NalsNext(s: seq<byte>)
    requires CodeAt(s, 0)
    ensures AfterFirst(s) == [] || CodeAt(AfterFirst(s), 0)
    ensures Nals(Units(s)) == [FirstNal(s)] + Nals(Units(AfterFirst(s)))
  {
    RestBeginsWithCode(s, NextCode(s, PrefixLength(s)));
  }

  // ---- from units to units ----

  ghost predicate Small(us: seq<Unit>) {
    forall i :: 0 <= i < |us| ==> FitsRecord(us, i)
  }

  /** Not empty, and with its prefix and what is read behind it no longer than the record's buffer. */
  predicate FitsRecord(us: seq<Unit>, i: nat)
    requires i < |us|
  {
    us[i].nal != [] && us[i].prefix + |us[i].nal| + (if i == |us| - 1 then 1 else us[i + 1].prefix) <= BUFFER_SIZE
  }

  lemma SmallRest(us: seq<Unit>)
    requires us != [] && Small(us)
    ensures FitsRecord(us, 0) && Small(us[1..])
  {
    var rest := us[1..];
    forall i | 0 <= i < |rest|
      ensures FitsRecord(rest, i)
    {
      assert FitsRecord(us, i + 1);
    }
  }

  /** A file joined from splittable, non-empty units that fit the record is one the program can read. */
  lemma {:induction false} JoinedIsReadable(us: seq<Unit>)
    requires Prefixed(us) && Splittable(us) && Small(us)
    ensures Readable(Joined(us)) && Units(Joined(us)) == us
    decreases |us|
  {
    SplittableComesBack(us);
    if us != [] {
      var s, rest := Joined(us), us[1..];
      JoinedBeginsWithCode(us);
      FirstUnitEnds(us);
      SmallRest(us);
      assert Splittable(rest);
      JoinedIsReadable(rest);
      assert AfterFirst(s) == Joined(rest);
      if rest != [] {
        JoinedBeginsWithCode(rest);
      }
    }
  }

  function ParseAll(ds: seq<seq<byte>>): seq<Packet>
    requires forall i :: 0 <= i < |ds| ==> |ds[i]| >= 12
  {
    seq(|ds|, i requires 0 <= i < |ds| => Parse(ds[i]))
  }

  lemma ParseWire(ps: seq<Packet>)
    ensures ParseAll(Wire(ps)) == ps
  {
    forall i | 0 <= i < |ps|
      ensures Parse(Wire(ps)[i]) == ps[i]
    {
      ParseOctets(ps[i]);
    }
  }

  /** End to end: of any file joined from splittable units the program's datagrams, read off the wire by the receiver,
      bring the units in order, each over 1400 octets unchanged or, if cut short, not at all, the others with a zero
      octet added if their type is 1 to 23. */
  lemma FileArrives(us: seq<Unit>)
    requires Prefixed(us) && Splittable(us) && Small(us)
    requires NonEmpty(Nals(us)) && Unmistakable(Nals(us))
    ensures Readable(Joined(us)) && NonEmpty(Nals(Units(Joined(us))))
    ensures Feed(Idle, ParseAll(Wire(Run(Nals(Units(Joined(us))))))).1 == AllDelivered(Nals(us))
  {
    JoinedIsReadable(us);
    ParseWire(Run(Nals(us)));
    UnitsArrive(Nals(us));
  }
}
