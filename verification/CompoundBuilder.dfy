/** Size accounting of the RTCP compound packet builder (RFC 3550, sections 6.4 and 6.5). */
module CompoundBuilder {
  import opened Bytes
  import opened Sdes
  import opened Wrappers

  const COMMON_HEADER: nat := 4
  const SENDER_REPORT: nat := 20
  const RECEIVER_REPORT: nat := 24
  const MAX_PER_PACKET: nat := 31

  // ---- one packet can count to 31 ----

  /** The packets that `xs` goes into: full ones first, the rest in the last. */
  function Split<T>(xs: seq<T>): (gs: seq<seq<T>>)
    ensures Flat(gs) == xs
    ensures forall i :: 0 <= i < |gs| ==> 0 < |gs[i]| <= MAX_PER_PACKET
    ensures forall i :: 0 <= i < |gs| - 1 ==> |gs[i]| == MAX_PER_PACKET
  {
    if xs == [] then [] else if |xs| <= MAX_PER_PACKET then [xs] else [xs[..31]] + Split(xs[31..])
  }

  /** The code's count of packets. */
  function PacketCount(n: nat): nat {
    n / 31 + if n % 31 != 0 then 1 else 0
  }

  lemma {:induction false} SplitCount<T>(xs: seq<T>)
    ensures |Split(xs)| == PacketCount(|xs|)
  {
    if |xs| > MAX_PER_PACKET {
      SplitCount(xs[31..]);
    }
  }

  // ---- sender and receiver reports ----

  /** The octets of the report packets holding these groups of blocks: header and SSRC in each, sender info in the
      first. */
  function ReportOctets(isSR: bool, groups: seq<nat>): nat {
    if groups == [] then 0 else
      COMMON_HEADER + 4 + (if isSR then SENDER_REPORT else 0) + groups[0] * RECEIVER_REPORT
      + ReportOctets(false, groups[1..])
  }

  function Lengths<T>(gs: seq<seq<T>>): (ns: seq<nat>)
    ensures |ns| == |gs|
  {
    seq(|gs|, i requires 0 <= i < |gs| => |gs[i]|)
  }

  /** Sender info (RFC 3550, section 6.4.1): NTP and RTP timestamps, the sender's packet and octet counts. */
  datatype SenderInfo = SenderInfo(ntpHigh: Octets4, ntpLow: Octets4, rtp: Octets4, packets: Octets4, octets: Octets4)

  /** A report block: whom it is about, fraction lost, packets lost (24 bits), highest sequence number, jitter, last
      sender report and the delay since. */
  datatype ReportBlock = ReportBlock(ssrc: Octets4, fraction: byte, lost: (byte, byte, byte), highest: Octets4,
                                     jitter: Octets4, last: Octets4, delay: Octets4)

  function InfoOctets(i: Option<SenderInfo>): seq<byte> {
    if i == Option.None then []
    else i.value.ntpHigh + i.value.ntpLow + i.value.rtp + i.value.packets + i.value.octets
  }

  function BlockOctets(b: ReportBlock): seq<byte> {
    b.ssrc + [b.fraction, b.lost.0, b.lost.1, b.lost.2] + b.highest + b.jitter + b.last + b.delay
  }

  /** A report packet: version 2 and the block count, packet type 200 or 201, length in words minus one, the reporter's
      SSRC, sender info in a sender report, the blocks. */
  ghost function ReportPacket(ssrc: Octets4, info: Option<SenderInfo>, blocks: seq<ReportBlock>): seq<byte>
    requires |blocks| <= 31
  {
    var body := ssrc + InfoOctets(info) + Flat(BlockPieces(blocks));
    [128 + |blocks|, if info == Option.None then 201 else 200, |body| / 4 / 256 % 256, |body| / 4 % 256] + body
  }

  ghost function BlockPieces(blocks: seq<ReportBlock>): (p: seq<seq<byte>>)
    ensures |p| == |blocks| && forall i :: 0 <= i < |p| ==> p[i] == BlockOctets(blocks[i])
  {
    seq(|blocks|, i requires 0 <= i < |blocks| => BlockOctets(blocks[i]))
  }

  /** The packets one after the other, sender info in the first alone. */
  ghost function ReportPackets(ssrc: Octets4, info: Option<SenderInfo>, groups: seq<seq<ReportBlock>>): seq<byte>
    requires forall i :: 0 <= i < |groups| ==> |groups[i]| <= 31
    decreases |groups|
  {
    if groups == [] then []
    else ReportPacket(ssrc, info, groups[0]) + ReportPackets(ssrc, Option.None, groups[1..])
  }

  lemma {:induction false} FlatOfBlocks(blocks: seq<ReportBlock>)
    ensures |Flat(BlockPieces(blocks))| == 24 * |blocks|
  {
    if blocks != [] {
      FlatOfBlocks(blocks[1..]);
      assert BlockPieces(blocks)[1..] == BlockPieces(blocks[1..]);
    }
  }

  /** The sizes that are added up are the lengths of the packets. */
  lemma {:induction false} PacketsAreOctets(ssrc: Octets4, info: Option<SenderInfo>, groups: seq<seq<ReportBlock>>)
    requires forall i :: 0 <= i < |groups| ==> |groups[i]| <= 31
    ensures |ReportPackets(ssrc, info, groups)| == ReportOctets(info != Option.None, Lengths(groups))
    decreases |groups|
  {
    if groups != [] {
      PacketsAreOctets(ssrc, Option.None, groups[1..]);
      FlatOfBlocks(groups[0]);
      assert Lengths(groups)[1..] == Lengths(groups[1..]);
    }
  }

  class Report {
    var isSR: bool
    var headerlength: nat
    var reportblocks: seq<seq<byte>>

    /** Report blocks have a fixed size; a started report has an SSRC, and sender info if it is a sender report. */
    ghost predicate Valid()
      reads this
    {
      && (forall i :: 0 <= i < |reportblocks| ==> |reportblocks[i]| == RECEIVER_REPORT)
      && (headerlength == 0 || headerlength == 4 + if isSR then SENDER_REPORT else 0)
    }

    constructor ()
      ensures Valid() && !isSR && headerlength == 0 && reportblocks == []
    {
      isSR, headerlength, reportblocks := false, 0, [];
    }

    method Clear()
      modifies this
      ensures Valid() && !isSR && headerlength == 0 && reportblocks == []
    {
      reportblocks := [];
      isSR := false;
      headerlength := 0;
    }

    function NeededBytes(): nat
      reads this
    {
      var n := |reportblocks|;
      if n == 0 then if headerlength == 0 then 0 else COMMON_HEADER + headerlength
      else n * RECEIVER_REPORT + PacketCount(n) * (COMMON_HEADER + 4) + if isSR then SENDER_REPORT else 0
    }

    function NeededBytesWithExtraReportBlock(): nat
      reads this
    {
      var n := |reportblocks| + 1;
      n * RECEIVER_REPORT + PacketCount(n) * (COMMON_HEADER + 4) + if isSR then SENDER_REPORT else 0
    }

    /** The octets of the packets that carry these blocks: as many to a packet as it can count, one packet for a report
        started without blocks. */
    ghost function Packets(ssrc: Octets4, info: SenderInfo, blocks: seq<ReportBlock>): seq<byte>
      reads this
    {
      var groups: seq<seq<ReportBlock>> := if blocks == [] && headerlength != 0 then [[]] else Split(blocks);
      ReportPackets(ssrc, if isSR then Some(info) else Option.None, groups)
    }

    /** The accounting is exactly the octets of the packets the blocks are split into; a report started without
        blocks still takes one packet, and one not started takes none. */
    lemma NeededBytesIsPacketOctets(ssrc: Octets4, info: SenderInfo, blocks: seq<ReportBlock>)
      requires Valid() && reportblocks == BlockPieces(blocks)
      ensures NeededBytes() == |Packets(ssrc, info, blocks)|
    {
      if blocks == [] {
        var groups: seq<seq<ReportBlock>> := if headerlength != 0 then [[]] else [];
        PacketsAreOctets(ssrc, if isSR then Some(info) else Option.None, groups);
        assert Lengths(groups) == (if headerlength != 0 then [0] else []);
      } else {
        PacketsAreOctets(ssrc, if isSR then Some(info) else Option.None, Split(blocks));
        OctetsOfSplit(isSR, blocks);
      }
    }

    /** Asking for one more block's room is asking what is needed once it is there. */
    lemma ExtraBlockIsExact(ssrc: Octets4, info: SenderInfo, blocks: seq<ReportBlock>, block: ReportBlock)
      requires Valid() && reportblocks == BlockPieces(blocks)
      ensures NeededBytesWithExtraReportBlock() == |Packets(ssrc, info, blocks + [block])|
    {
      PacketsAreOctets(ssrc, if isSR then Some(info) else Option.None, Split(blocks + [block]));
      OctetsOfSplit(isSR, blocks + [block]);
    }
  }

  lemma {:induction false} OctetsOfSplit<T>(isSR: bool, xs: seq<T>)
    requires xs != []
    ensures ReportOctets(isSR, Lengths(Split(xs))) ==
            |xs| * RECEIVER_REPORT + PacketCount(|xs|) * (COMMON_HEADER + 4) + if isSR then SENDER_REPORT else 0
    decreases |xs|
  {
    var ls := Lengths(Split(xs));
    if |xs| > MAX_PER_PACKET {
      OctetsOfSplit(false, xs[31..]);
      assert ls[0] == 31 && ls[1..] == Lengths(Split(xs[31..]));
    } else {
      assert ls == [|xs|] && ls[1..] == [];
    }
  }

  // ---- source descriptions ----

  /** A source as it will be laid out: its SSRC and the octets of its items. */
  datatype Source = Source(ssrc: Octets4, items: seq<seq<byte>>)

  function ChunkSize(s: Source): nat {
    4 + |Terminated(Flat(s.items))|
  }

  function ChunkSizes(ss: seq<Source>): nat {
    if ss == [] then 0 else ChunkSizes(ss[..|ss| - 1]) + ChunkSize(ss[|ss| - 1])
  }

  /** The octets of the SDES packets holding these groups of sources. */
  function SdesOctets(groups: seq<seq<Source>>): nat {
    if groups == [] then 0 else COMMON_HEADER + ChunkSizes(groups[0]) + SdesOctets(groups[1..])
  }

  lemma {:induction false} ChunkSizesAppend(a: seq<Source>, b: seq<Source>)
    ensures ChunkSizes(a + b) == ChunkSizes(a) + ChunkSizes(b)
  {
    if b == [] {
      assert a + b == a;
    } else {
      assert (a + b)[..|a + b| - 1] == a + b[..|b| - 1];
      ChunkSizesAppend(a, b[..|b| - 1]);
    }
  }

  lemma SdesOctetsCons(g: seq<Source>, gs: seq<seq<Source>>)
    ensures SdesOctets([g] + gs) == COMMON_HEADER + ChunkSizes(g) + SdesOctets(gs)
  {
    assert ([g] + gs)[1..] == gs;
  }

  lemma CountStep(n: nat)
    requires n > 31
    ensures PacketCount(n) == 1 + PacketCount(n - 31)
  {
  }

  lemma {:induction false} SdesOctetsOfSplit(ss: seq<Source>)
    ensures SdesOctets(Split(ss)) == ChunkSizes(ss) + PacketCount(|ss|) * COMMON_HEADER
    decreases |ss|
  {
    if |ss| > MAX_PER_PACKET {
      var first, rest := ss[..31], ss[31..];
      assert ss == first + rest;
      ChunkSizesAppend(first, rest);
      SdesOctetsOfSplit(rest);
      assert Split(ss) == [first] + Split(rest);
      SdesOctetsCons(first, Split(rest));
      CountStep(|ss|);
      assert PacketCount(|ss|) * COMMON_HEADER == COMMON_HEADER + PacketCount(|rest|) * COMMON_HEADER;
    } else if ss != [] {
      SdesOctetsCons(ss, []);
    }
  }

  class SDESSource {
    const ssrc: Octets4
    var items: seq<seq<byte>>
    var totalitemsize: nat

    ghost predicate Valid()
      reads this
    {
      totalitemsize == |Flat(items)|
    }

    ghost function Value(): Source
      reads this
    {
      Source(ssrc, items)
    }

    constructor (ssrc: Octets4)
      ensures Valid() && Value() == Source(ssrc, [])
    {
      this.ssrc, items, totalitemsize := ssrc, [], 0;
    }

    /** Item octets, terminating zero, padding to 32 bits, SSRC: the size of the chunk as laid out. */
    function NeededBytes(): (x: nat)
      reads this
      ensures Valid() ==> x == ChunkSize(Value())
    {
      Rounded(totalitemsize + 1) + 4
    }

    function NeededBytesWithExtraItem(itemdatalength: byte): nat
      reads this
    {
      Rounded(totalitemsize + 2 + itemdatalength as int + 1) + 4
    }

    /** Asking for an item's room is asking what is needed once it is there. */
    lemma ExtraItemIsExact(itemdatalength: byte, buf: seq<byte>)
      requires Valid() && |buf| == 2 + itemdatalength as int
      ensures NeededBytesWithExtraItem(itemdatalength) == ChunkSize(Source(ssrc, items + [buf]))
    {
      FlatSnoc(items, buf);
    }

    method AddItem(buf: seq<byte>)
      requires Valid()
      modifies this
      ensures Valid() && Value() == Source(ssrc, old(items) + [buf])
    {
      FlatSnoc(items, buf);
      totalitemsize := totalitemsize + |buf|;
      items := items + [buf];
    }
  }

  function Rounded(x: nat): nat {
    if x % 4 != 0 then x + (4 - x % 4) else x
  }

  datatype Status = Ok | NoCurrentSource

  class SDES {
    var sdessources: seq<SDESSource>
    // Iterator position; one past the last source when it is the end
    var sdesit: nat

    ghost predicate Valid()
      reads this, sdessources
    {
      && (forall i, j :: 0 <= i < j < |sdessources| ==> sdessources[i] != sdessources[j])
      && (forall i :: 0 <= i < |sdessources| ==> sdessources[i].Valid())
      && (sdessources != [] ==> sdesit == |sdessources| - 1)
    }

    ghost function Value(): (ss: seq<Source>)
      reads this, sdessources
      ensures |ss| == |sdessources|
    {
      seq(|sdessources|, i requires 0 <= i < |sdessources| reads this, sdessources => sdessources[i].Value())
    }

    constructor ()
      ensures Valid() && Value() == []
    {
      sdessources, sdesit := [], 0;
    }

    method Clear()
      modifies this
      ensures Valid() && Value() == []
    {
      sdessources := [];
    }

    method AddSSRC(ssrc: Octets4) returns (status: Status)
      requires Valid()
      modifies this
      ensures Valid() && status == Ok && Value() == old(Value()) + [Source(ssrc, [])]
      ensures |sdessources| > 0 && fresh(sdessources[|sdessources| - 1])
      ensures sdessources[..|sdessources| - 1] == old(sdessources)
    {
      var s := new SDESSource(ssrc);
      sdessources := sdessources + [s];
      sdesit := |sdessources| - 1;
      return Ok;
    }

    /** Adds the item to the source added last. */
    method AddItem(buf: seq<byte>) returns (status: Status)
      requires Valid()
      modifies sdessources
      ensures Valid() && sdessources == old(sdessources)
      ensures status == if sdessources == [] then NoCurrentSource else Ok
      ensures Value() == if status == Ok then WithItem(old(Value()), buf) else old(Value())
    {
      if sdessources == [] {
        return NoCurrentSource;
      }
      sdessources[sdesit].AddItem(buf);
      assert Value() == WithItem(old(Value()), buf);
      return Ok;
    }

    /** The size of all packets: the chunks, and a header for every 31 of them. */
    method NeededBytes() returns (x: nat)
      requires Valid()
      ensures x == SdesOctets(Split(Value()))
    {
      x := 0;
      if sdessources == [] {
        return;
      }
      x := SumUpTo(|sdessources|);
      x := x + PacketCount(|sdessources|) * COMMON_HEADER;
      assert Value()[..|sdessources|] == Value();
      SdesOctetsOfSplit(Value());
    }

    method SumUpTo(end: nat) returns (x: nat)
      requires Valid() && end <= |sdessources|
      ensures x == ChunkSizes(Value()[..end])
    {
      x := 0;
      for it := 0 to end
        invariant x == ChunkSizes(Value()[..it])
      {
        assert Value()[..it + 1] == Value()[..it] + [sdessources[it].Value()];
        ChunkSizesAppend(Value()[..it], [sdessources[it].Value()]);
        assert ChunkSizes([sdessources[it].Value()]) == ChunkSize(sdessources[it].Value()) by {
          assert [sdessources[it].Value()][..0] == [];
        }
        x := x + sdessources[it].NeededBytes();
      }
    }

    /** The exact size after adding an item with that many data octets to the current source; 0 without a source. */
    method NeededBytesWithExtraItem(itemdatalength: byte) returns (x: nat)
      requires Valid()
      ensures sdessources == [] ==> x == 0
      ensures sdessources != [] ==> forall buf: seq<byte> :: |buf| == 2 + itemdatalength as int ==>
                x == SdesOctets(Split(WithItem(Value(), buf)))
    {
      x := 0;
      if sdessources == [] {
        return;
      }
      var n := |sdessources|;
      x := SumUpTo(sdesit);
      var last := sdessources[sdesit].NeededBytesWithExtraItem(itemdatalength);
      x := x + last + PacketCount(n) * COMMON_HEADER;
      forall buf: seq<byte> | |buf| == 2 + itemdatalength as int
        ensures x == SdesOctets(Split(WithItem(Value(), buf)))
      {
        var next := WithItem(Value(), buf);
        assert next[..n - 1] == Value()[..n - 1];
        sdessources[sdesit].ExtraItemIsExact(itemdatalength, buf);
        SdesOctetsOfSplit(next);
      }
    }

    /** The exact size after `AddSSRC`, but 0 when there is no source yet. */
    method NeededBytesWithExtraSource() returns (x: nat)
      requires Valid()
      ensures sdessources != [] ==> forall ssrc :: x == SdesOctets(Split(Value() + [Source(ssrc, [])]))
      ensures sdessources == [] ==> x == 0
    {
      x := 0;
      if sdessources == [] {
        return;
      }
      forall ssrc: Octets4
        ensures SdesOctets(Split(Value() + [Source(ssrc, [])])) == ExtraSourceSize(Value())
      {
        ExtraSourceNeeds(Value(), ssrc);
      }
      x := SumUpTo(|sdessources|);
      assert Value()[..|sdessources|] == Value();
      x := x + 8;
      x := x + PacketCount(|sdessources| + 1) * COMMON_HEADER;
    }
  }

  function ExtraSourceSize(ss: seq<Source>): nat {
    ChunkSizes(ss) + 8 + PacketCount(|ss| + 1) * COMMON_HEADER
  }

  /** A source without items takes its SSRC and four zero octets. */
  lemma ExtraSourceNeeds(ss: seq<Source>, ssrc: Octets4)
    ensures SdesOctets(Split(ss + [Source(ssrc, [])])) == ExtraSourceSize(ss)
  {
    var next := ss + [Source(ssrc, [])];
    assert next[..|ss|] == ss;
    SdesOctetsOfSplit(next);
  }

  /** On an empty table the answer 0 is short of what the first source will take. */
  lemma FirstSourceNeeds(ssrc: Octets4)
    ensures SdesOctets(Split([Source(ssrc, [])])) == 12
  {
    ExtraSourceNeeds([], ssrc);
    assert [] + [Source(ssrc, [])] == [Source(ssrc, [])];
  }

  /** The sources with an item added to the last one. */
  function WithItem(ss: seq<Source>, buf: seq<byte>): (r: seq<Source>)
    requires ss != []
    ensures |r| == |ss|
  {
    var last := ss[|ss| - 1];
    ss[..|ss| - 1] + [last.(items := last.items + [buf])]
  }

  // ---- the builder's sizes and the iterator's layout ----

  function SourceOf(c: Chunk): Source
    requires ValidChunk(c)
  {
    Source(c.ssrc, ItemPieces(c.items))
  }

  function SourcesOf(cs: seq<Chunk>): (ss: seq<Source>)
    requires forall i :: 0 <= i < |cs| ==> ValidChunk(cs[i])
    ensures |ss| == |cs|
  {
    seq(|cs|, i requires 0 <= i < |cs| => SourceOf(cs[i]))
  }

  /** The chunk an iterator steps over is as long as the builder said. */
  lemma ChunkLength(c: Chunk)
    requires ValidChunk(c)
    ensures |ChunkOctets(c)| == ChunkSize(SourceOf(c))
  {
  }

  lemma {:induction false} BodyLength(cs: seq<Chunk>)
    requires ValidChunks(cs)
    ensures |Body(cs)| == ChunkSizes(SourcesOf(cs))
    decreases |cs|
  {
    if cs != [] {
      var init := cs[..|cs| - 1];
      BodyLength(init);
      var pieces := ChunkPieces(cs);
      assert pieces == ChunkPieces(init) + [ChunkOctets(cs[|cs| - 1])];
      FlatSnoc(ChunkPieces(init), ChunkOctets(cs[|cs| - 1]));
      assert SourcesOf(cs)[..|cs| - 1] == SourcesOf(init);
    }
  }

  /** One packet's worth of chunks takes exactly what the builder accounts for it. */
  lemma PacketLength(head: Octets4, cs: seq<Chunk>)
    requires ValidChunks(cs) && cs != []
    ensures |head + Body(cs)| == SdesOctets(Split(SourcesOf(cs)))
  {
    BodyLength(cs);
    SdesOctetsOfSplit(SourcesOf(cs));
  }
}
