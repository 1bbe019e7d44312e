/** RTCP source description packets (RFC 3550, section 6.5): the wire layout and the iterator over it. */
module Sdes {
  import opened Bytes
  import opened Words
  import opened Wrappers

  // ---- layout ----

  datatype Item = Item(id: byte, data: seq<byte>)

  type Octets4 = o: seq<byte> | |o| == 4 witness [0, 0, 0, 0]

  /** A source identifier, in network order, and the items said about it. */
  datatype Chunk = Chunk(ssrc: Octets4, items: seq<Item>)

  predicate ValidItem(i: Item) {
    i.id != 0 && |i.data| <= 255
  }

  ghost predicate ValidChunk(c: Chunk) {
    forall i :: 0 <= i < |c.items| ==> ValidItem(c.items[i])
  }

  ghost predicate ValidChunks(cs: seq<Chunk>) {
    |cs| <= 31 && forall i :: 0 <= i < |cs| ==> ValidChunk(cs[i])
  }

  function ItemOctets(i: Item): seq<byte>
    requires ValidItem(i)
  {
    [i.id, |i.data|] + i.data
  }

  function ItemPieces(items: seq<Item>): (p: seq<seq<byte>>)
    requires forall i :: 0 <= i < |items| ==> ValidItem(items[i])
    ensures |p| == |items|
    ensures forall i :: 0 <= i < |p| ==> p[i] == ItemOctets(items[i])
  {
    seq(|items|, i requires 0 <= i < |items| => ItemOctets(items[i]))
  }

  /** The item list, one null octet that ends it, and null octets up to the next 32-bit boundary. */
  function Terminated(items: seq<byte>): seq<byte> {
    items + seq(4 - |items| % 4, _ => 0)
  }

  function ChunkOctets(c: Chunk): (s: seq<byte>)
    requires ValidChunk(c)
    ensures |s| % 4 == 0
  {
    c.ssrc + Terminated(Flat(ItemPieces(c.items)))
  }

  function ChunkPieces(cs: seq<Chunk>): (p: seq<seq<byte>>)
    requires forall i :: 0 <= i < |cs| ==> ValidChunk(cs[i])
    ensures |p| == |cs|
    ensures forall i :: 0 <= i < |p| ==> p[i] == ChunkOctets(cs[i])
  {
    seq(|cs|, i requires 0 <= i < |cs| => ChunkOctets(cs[i]))
  }

  const PT_SDES: byte := 202

  /** Version 2, no padding, the chunk count, the packet type and the length in words minus one. */
  ghost predicate IsHeader(h: Octets4, count: nat, words: nat) {
    h[0] == 128 + count && h[1] == PT_SDES && 256 * h[2] as int + h[3] as int == words % 0x1_0000
  }

  function Body(cs: seq<Chunk>): seq<byte>
    requires ValidChunks(cs)
  {
    Flat(ChunkPieces(cs))
  }

  // ---- where things sit ----

  ghost function ChunkStart(cs: seq<Chunk>, i: nat): nat
    requires ValidChunks(cs) && i <= |cs|
  {
    4 + |Flat(ChunkPieces(cs)[..i])|
  }

  ghost function ItemStart(c: Chunk, j: nat): nat
    requires ValidChunk(c) && j <= |c.items|
  {
    4 + |Flat(ItemPieces(c.items)[..j])|
  }

  lemma ChunkInPlace(head: Octets4, cs: seq<Chunk>, i: nat)
    requires ValidChunks(cs) && i < |cs|
    ensures ChunkStart(cs, i + 1) == ChunkStart(cs, i) + |ChunkOctets(cs[i])| <= |head + Body(cs)|
    ensures (head + Body(cs))[ChunkStart(cs, i)..ChunkStart(cs, i + 1)] == ChunkOctets(cs[i])
  {
    var pieces := ChunkPieces(cs);
    PieceInPlace(head, pieces, [], i);
    assert head + Flat(pieces) + [] == head + Body(cs);
  }

  /** What an iterator standing at offset `at` of octets `s` sees: item `j`, or the null octet behind the last one. */
  ghost predicate Shows(s: seq<byte>, at: nat, items: seq<Item>, j: nat)
    requires j <= |items|
  {
    if j == |items| then at < |s| && s[at] == 0
    else
      && at + 2 + |items[j].data| < |s|
      && s[at..at + 2 + |items[j].data|] == [items[j].id, |items[j].data|] + items[j].data
  }

  lemma ItemInPlace(c: Chunk, j: nat)
    requires ValidChunk(c) && j < |c.items|
    ensures Shows(ChunkOctets(c), ItemStart(c, j), c.items, j)
    ensures ItemStart(c, j + 1) == ItemStart(c, j) + 2 + |c.items[j].data|
  {
    var pieces := ItemPieces(c.items);
    var flat := Flat(pieces);
    PieceInPlace(c.ssrc, pieces, seq(4 - |flat| % 4, _ => 0), j);
    assert ChunkOctets(c) == c.ssrc + flat + seq(4 - |flat| % 4, _ => 0);
  }

  lemma NextItemStart(c: Chunk, j: nat)
    requires ValidChunk(c) && j < |c.items|
    ensures ItemStart(c, j + 1) == ItemStart(c, j) + 2 + |c.items[j].data|
  {
    ItemInPlace(c, j);
  }

  /** Behind the last item of a chunk there is a null octet, and the chunk ends at the next 32-bit boundary. */
  lemma EndInPlace(c: Chunk)
    requires ValidChunk(c)
    ensures Shows(ChunkOctets(c), ItemStart(c, |c.items|), c.items, |c.items|)
    ensures |ChunkOctets(c)| == ItemStart(c, |c.items|) + 4 - ItemStart(c, |c.items|) % 4
  {
    var pieces := ItemPieces(c.items);
    assert pieces[..|pieces|] == pieces;
  }

  lemma ChunkShows(c: Chunk, j: nat)
    requires ValidChunk(c) && j <= |c.items|
    ensures Shows(ChunkOctets(c), ItemStart(c, j), c.items, j)
  {
    if j < |c.items| {
      ItemInPlace(c, j);
    } else {
      EndInPlace(c);
    }
  }

  lemma ShowsInside(p: seq<byte>, start: nat, s: seq<byte>, at: nat, items: seq<Item>, j: nat)
    requires j <= |items| && start + |s| <= |p| && p[start..start + |s|] == s && Shows(s, at, items, j)
    ensures Shows(p, start + at, items, j)
  {
    if j < |items| {
      SliceOfSlice(p, start, start + |s|, at, at + 2 + |items[j].data|);
    } else {
      assert p[start + at] == s[at];
    }
  }

  /** The same, octet by octet: id, length, data. */
  ghost predicate Reads(s: seq<byte>, at: nat, items: seq<Item>, j: nat)
    requires j <= |items|
  {
    if j == |items| then at < |s| && s[at] == 0
    else
      && at + 2 + |items[j].data| < |s| && s[at] == items[j].id && s[at + 1] == |items[j].data|
      && s[at + 2..at + 2 + |items[j].data|] == items[j].data
  }

  lemma ReadItem(s: seq<byte>, at: nat, items: seq<Item>, j: nat)
    requires j <= |items| && Shows(s, at, items, j)
    ensures Reads(s, at, items, j)
  {
    if j < |items| {
      var n := |items[j].data|;
      var whole := s[at..at + 2 + n];
      assert s[at] == whole[0] && s[at + 1] == whole[1];
      SliceOfSlice(s, at, at + 2 + n, 2, 2 + n);
      assert whole[2..2 + n] == items[j].data;
    }
  }

  /** Item `j` of chunk `i` in the octets of the packet. */
  lemma ReadsInPlace(s: seq<byte>, head: Octets4, cs: seq<Chunk>, i: nat, j: nat)
    requires ValidChunks(cs) && s == head + Body(cs) && i < |cs| && j <= |cs[i].items|
    ensures Reads(s, ChunkStart(cs, i) + ItemStart(cs[i], j), cs[i].items, j)
  {
    var c, start := cs[i], ChunkStart(cs, i);
    ChunkInPlace(head, cs, i);
    ChunkShows(c, j);
    ShowsInside(s, start, ChunkOctets(c), ItemStart(c, j), c.items, j);
    ReadItem(s, start + ItemStart(c, j), c.items, j);
  }

  // ---- the iterator ----

  datatype ItemType = None | CNAME | NAME | EMAIL | PHONE | LOC | TOOL | NOTE | PRIV | Unknown

  function TypeOf(id: byte): ItemType {
    match id
    case 0 => ItemType.None
    case 1 => CNAME
    case 2 => NAME
    case 3 => EMAIL
    case 4 => PHONE
    case 5 => LOC
    case 6 => TOOL
    case 7 => NOTE
    case 8 => PRIV
    case _ => Unknown
  }

  /** The item types of RFC 3550, section 6.5, by their numbers. */
  ghost predicate TypeNumber(t: ItemType, id: byte) {
    && (t == CNAME <==> id == 1) && (t == NAME <==> id == 2) && (t == EMAIL <==> id == 3) && (t == PHONE <==> id == 4)
    && (t == LOC <==> id == 5) && (t == TOOL <==> id == 6) && (t == NOTE <==> id == 7) && (t == PRIV <==> id == 8)
    && (t == Unknown <==> id > 8)
  }

  class RTCPSDESPacket {
    const data: array<byte>
    const knownformat: bool
    // Offset of the current chunk in `data`; 0 plays the null pointer
    var currentchunk: nat
    var curchunknum: nat
    var itemoffset: nat

    // The chunks the data lays out, and which chunk and item the iteration stands on
    ghost const head: Octets4
    ghost const chunks: seq<Chunk>
    ghost var chunk: nat
    ghost var item: nat

    ghost predicate Valid()
      reads this, data
    {
      && ValidChunks(chunks)
      && IsHeader(head, |chunks|, |Body(chunks)| / 4)
      && (knownformat ==> data[..] == head + Body(chunks))
      && (currentchunk != 0 ==> knownformat && chunk < |chunks| && On(chunk, item))
    }

    /** The fields point at item `j` of chunk `i`, or behind the last item when `j` is their number. */
    ghost predicate On(i: nat, j: nat)
      requires ValidChunks(chunks)
      reads this
    {
      && i < |chunks| && j <= |chunks[i].items|
      && currentchunk == ChunkStart(chunks, i) && curchunknum == i + 1 && itemoffset == ItemStart(chunks[i], j)
    }

    constructor (data: array<byte>, knownformat: bool, ghost head: Octets4, ghost chunks: seq<Chunk>)
      requires ValidChunks(chunks) && IsHeader(head, |chunks|, |Body(chunks)| / 4)
      requires knownformat ==> data[..] == head + Body(chunks)
      ensures Valid() && currentchunk == 0
      ensures this.data == data && this.knownformat == knownformat && this.chunks == chunks
    {
      this.data, this.knownformat, this.head, this.chunks := data, knownformat, head, chunks;
      currentchunk, curchunknum, itemoffset := 0, 0, 0;
      chunk, item := 0, 0;
    }

    /** The octets at an item's offset in the current chunk are that item's. */
    lemma HereAt(j: nat)
      requires Valid() && currentchunk != 0 && j <= |chunks[chunk].items|
      ensures Reads(data[..], currentchunk + ItemStart(chunks[chunk], j), chunks[chunk].items, j)
    {
      ReadsInPlace(data[..], head, chunks, chunk, j);
    }

    lemma Here()
      requires Valid() && currentchunk != 0
      ensures Reads(data[..], currentchunk + itemoffset, chunks[chunk].items, item)
    {
      HereAt(item);
    }

    method GetChunkCount() returns (n: nat)
      requires Valid()
      ensures n == if knownformat then |chunks| else 0
    {
      if !knownformat {
        return 0;
      }
      assert data[0] == data[..][0];
      n := data[0] % 32;
    }

    method GotoFirstChunk() returns (ok: bool)
      requires Valid()
      modifies this
      ensures Valid()
      ensures ok <==> knownformat && chunks != []
      ensures ok ==> currentchunk != 0 && chunk == 0 && item == 0
      ensures !ok ==> currentchunk == 0
    {
      var n := GetChunkCount();
      if n == 0 {
        currentchunk := 0;
        return false;
      }
      currentchunk, curchunknum, itemoffset := 4, 1, 4;
      chunk, item := 0, 0;
      return true;
    }

    /** Scans to the end of the item list and steps to the next 32-bit boundary. */
    method GotoNextChunk() returns (ok: bool)
      requires Valid()
      modifies this
      ensures Valid()
      ensures ok <==> old(currentchunk) != 0 && old(chunk) + 1 < |chunks|
      ensures ok ==> currentchunk == old(currentchunk) + |ChunkOctets(chunks[old(chunk)])|
      ensures ok ==> chunk == old(chunk) + 1 && item == 0
      ensures !ok ==> currentchunk == old(currentchunk) && chunk == old(chunk) && item == old(item)
    {
      if !knownformat || currentchunk == 0 {
        return false;
      }
      var n := GetChunkCount();
      if curchunknum == n {
        return false;
      }
      ChunkInPlace(head, chunks, chunk);
      var offset := NextBoundary();
      currentchunk := currentchunk + offset;
      curchunknum := curchunknum + 1;
      itemoffset := 4;
      chunk, item := chunk + 1, 0;
      return true;
    }

    /** From the null octet behind the items to the next 32-bit boundary. */
    method NextBoundary() returns (offset: nat)
      requires Valid() && currentchunk != 0
      ensures offset == |ChunkOctets(chunks[chunk])|
    {
      EndInPlace(chunks[chunk]);
      offset := ItemListEnd();
      offset := offset + 1;
      if offset % 4 != 0 {
        offset := offset + (4 - offset % 4);
      }
    }

    /** The scan loop of `GotoNextChunk`: the offset of the null octet behind the current chunk's items. */
    method ItemListEnd() returns (offset: nat)
      requires Valid() && currentchunk != 0
      ensures offset == ItemStart(chunks[chunk], |chunks[chunk].items|)
    {
      ghost var c := chunks[chunk];
      ghost var j := 0;
      offset := 4;
      HereAt(0);
      while data[currentchunk + offset] != 0
        invariant j <= |c.items| && offset == ItemStart(c, j)
        invariant currentchunk + offset < data.Length
        invariant data[currentchunk + offset] == if j == |c.items| then 0 else c.items[j].id
        invariant j < |c.items| ==> currentchunk + offset + 1 < data.Length
        invariant j < |c.items| ==> data[currentchunk + offset + 1] == |c.items[j].data|
        decreases |c.items| - j
      {
        offset := offset + 2 + data[currentchunk + offset + 1];
        NextItemStart(c, j);
        j := j + 1;
        HereAt(j);
      }
    }

    method GetChunkSSRC() returns (ssrc: word)
      requires Valid()
      ensures ssrc == if currentchunk == 0 then 0 else ToNat(chunks[chunk].ssrc)
    {
      if !knownformat || currentchunk == 0 {
        return 0;
      }
      ChunkInPlace(head, chunks, chunk);
      var c := chunks[chunk];
      ghost var s := ChunkOctets(c);
      assert s[..4] == c.ssrc;
      assert data[currentchunk..currentchunk + 4] == data[..][currentchunk..currentchunk + |s|][..4];
      ssrc := LoadBE32(data[currentchunk..currentchunk + 4]);
      LoadIsNumber(c.ssrc);
    }

    method GotoFirstItem() returns (ok: bool)
      requires Valid()
      modifies this`itemoffset, this`item
      ensures Valid()
      ensures ok <==> currentchunk != 0 && chunks[chunk].items != []
      ensures currentchunk != 0 ==> item == 0
    {
      if !knownformat || currentchunk == 0 {
        return false;
      }
      itemoffset, item := 4, 0;
      Here();
      ok := data[currentchunk + itemoffset] != 0;
    }

    /** Moves on only if there is another item; at the last one it stays. */
    method GotoNextItem() returns (ok: bool)
      requires Valid()
      modifies this`itemoffset, this`item
      ensures Valid()
      ensures ok <==> currentchunk != 0 && old(item) + 1 < |chunks[chunk].items|
      ensures currentchunk != 0 ==> item == if ok then old(item) + 1 else old(item)
    {
      if !knownformat || currentchunk == 0 {
        return false;
      }
      Here();
      if data[currentchunk + itemoffset] == 0 {
        return false;
      }
      var offset := itemoffset + 2 + data[currentchunk + itemoffset + 1];
      NextItemStart(chunks[chunk], item);
      HereAt(item + 1);
      if data[currentchunk + offset] == 0 {
        return false;
      }
      itemoffset, item := offset, item + 1;
      return true;
    }

    /** The current item; at the end of the list the null octet reads as an item of type None. */
    ghost function Current(): Option<Item>
      requires Valid()
      reads this, data
    {
      if currentchunk == 0 || item == |chunks[chunk].items| then Option.None else Some(chunks[chunk].items[item])
    }

    method GetItemType() returns (t: ItemType)
      requires Valid()
      ensures t == ItemType.None <==> Current() == Option.None
      ensures Current() != Option.None ==> TypeNumber(t, Current().value.id)
    {
      if !knownformat || currentchunk == 0 {
        return ItemType.None;
      }
      Here();
      t := TypeOf(data[currentchunk + itemoffset]);
    }

    method GetItemLength() returns (n: nat)
      requires Valid()
      ensures n == if Current() == Option.None then 0 else |Current().value.data|
    {
      if !knownformat || currentchunk == 0 {
        return 0;
      }
      Here();
      if data[currentchunk + itemoffset] == 0 {
        return 0;
      }
      n := data[currentchunk + itemoffset + 1];
    }

    /** Offset of the item's data, 0 for the null pointer. */
    method GetItemData() returns (p: nat)
      requires Valid()
      ensures p == 0 <==> Current() == Option.None
      ensures p != 0 ==> p + |Current().value.data| <= data.Length
      ensures p != 0 ==> data[p..p + |Current().value.data|] == Current().value.data
    {
      if !knownformat || currentchunk == 0 {
        return 0;
      }
      Here();
      if data[currentchunk + itemoffset] == 0 {
        return 0;
      }
      p := currentchunk + itemoffset + 2;
    }

    method GetPRIVPrefixLength() returns (n: nat)
      requires Valid()
      ensures n == |Private(Current()).prefix|
    {
      if !knownformat || currentchunk == 0 {
        return 0;
      }
      Here();
      var at := currentchunk + itemoffset;
      if data[at] != 8 || data[at + 1] == 0 {
        return 0;
      }
      assert data[at + 2] == data[at + 2..at + 2 + data[at + 1]][0];
      n := data[at + 2];
      if n > data[at + 1] - 1 {
        return 0;
      }
    }

    /** Offset of the prefix string, 0 when it is empty or the item malformed. */
    method GetPRIVPrefixData() returns (p: nat)
      requires Valid()
      ensures var x := Private(Current()).prefix;
              if x == [] then p == 0 else p != 0 && p + |x| <= data.Length && data[p..p + |x|] == x
    {
      var n := GetPRIVPrefixLength();
      if n == 0 {
        return 0;
      }
      Here();
      p := currentchunk + itemoffset + 3;
      assert data[p..p + n] == data[p - 1..p - 1 + |Current().value.data|][1..1 + n];
    }

    method GetPRIVValueLength() returns (n: nat)
      requires Valid()
      ensures n == |Private(Current()).content|
    {
      if !knownformat || currentchunk == 0 {
        return 0;
      }
      Here();
      var at := currentchunk + itemoffset;
      if data[at] != 8 || data[at + 1] == 0 {
        return 0;
      }
      assert data[at + 2] == data[at + 2..at + 2 + data[at + 1]][0];
      if data[at + 2] > data[at + 1] - 1 {
        return 0;
      }
      n := data[at + 1] - data[at + 2] - 1;
    }

    method GetPRIVValueData() returns (p: nat)
      requires Valid()
      ensures var x := Private(Current()).content;
              if x == [] then p == 0 else p != 0 && p + |x| <= data.Length && data[p..p + |x|] == x
    {
      var n := GetPRIVValueLength();
      if n == 0 {
        return 0;
      }
      Here();
      var at := currentchunk + itemoffset;
      assert data[at + 2] == data[at + 2..at + 2 + data[at + 1]][0];
      var prefix := data[at + 2];
      p := at + 3 + prefix;
      assert data[p..p + n] == data[at + 2..at + 2 + data[at + 1]][1 + prefix..];
    }
  }

  /** The two strings of a PRIV item (RFC 3550, section 6.5.8); both empty for anything else or a bad prefix length. */
  datatype Strings = Strings(prefix: seq<byte>, content: seq<byte>)

  function Private(i: Option<Item>): Strings {
    if i == Option.None || i.value.id != 8 || i.value.data == [] then Strings([], []) else
      var d := i.value.data;
      if d[0] as int > |d| - 1 then Strings([], []) else Strings(d[1..1 + d[0]], d[1 + d[0]..])
  }

  function PrivateItem(s: Strings): Item
    requires |s.prefix| + |s.content| <= 254
  {
    Item(8, [|s.prefix|] + s.prefix + s.content)
  }

  /** A PRIV item built from two strings is read back as those strings. */
  lemma PrivateRoundTrip(s: Strings)
    requires |s.prefix| + |s.content| <= 254
    ensures ValidItem(PrivateItem(s)) && Private(Some(PrivateItem(s))) == s
  {
    var d := PrivateItem(s).data;
    assert d[0] == |s.prefix|;
    assert d[1..1 + |s.prefix|] == s.prefix;
    assert d[1 + |s.prefix|..] == s.content;
  }

  // ---- walking a whole packet ----

  /** Reads the current item with the accessors. */
  method ReadItemAt(p: RTCPSDESPacket) returns (i: Item)
    requires p.Valid() && p.currentchunk != 0 && p.item < |p.chunks[p.chunk].items|
    ensures i == p.chunks[p.chunk].items[p.item]
  {
    var n := p.GetItemLength();
    var at := p.GetItemData();
    p.Here();
    i := Item(p.data[p.currentchunk + p.itemoffset], p.data[at..at + n]);
  }

  /** Collects the items of the current chunk with the iterator. */
  method WalkItems(p: RTCPSDESPacket) returns (items: seq<Item>)
    requires p.Valid() && p.currentchunk != 0
    modifies p`itemoffset, p`item
    ensures p.Valid() && items == p.chunks[p.chunk].items
  {
    items := [];
    var more := p.GotoFirstItem();
    while more
      invariant p.Valid() && |items| == (if more then p.item else |p.chunks[p.chunk].items|)
      invariant |items| <= |p.chunks[p.chunk].items| && items == p.chunks[p.chunk].items[..|items|]
      invariant more ==> p.item < |p.chunks[p.chunk].items|
      decreases |p.chunks[p.chunk].items| - |items| + if more then 1 else 0
    {
      var i := ReadItemAt(p);
      items := items + [i];
      more := p.GotoNextItem();
    }
  }

  method WalkChunk(p: RTCPSDESPacket) returns (c: Chunk)
    requires p.Valid() && p.currentchunk != 0
    modifies p`itemoffset, p`item
    ensures p.Valid() && c == p.chunks[p.chunk]
  {
    var ssrc := p.GetChunkSSRC();
    var items := WalkItems(p);
    LoadIsNumber(p.chunks[p.chunk].ssrc);
    StoreLoadBE(p.chunks[p.chunk].ssrc);
    c := Chunk(StoreBE32(ssrc), items);
  }

  /** Walking the packet that lays out any chunks yields exactly those chunks. */
  method Walk(p: RTCPSDESPacket) returns (cs: seq<Chunk>)
    requires p.Valid()
    modifies p
    ensures p.Valid() && cs == if p.knownformat then p.chunks else []
  {
    cs := [];
    var more := p.GotoFirstChunk();
    while more
      invariant p.Valid() && more ==> p.currentchunk != 0 && p.knownformat
      invariant p.Valid()
      invariant p.knownformat ==> |cs| == (if more then p.chunk else |p.chunks|)
      invariant !p.knownformat ==> cs == [] && !more
      invariant |cs| <= |p.chunks| && cs == p.chunks[..|cs|]
      invariant more ==> p.chunk < |p.chunks|
      decreases |p.chunks| - |cs| + if more then 1 else 0
    {
      var c := WalkChunk(p);
      cs := cs + [c];
      more := p.GotoNextChunk();
    }
  }
}
