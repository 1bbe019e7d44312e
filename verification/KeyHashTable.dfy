/** `RTPKeyHashTable`: every element sits in a doubly linked bucket chain and in one doubly linked list that keeps
    the order of insertion, with a movable cursor. */
module KeyHashTable {
  import opened InsertionOrder

  class HashElement<Key, Element> {
    const hashindex: nat
    const key: Key
    const element: Element
    var hashprev: HashElement?<Key, Element>
    var hashnext: HashElement?<Key, Element>
    var listprev: HashElement?<Key, Element>
    var listnext: HashElement?<Key, Element>

    constructor (key: Key, element: Element, index: nat)
      ensures this.key == key && this.element == element && hashindex == index
      ensures hashprev == null && hashnext == null && listprev == null && listnext == null
    {
      this.key, this.element, hashindex := key, element, index;
      hashprev, hashnext, listprev, listnext := null, null, null, null;
    }
  }

  // Named, so that distinctness is used only for the pairs a proof asks about
  ghost predicate Apart<T>(s: seq<T>, i: nat, j: nat)
    requires i < j < |s|
  {
    s[i] != s[j]
  }

  ghost predicate Distinct<T>(s: seq<T>) {
    forall i: nat, j: nat :: i < j < |s| ==> Apart(s, i, j)
  }

  lemma SamePosition<T>(s: seq<T>, i: nat, j: nat)
    requires Distinct(s) && i < |s| && j < |s|
    ensures s[i] == s[j] <==> i == j
  {
    if i < j {
      assert Apart(s, i, j);
    } else if j < i {
      assert Apart(s, j, i);
    }
  }

  /** A position of an element; the length when it is absent. */
  ghost function IndexOf<T>(s: seq<T>, x: T): (i: nat)
    ensures i <= |s|
    ensures i < |s| ==> s[i] == x
    ensures x in s <==> i < |s|
  {
    if x in s then
      var i :| 0 <= i < |s| && s[i] == x;
      i
    else |s|
  }

  /** The element at a position, null outside the sequence: what a link to that position holds. */
  ghost function At<Key, Element>(s: seq<HashElement<Key, Element>>, i: int): HashElement?<Key, Element> {
    if 0 <= i < |s| then s[i] else null
  }

  lemma IndexOfAt<T>(s: seq<T>, i: nat)
    requires Distinct(s) && i < |s|
    ensures IndexOf(s, s[i]) == i
  {
    SamePosition(s, i, IndexOf(s, s[i]));
  }

  ghost function Pairs<Key, Element>(list: seq<HashElement<Key, Element>>): (es: Entries<Key, Element>)
    ensures |es| == |list|
    ensures forall i :: 0 <= i < |list| ==> es[i] == (list[i].key, list[i].element)
  {
    seq(|list|, i requires 0 <= i < |list| => (list[i].key, list[i].element))
  }

  lemma PairsAppend<Key, Element>(l: seq<HashElement<Key, Element>>, e: HashElement<Key, Element>)
    ensures Pairs(l + [e]) == Pairs(l) + [(e.key, e.element)]
  {
  }

  lemma PairsWithout<Key, Element>(l: seq<HashElement<Key, Element>>, i: nat)
    requires i < |l|
    ensures Pairs(Without(l, i)) == Without(Pairs(l), i)
  {
  }

  // ---- one doubly linked structure at a time ----

  /** A bucket chain: distinct elements, head pointer and both link directions agree. */
  ghost predicate Chained<Key, Element>(c: seq<HashElement<Key, Element>>, head: HashElement?<Key, Element>)
    reads c`hashprev, c`hashnext
  {
    && Distinct(c) && head == At(c, 0)
    && (forall i {:trigger c[i].hashprev} :: 0 <= i < |c| ==> c[i].hashprev == At(c, i - 1))
    && (forall i {:trigger c[i].hashnext} :: 0 <= i < |c| ==> c[i].hashnext == At(c, i + 1))
  }

  /** The global list: distinct elements, end pointers and both link directions agree. */
  ghost predicate Listed<Key, Element>(l: seq<HashElement<Key, Element>>, first: HashElement?<Key, Element>,
                                       last: HashElement?<Key, Element>)
    reads l`listprev, l`listnext
  {
    first == At(l, 0) && last == At(l, |l| - 1) && Linked(l)
  }

  ghost predicate Linked<Key, Element>(l: seq<HashElement<Key, Element>>)
    reads l`listprev, l`listnext
  {
    && Distinct(l)
    && (forall i {:trigger l[i].listprev} :: 0 <= i < |l| ==> l[i].listprev == At(l, i - 1))
    && (forall i {:trigger l[i].listnext} :: 0 <= i < |l| ==> l[i].listnext == At(l, i + 1))
  }

  ghost function One<Key, Element>(e: HashElement?<Key, Element>): set<HashElement<Key, Element>> {
    if e == null then {} else {e}
  }

  method PushFront<Key, Element>(e: HashElement<Key, Element>, head: HashElement?<Key, Element>,
                                 ghost c: seq<HashElement<Key, Element>>)
    requires Chained(c, head) && e !in c
    modifies e`hashprev, e`hashnext, One(head)`hashprev
    ensures Chained([e] + c, e)
  {
    e.hashprev, e.hashnext := null, head;
    if head != null {
      head.hashprev := e;
    }
    ghost var r := [e] + c;
    forall p: nat, q: nat | p < q < |r|
      ensures Apart(r, p, q)
    {
      assert p > 0 ==> Apart(c, p - 1, q - 1);
    }
    forall j | 0 <= j < |r|
      ensures r[j].hashprev == At(r, j - 1) && r[j].hashnext == At(r, j + 1)
    {
      if j > 0 {
        assert r[j] == c[j - 1];
        SamePosition(c, 0, j - 1);
        assert old(c[j - 1].hashprev) == At(c, j - 2) && old(c[j - 1].hashnext) == At(c, j);
      }
    }
  }

  /** The neighbours of position `i` are linked past it, everything else as in `c`. */
  ghost predicate HashBypassed<Key, Element>(c: seq<HashElement<Key, Element>>, i: nat)
    requires i < |c|
    reads c`hashprev, c`hashnext
  {
    && (forall k {:trigger c[k].hashprev} :: 0 <= k < |c| && k != i ==>
          c[k].hashprev == At(c, if k == i + 1 then i - 1 else k - 1))
    && (forall k {:trigger c[k].hashnext} :: 0 <= k < |c| && k != i ==>
          c[k].hashnext == At(c, if k == i - 1 then i + 1 else k + 1))
  }

  method BypassHash<Key, Element>(e: HashElement<Key, Element>, ghost c: seq<HashElement<Key, Element>>, ghost i: nat)
    requires Chained(c, At(c, 0)) && i < |c| && c[i] == e
    modifies One(e.hashprev)`hashnext, One(e.hashnext)`hashprev
    ensures HashBypassed(c, i) && e.hashprev == old(e.hashprev) && e.hashnext == old(e.hashnext)
  {
    var prev, next := e.hashprev, e.hashnext;
    assert prev == At(c, i - 1) && next == At(c, i + 1);
    if prev == null {
      if next != null {
        next.hashprev := null;
      }
    } else {
      prev.hashnext := next;
      if next != null {
        next.hashprev := prev;
      }
    }
    forall k | 0 <= k < |c| && k != i
      ensures c[k].hashprev == At(c, if k == i + 1 then i - 1 else k - 1)
      ensures c[k].hashnext == At(c, if k == i - 1 then i + 1 else k + 1)
    {
      assert old(c[k].hashprev) == At(c, k - 1) && old(c[k].hashnext) == At(c, k + 1);
      if i > 0 {
        SamePosition(c, k, i - 1);
      }
      if i + 1 < |c| {
        SamePosition(c, k, i + 1);
      }
    }
  }

  lemma WithoutHashBypassed<Key, Element>(c: seq<HashElement<Key, Element>>, i: nat)
    requires Distinct(c) && i < |c| && HashBypassed(c, i)
    ensures var r := Without(c, i); Chained(r, At(r, 0))
  {
    WithoutDistinct(c, i);
    var r := Without(c, i);
    forall j | 0 <= j < |r|
      ensures r[j].hashprev == At(r, j - 1) && r[j].hashnext == At(r, j + 1)
    {
      AtWithout(c, i, j - 1);
      AtWithout(c, i, j);
      AtWithout(c, i, j + 1);
    }
  }

  /** Takes an element out of its chain. */
  method Unchain<Key, Element>(e: HashElement<Key, Element>, ghost c: seq<HashElement<Key, Element>>, ghost i: nat)
    requires Chained(c, At(c, 0)) && i < |c| && c[i] == e
    modifies One(e.hashprev)`hashnext, One(e.hashnext)`hashprev
    ensures var r := Without(c, i); Chained(r, At(r, 0))
    ensures e.hashprev == old(e.hashprev) && e.hashnext == old(e.hashnext)
  {
    BypassHash(e, c, i);
    WithoutHashBypassed(c, i);
  }

  method Append<Key, Element>(e: HashElement<Key, Element>, last: HashElement?<Key, Element>,
                              ghost l: seq<HashElement<Key, Element>>)
    requires Listed(l, At(l, 0), last) && e !in l && e.listprev == e.listnext == null
    modifies e`listprev, One(last)`listnext
    ensures Listed(l + [e], At(l + [e], 0), e)
  {
    if last != null {
      last.listnext := e;
      e.listprev := last;
    }
    ghost var r := l + [e];
    forall p: nat, q: nat | p < q < |r|
      ensures Apart(r, p, q)
    {
      assert q < |l| ==> Apart(l, p, q);
    }
    forall j | 0 <= j < |r|
      ensures r[j].listprev == At(r, j - 1) && r[j].listnext == At(r, j + 1)
    {
      if j < |l| {
        SamePosition(l, j, |l| - 1);
        assert old(l[j].listprev) == At(l, j - 1) && old(l[j].listnext) == At(l, j + 1);
      }
    }
  }

  /** The neighbours of position `i` are linked past it, everything else as in `l`. */
  ghost predicate ListBypassed<Key, Element>(l: seq<HashElement<Key, Element>>, i: nat)
    requires i < |l|
    reads l`listprev, l`listnext
  {
    && (forall k {:trigger l[k].listprev} :: 0 <= k < |l| && k != i ==>
          l[k].listprev == At(l, if k == i + 1 then i - 1 else k - 1))
    && (forall k {:trigger l[k].listnext} :: 0 <= k < |l| && k != i ==>
          l[k].listnext == At(l, if k == i - 1 then i + 1 else k + 1))
  }

  method BypassList<Key, Element>(e: HashElement<Key, Element>, ghost l: seq<HashElement<Key, Element>>, ghost i: nat)
    requires Linked(l) && i < |l| && l[i] == e
    modifies One(e.listprev)`listnext, One(e.listnext)`listprev
    ensures ListBypassed(l, i) && e.listprev == old(e.listprev) && e.listnext == old(e.listnext)
  {
    var prev, next := e.listprev, e.listnext;
    assert prev == At(l, i - 1) && next == At(l, i + 1);
    if prev == null {
      if next != null {
        next.listprev := null;
      }
    } else {
      prev.listnext := next;
      if next != null {
        next.listprev := prev;
      }
    }
    forall k | 0 <= k < |l| && k != i
      ensures l[k].listprev == At(l, if k == i + 1 then i - 1 else k - 1)
      ensures l[k].listnext == At(l, if k == i - 1 then i + 1 else k + 1)
    {
      assert old(l[k].listprev) == At(l, k - 1) && old(l[k].listnext) == At(l, k + 1);
      if i > 0 {
        SamePosition(l, k, i - 1);
      }
      if i + 1 < |l| {
        SamePosition(l, k, i + 1);
      }
    }
  }

  lemma WithoutListBypassed<Key, Element>(l: seq<HashElement<Key, Element>>, i: nat)
    requires Distinct(l) && i < |l| && ListBypassed(l, i)
    ensures var r := Without(l, i); Listed(r, At(r, 0), At(r, |r| - 1))
  {
    WithoutDistinct(l, i);
    var r := Without(l, i);
    forall j | 0 <= j < |r|
      ensures r[j].listprev == At(r, j - 1) && r[j].listnext == At(r, j + 1)
    {
      AtWithout(l, i, j - 1);
      AtWithout(l, i, j);
      AtWithout(l, i, j + 1);
    }
  }

  /** Takes an element out of the list. */
  method Unlist<Key, Element>(e: HashElement<Key, Element>, ghost l: seq<HashElement<Key, Element>>, ghost i: nat)
    requires Linked(l) && i < |l| && l[i] == e
    modifies One(e.listprev)`listnext, One(e.listnext)`listprev
    ensures var r := Without(l, i); Listed(r, At(r, 0), At(r, |r| - 1))
    ensures e.listprev == old(e.listprev) && e.listnext == old(e.listnext)
  {
    BypassList(e, l, i);
    WithoutListBypassed(l, i);
  }

  lemma AtWithout<Key, Element>(s: seq<HashElement<Key, Element>>, i: nat, j: int)
    requires i < |s|
    ensures At(Without(s, i), j) == At(s, if j < i then j else j + 1)
  {
  }

  lemma WithoutDistinct<T>(s: seq<T>, i: nat)
    requires Distinct(s) && i < |s|
    ensures Distinct(Without(s, i))
  {
    var r := Without(s, i);
    forall p: nat, q: nat | p < q < |r|
      ensures Apart(r, p, q)
    {
      assert Apart(s, if p < i then p else p + 1, if q < i then q else q + 1);
    }
  }

  class RTPKeyHashTable<Key(==), Element> {
    const hashsize: nat
    const getIndex: Key -> nat
    const table: array<HashElement?<Key, Element>>
    var firsthashelem: HashElement?<Key, Element>
    var lasthashelem: HashElement?<Key, Element>
    var curhashelem: HashElement?<Key, Element>

    // All elements; the same elements in list order; and each bucket's elements in chain order
    ghost var nodes: set<HashElement<Key, Element>>
    ghost var list: seq<HashElement<Key, Element>>
    ghost var chains: seq<seq<HashElement<Key, Element>>>

    ghost predicate ListOk()
      reads this`list, this`nodes, this`firsthashelem, this`lasthashelem, list`listprev, list`listnext
    {
      && (forall e :: e in list ==> e in nodes) && (forall e :: e in nodes ==> e in list)
      && Listed(list, firsthashelem, lasthashelem)
    }

    /** Bucket `b` chains, from `table[b]`, exactly the elements with that hash index. */
    ghost predicate ChainOk(b: nat)
      requires b < table.Length == |chains|
      reads this`chains, this`nodes, table, chains[b]`hashprev, chains[b]`hashnext
    {
      && (forall e :: e in chains[b] ==> e in nodes && e.hashindex == b)
      && (forall e :: e in nodes && e.hashindex == b ==> e in chains[b])
      && Chained(chains[b], table[b])
    }

    ghost predicate ChainsOk()
      reads this`chains, this`nodes, table, nodes`hashprev, nodes`hashnext
    {
      && table.Length == |chains| == hashsize
      && (forall b :: 0 <= b < hashsize ==> forall e :: e in chains[b] ==> e in nodes)
      && (forall b :: 0 <= b < hashsize ==> ChainOk(b))
    }

    /** Every element sits under its own index, and no key occurs twice. */
    ghost predicate KeysOk()
      reads this`nodes
    {
      && (forall e :: e in nodes ==> e.hashindex == getIndex(e.key) < hashsize)
      && (forall e, f :: e in nodes && f in nodes && e.key == f.key ==> e == f)
    }

    ghost predicate Valid()
      reads this, table, nodes, list
    {
      KeysOk() && ListOk() && ChainsOk()
    }

    /** The cursor is on an element or past the end. It is undefined until the first `Goto`, and again after `Clear`. */
    ghost predicate CursorOk()
      reads this`curhashelem, this`nodes
    {
      curhashelem == null || curhashelem in nodes
    }

    // ---- abstract value ----

    ghost function Entries(): (es: Entries<Key, Element>)
      reads this`list
      ensures |es| == |list|
    {
      Pairs(list)
    }

    ghost function Cursor(): (i: nat)
      reads this`list, this`curhashelem
      ensures i <= |list|
    {
      if curhashelem == null then |list| else IndexOf<HashElement<Key, Element>>(list, curhashelem)
    }

    constructor (hashsize: nat, getIndex: Key -> nat)
      ensures Valid() && fresh(table) && Entries() == []
      ensures this.hashsize == hashsize && this.getIndex == getIndex
    {
      this.hashsize, this.getIndex := hashsize, getIndex;
      table := new HashElement?<Key, Element>[hashsize](_ => null);
      firsthashelem, lasthashelem := null, null;
      nodes, list, chains := {}, [], seq(hashsize, _ => []);
    }

    /** The element with key `k` in bucket `index`, null if there is none. */
    method Lookup(k: Key, index: nat) returns (e: HashElement?<Key, Element>)
      requires Valid() && index == getIndex(k) < hashsize
      ensures e == null ==> forall f :: f in nodes ==> f.key != k
      ensures e != null ==> e in nodes && e.key == k
    {
      assert ChainOk(index);
      ghost var c := chains[index];
      ghost var i := 0;
      e := table[index];
      while e != null && e.key != k
        invariant i <= |c| && e == At(c, i)
        invariant forall j :: 0 <= j < i ==> c[j].key != k
        decreases |c| - i
      {
        assert c[i].hashnext == At(c, i + 1);
        e := e.hashnext;
        i := i + 1;
      }
    }

    method HasElement(k: Key) returns (found: bool)
      requires Valid()
      ensures found <==> Find(Entries(), k) < |list|
    {
      var index := getIndex(k);
      if index >= hashsize {
        AbsentAtBadIndex(k);
        return false;
      }
      var e := Lookup(k, index);
      found := e != null;
      if found {
        FindsElement(e);
      } else {
        FindsNothing(k);
      }
    }

    lemma AbsentAtBadIndex(k: Key)
      requires Valid() && getIndex(k) >= hashsize
      ensures Find(Entries(), k) == |list|
    {
      FindsNothing(k);
    }

    lemma FindsNothing(k: Key)
      requires Valid() && forall f :: f in nodes ==> f.key != k
      ensures Find(Entries(), k) == |list|
    {
      var es := Entries();
      assert forall j :: 0 <= j < |list| ==> es[j].0 == list[j].key && list[j] in nodes;
    }

    lemma FindsElement(e: HashElement<Key, Element>)
      requires Valid() && e in nodes
      ensures Find(Entries(), e.key) == IndexOf(list, e) < |list|
    {
      var es := Entries();
      var i, j := IndexOf(list, e), Find(es, e.key);
      assert es[i].0 == list[i].key == e.key;
      assert es[j].0 == list[j].key && list[j] in nodes && list[i] in nodes;
      SamePosition(list, i, j);
    }

    /** The table holds no key twice, and a lookup in it answers as the map of its entries does. */
    lemma MeansMap(k: Key)
      requires Valid()
      ensures DistinctKeys(Entries()) && (Find(Entries(), k) < |list| <==> k in AsMap(Entries()))
    {
      var es := Entries();
      forall i, j | 0 <= i < j < |es|
        ensures es[i].0 != es[j].0
      {
        assert Apart(list, i, j) && list[i] in list && list[j] in list;
      }
      FindIsMember(es, k);
    }

    /** The cursor on the element at a position. */
    lemma CursorAt(i: nat)
      requires ListOk() && curhashelem == At(list, i) && i <= |list|
      ensures CursorOk() && Cursor() == i
    {
      if i < |list| {
        assert list[i] in list;
        IndexOfAt(list, i);
      }
    }

    method GotoElement(k: Key) returns (status: Status)
      requires Valid()
      modifies this`curhashelem
      ensures Valid()
      ensures status == InvalidHashIndex <==> getIndex(k) >= hashsize
      ensures status == Ok <==> Find(Entries(), k) < |list|
      ensures status == InvalidHashIndex || status == KeyNotFound || status == Ok
      ensures status == InvalidHashIndex ==> curhashelem == old(curhashelem)
      ensures status != InvalidHashIndex ==> CursorOk() && Cursor() == Find(Entries(), k)
    {
      var index := getIndex(k);
      if index >= hashsize {
        AbsentAtBadIndex(k);
        return InvalidHashIndex;
      }
      curhashelem := Lookup(k, index);
      if curhashelem == null {
        FindsNothing(k);
        return KeyNotFound;
      }
      FindsElement(curhashelem);
      CursorAt(IndexOf(list, curhashelem));
      return Ok;
    }

    method GotoFirstElement()
      requires Valid()
      modifies this`curhashelem
      ensures Valid() && CursorOk() && Cursor() == 0
    {
      curhashelem := firsthashelem;
      CursorAt(0);
    }

    method GotoLastElement()
      requires Valid()
      modifies this`curhashelem
      ensures Valid() && CursorOk() && Cursor() == if list == [] then 0 else |list| - 1
    {
      curhashelem := lasthashelem;
      CursorAt(if list == [] then 0 else |list| - 1);
    }

    method GotoNextElement()
      requires Valid() && CursorOk()
      modifies this`curhashelem
      ensures Valid() && CursorOk() && Cursor() == if old(Cursor()) < |list| then old(Cursor()) + 1 else old(Cursor())
    {
      if curhashelem != null {
        ghost var i := Cursor();
        assert list[i].listnext == At(list, i + 1);
        curhashelem := curhashelem.listnext;
        CursorAt(i + 1);
      }
    }

    method GotoPreviousElement()
      requires Valid() && CursorOk()
      modifies this`curhashelem
      ensures Valid() && CursorOk()
      ensures Cursor() == if 0 < old(Cursor()) < |list| then old(Cursor()) - 1 else |list|
    {
      if curhashelem != null {
        ghost var i := Cursor();
        assert list[i].listprev == At(list, (i as int) - 1);
        curhashelem := curhashelem.listprev;
        CursorAt(if 0 < i then i - 1 else |list|);
      }
    }

    method HasCurrentElement() returns (b: bool)
      requires Valid() && CursorOk()
      ensures b <==> Cursor() < |list|
    {
      b := curhashelem != null;
    }

    // ---- adding ----

    /** Links a new element in at the head of its bucket. */
    method LinkIntoBucket(e: HashElement<Key, Element>)
      requires ChainsOk() && e !in nodes && e.hashindex < hashsize
      modifies this`nodes, this`chains, table, e`hashprev, e`hashnext, nodes`hashprev
      ensures ChainsOk() && nodes == old(nodes) + {e}
    {
      var index := e.hashindex;
      assert ChainOk(index);
      ghost var c := chains[index];
      assert table[index] != null ==> table[index] == c[0] && c[0] in c;
      PushFront(e, table[index], c);
      table[index] := e;
      nodes := nodes + {e};
      chains := chains[index := [e] + c];
      forall b | 0 <= b < hashsize && b != index
        ensures ChainOk(b)
      {
        assert old(ChainOk(b)) && chains[b] == old(chains[b]);
      }
    }

    /** Links a new element in at the end of the list. */
    method AppendToList(e: HashElement<Key, Element>)
      requires e in nodes && e !in list && e.listprev == e.listnext == null
      requires Listed(list, firsthashelem, lasthashelem)
      requires (forall f :: f in list ==> f in nodes) && (forall f :: f in nodes - {e} ==> f in list)
      modifies this`list, this`firsthashelem, this`lasthashelem, e`listprev, list`listnext
      ensures ListOk() && list == old(list) + [e]
    {
      Append(e, lasthashelem, list);
      if firsthashelem == null {
        firsthashelem := e;
      }
      lasthashelem := e;
      list := list + [e];
    }

    method Insert(e: HashElement<Key, Element>)
      requires Valid() && e !in nodes && e.listprev == e.listnext == null
      requires e.hashindex == getIndex(e.key) < hashsize && forall f :: f in nodes ==> f.key != e.key
      modifies this`nodes, this`list, this`chains, this`firsthashelem, this`lasthashelem, table
      modifies nodes`hashprev, nodes`listnext, e
      ensures Valid() && nodes == old(nodes) + {e} && list == old(list) + [e]
    {
      LinkIntoBucket(e);
      AppendToList(e);
    }

    method AddElement(k: Key, elem: Element) returns (status: Status)
      requires Valid()
      modifies this`nodes, this`list, this`chains, this`firsthashelem, this`lasthashelem, table
      modifies nodes`hashprev, nodes`listnext
      ensures Valid()
      ensures (status, Entries()) == Added(old(Entries()), getIndex(k) < hashsize, k, elem)
      ensures old(list) <= list && old(nodes) <= nodes && fresh(nodes - old(nodes))
      ensures old(CursorOk()) ==> CursorOk()
    {
      var index := getIndex(k);
      if index >= hashsize {
        AbsentAtBadIndex(k);
        return InvalidHashIndex;
      }
      var e := Lookup(k, index);
      if e != null {
        FindsElement(e);
        return KeyAlreadyExists;
      }
      FindsNothing(k);
      var newelem := new HashElement(k, elem, index);
      Insert(newelem);
      PairsAppend(old(list), newelem);
      return Ok;
    }

    // ---- deleting ----

    /** Closes the bucket chain over an element. */
    method UnlinkFromBucket(e: HashElement<Key, Element>)
      requires ChainsOk() && e in nodes && e.hashindex < hashsize
      modifies this`nodes, this`chains, table, nodes`hashprev, nodes`hashnext
      ensures ChainsOk() && nodes == old(nodes) - {e}
    {
      var index := e.hashindex;
      assert ChainOk(index);
      ghost var c := chains[index];
      ghost var i: int := IndexOf(c, e);
      assert c[i].hashprev == At(c, i - 1) && c[i].hashnext == At(c, i + 1);
      assert (i > 0 ==> c[i - 1] in c) && (i + 1 < |c| ==> c[i + 1] in c);
      Unchain(e, c, i);
      AtWithout(c, i, 0);
      if e.hashprev == null {
        table[index] := e.hashnext;
      }
      WithoutMembers(c, i);
      nodes := nodes - {e};
      chains := chains[index := Without(c, i)];
      forall b, f | 0 <= b < hashsize && f in chains[b]
        ensures f in nodes
      {
        assert b != index ==> old(ChainOk(b)) && chains[b] == old(chains[b]);
      }
      forall b | 0 <= b < hashsize && b != index
        ensures ChainOk(b)
      {
        assert old(ChainOk(b)) && chains[b] == old(chains[b]);
      }
    }

    /** Closes the list over an element and returns the one after it. */
    method UnlinkFromList(e: HashElement<Key, Element>) returns (next: HashElement?<Key, Element>)
      requires e !in nodes && e in list && Listed(list, firsthashelem, lasthashelem)
      requires (forall f :: f in list && f != e ==> f in nodes) && (forall f :: f in nodes ==> f in list)
      modifies this`list, this`firsthashelem, this`lasthashelem, list`listprev, list`listnext
      ensures ListOk()
      ensures list == Without(old(list), IndexOf(old(list), e)) && next == At(list, IndexOf(old(list), e))
    {
      ghost var i: int := IndexOf(list, e);
      next := e.listnext;
      assert list[i].listprev == At(list, i - 1) && next == At(list, i + 1);
      Unlist(e, list, i);
      if e.listprev == null {
        firsthashelem := next;
        if next == null {
          lasthashelem := null;
        }
      } else if next == null {
        lasthashelem := e.listprev;
      }
      WithoutMembers(list, i);
      list := Without(list, i);
    }

    /** Takes an element out of both structures and returns the one after it. */
    method Unlink(e: HashElement<Key, Element>) returns (next: HashElement?<Key, Element>)
      requires Valid() && e in nodes
      modifies this`nodes, this`list, this`chains, this`firsthashelem, this`lasthashelem, table, nodes
      ensures Valid() && nodes == old(nodes) - {e}
      ensures list == Without(old(list), IndexOf(old(list), e)) && next == At(list, IndexOf(old(list), e))
    {
      UnlinkFromBucket(e);
      next := UnlinkFromList(e);
      assert ChainsOk() && KeysOk();
    }

    method DeleteCurrentElement() returns (status: Status)
      requires Valid() && CursorOk()
      modifies this`nodes, this`list, this`chains, this`firsthashelem, this`lasthashelem, this`curhashelem, table
      modifies nodes
      ensures Valid() && CursorOk() && nodes <= old(nodes)
      ensures status == if old(Cursor()) < |old(list)| then Ok else NoCurrentElement
      ensures Cursor() == old(Cursor())
      ensures Entries() == if status == Ok then Without(old(Entries()), old(Cursor())) else old(Entries())
    {
      if curhashelem == null {
        return NoCurrentElement;
      }
      ghost var i := Cursor();
      curhashelem := Unlink(curhashelem);
      CursorAt(i);
      PairsWithout(old(list), i);
      return Ok;
    }

    /** Deletes by key; the cursor ends up on the element behind the deleted one, past the end if there is no such key,
        and where it was if the key has no valid index. */
    method DeleteElement(k: Key) returns (status: Status)
      requires Valid()
      modifies this`nodes, this`list, this`chains, this`firsthashelem, this`lasthashelem, this`curhashelem, table
      modifies nodes
      ensures Valid() && nodes <= old(nodes)
      ensures (status, Entries()) == Deleted(old(Entries()), getIndex(k) < hashsize, k)
      ensures status == Ok ==> CursorOk() && Cursor() == Find(old(Entries()), k)
      ensures status == KeyNotFound ==> CursorOk() && Cursor() == |list|
      ensures status == InvalidHashIndex ==> curhashelem == old(curhashelem)
      ensures status != Ok ==> list == old(list) && nodes == old(nodes)
    {
      status := GotoElement(k);
      if status != Ok {
        return;
      }
      status := DeleteCurrentElement();
    }

    /** Empties the table; the cursor is left dangling. */
    method Clear()
      requires Valid()
      modifies this`nodes, this`list, this`chains, this`firsthashelem, this`lasthashelem, table
      ensures Valid() && nodes == {} && Entries() == []
    {
      for i := 0 to hashsize
        invariant forall j :: 0 <= j < i ==> table[j] == null
        invariant table.Length == hashsize
      {
        table[i] := null;
      }
      firsthashelem, lasthashelem := null, null;
      nodes, list, chains := {}, [], seq(hashsize, _ => []);
    }

    method KeepOrDelete(keep: (Key, Element) -> bool)
      requires Valid() && CursorOk() && Cursor() < |list|
      modifies this`nodes, this`list, this`chains, this`firsthashelem, this`lasthashelem, this`curhashelem, table
      modifies nodes
      ensures Valid() && CursorOk() && nodes <= old(nodes)
      ensures var e := old(Entries()[Cursor()]);
              if keep(e.0, e.1) then Entries() == old(Entries()) && Cursor() == old(Cursor()) + 1
              else Entries() == Without(old(Entries()), old(Cursor())) && Cursor() == old(Cursor())
    {
      assert curhashelem == list[Cursor()];
      if keep(curhashelem.key, curhashelem.element) {
        GotoNextElement();
      } else {
        var status := DeleteCurrentElement();
      }
    }

    method SweepTurn(ghost all: Entries<Key, Element>, ghost visited: Entries<Key, Element>,
                     keep: (Key, Element) -> bool)
      returns (ghost seen: Entries<Key, Element>)
      requires Valid() && CursorOk() && curhashelem != null && SweptTo(all, visited, keep, Entries(), Cursor())
      modifies this`nodes, this`list, this`chains, this`firsthashelem, this`lasthashelem, this`curhashelem, table
      modifies nodes
      ensures Valid() && CursorOk() && nodes <= old(nodes)
      ensures SweptTo(all, seen, keep, Entries(), Cursor()) && |seen| == |visited| + 1
    {
      SweepStep(all, visited, keep, Entries(), Cursor());
      seen := visited + [Entries()[Cursor()]];
      KeepOrDelete(keep);
    }

    /** The use the cursor is made for: from the first element on, each is either deleted or stepped over. */
    method Sweep(keep: (Key, Element) -> bool) returns (ghost visited: Entries<Key, Element>)
      requires Valid()
      modifies this`nodes, this`list, this`chains, this`firsthashelem, this`lasthashelem, this`curhashelem, table
      modifies nodes
      ensures Valid() && visited == old(Entries()) && Entries() == Kept(old(Entries()), keep)
    {
      ghost var all := Entries();
      visited := [];
      GotoFirstElement();
      SweepStart(all, keep);
      while curhashelem != null
        invariant Valid() && CursorOk() && nodes <= old(nodes)
        invariant SweptTo(all, visited, keep, Entries(), Cursor())
        decreases |all| - |visited|
      {
        visited := SweepTurn(all, visited, keep);
      }
      SweepEnd(all, visited, keep, Entries(), Cursor());
    }

    // ---- whole histories ----

    ghost function IndexOk(): Key -> bool {
      k => getIndex(k) < hashsize
    }

    ghost function Position(): Place
      reads this`list, this`curhashelem, this`nodes
    {
      if curhashelem == null then Outside else if curhashelem in nodes then On(Cursor()) else Dangling
    }

    ghost function State(): Table<Key, Element>
      reads this`list, this`curhashelem, this`nodes, list
    {
      Table(Entries(), Position())
    }

    /** A cursor in use is on the entry it counts, or past the end. */
    lemma PositionIs()
      requires Valid() && CursorOk()
      ensures Position() == PlaceAt(|list|, Cursor())
    {
      if curhashelem != null {
        assert curhashelem in list;
      }
    }

    /** Does one operation of a history. */
    method Perform(op: Operation<Key, Element>)
      requires Valid() && Defined(State().cursor, op)
      modifies this`nodes, this`list, this`chains, this`firsthashelem, this`lasthashelem, this`curhashelem, table
      modifies nodes
      ensures Valid() && fresh(nodes - old(nodes))
      ensures State() == Do(old(State()), op, IndexOk())
    {
      match op {
        case Add(k, e) => PerformAdd(k, e);
        case Delete(k) => PerformDelete(k);
        case DeleteCurrent => PerformDeleteCurrent();
        case ClearAll => Clear();
        case _ => PerformMove(op);
      }
    }

    method PerformAdd(k: Key, e: Element)
      requires Valid()
      modifies this`nodes, this`list, this`chains, this`firsthashelem, this`lasthashelem, table
      modifies nodes`hashprev, nodes`listnext
      ensures Valid() && fresh(nodes - old(nodes))
      ensures State() == Do(old(State()), Add(k, e), IndexOk())
    {
      ghost var l, p, i := list, Position(), Cursor();
      var status := AddElement(k, e);
      if p.On? {
        assert list[i] == l[i] == curhashelem;
        IndexOfAt(list, i);
      }
      assert Position() == p;
    }

    method PerformDelete(k: Key)
      requires Valid()
      modifies this`nodes, this`list, this`chains, this`firsthashelem, this`lasthashelem, this`curhashelem, table
      modifies nodes
      ensures Valid() && nodes <= old(nodes)
      ensures State() == Do(old(State()), Delete(k), IndexOk())
    {
      var status := DeleteElement(k);
      if status != InvalidHashIndex {
        PositionIs();
      }
    }

    method PerformDeleteCurrent()
      requires Valid() && Position() != Dangling
      modifies this`nodes, this`list, this`chains, this`firsthashelem, this`lasthashelem, this`curhashelem, table
      modifies nodes
      ensures Valid() && nodes <= old(nodes)
      ensures State() == Do(old(State()), DeleteCurrent, IndexOk())
    {
      PositionIs();
      var status := DeleteCurrentElement();
      PositionIs();
    }

    method PerformFirst()
      requires Valid()
      modifies this`curhashelem
      ensures Valid() && State() == Do(old(State()), GotoFirst, IndexOk())
    {
      if CursorOk() {
        PositionIs();
      }
      GotoFirstElement();
      if CursorOk() {
        PositionIs();
      }
    }

    method PerformLast()
      requires Valid()
      modifies this`curhashelem
      ensures Valid() && State() == Do(old(State()), GotoLast, IndexOk())
    {
      if CursorOk() {
        PositionIs();
      }
      GotoLastElement();
      if CursorOk() {
        PositionIs();
      }
    }

    method PerformNext()
      requires Valid() && Position() != Dangling
      modifies this`curhashelem
      ensures Valid() && State() == Do(old(State()), GotoNext, IndexOk())
    {
      if CursorOk() {
        PositionIs();
      }
      GotoNextElement();
      if CursorOk() {
        PositionIs();
      }
    }

    method PerformPrevious()
      requires Valid() && Position() != Dangling
      modifies this`curhashelem
      ensures Valid() && State() == Do(old(State()), GotoPrevious, IndexOk())
    {
      if CursorOk() {
        PositionIs();
      }
      GotoPreviousElement();
      if CursorOk() {
        PositionIs();
      }
    }

    method PerformGoto(k: Key)
      requires Valid()
      modifies this`curhashelem
      ensures Valid() && State() == Do(old(State()), Goto(k), IndexOk())
    {
      if CursorOk() {
        PositionIs();
      }
      var status := GotoElement(k);
      if CursorOk() {
        PositionIs();
      }
    }

    method PerformMove(op: Operation<Key, Element>)
      requires Valid() && Defined(Position(), op)
      requires op.GotoFirst? || op.GotoLast? || op.GotoNext? || op.GotoPrevious? || op.Goto?
      modifies this`curhashelem
      ensures Valid() && State() == Do(old(State()), op, IndexOk())
    {
      match op {
        case GotoFirst => PerformFirst();
        case GotoLast => PerformLast();
        case GotoNext => PerformNext();
        case GotoPrevious => PerformPrevious();
        case Goto(k) => PerformGoto(k);
      }
    }

    /** Any history that uses the cursor only while it is defined: the table keeps its representation, does what the
        insertion order does, holds no key twice, and means what a plain map means after the same changes. */
    method Replay(ops: seq<Operation<Key, Element>>)
      requires Valid() && AllDefined(State(), ops, IndexOk())
      modifies this`nodes, this`list, this`chains, this`firsthashelem, this`lasthashelem, this`curhashelem, table
      modifies nodes
      ensures Valid() && State() == Run(old(State()), ops, IndexOk())
      ensures DistinctKeys(Entries())
      ensures AsMap(Entries())
           == RunMap(old(AsMap(Entries())), Changes(old(State()), ops, IndexOk()), IndexOk())
    {
      ghost var start := State();
      StartAgrees(ops);
      var i := 0;
      while i < |ops|
        invariant i <= |ops| && Valid() && fresh(nodes - old(nodes))
        invariant AllDefined(State(), ops[i..], IndexOk())
        invariant Run(State(), ops[i..], IndexOk()) == Run(start, ops, IndexOk())
      {
        assert ops[i..][1..] == ops[i + 1..];
        Perform(ops[i]);
        i := i + 1;
      }
    }

    lemma StartAgrees(ops: seq<Operation<Key, Element>>)
      requires Valid()
      ensures var after := Run(State(), ops, IndexOk()).entries;
              && DistinctKeys(after)
              && AsMap(after) == RunMap(AsMap(Entries()), Changes(State(), ops, IndexOk()), IndexOk())
    {
      forall i | 0 <= i < |list|
        ensures IndexOk()(Entries()[i].0)
      {
        assert list[i] in nodes;
      }
      if list != [] {
        MeansMap(list[0].key);
      }
      HistoryAgrees(State(), ops, IndexOk());
    }
  }

  lemma WithoutMembers<T>(s: seq<T>, i: nat)
    requires Distinct(s) && i < |s|
    ensures s[i] !in Without(s, i)
    ensures forall x :: x in s && x != s[i] ==> x in Without(s, i)
    ensures forall x :: x in Without(s, i) ==> x in s
  {
    var r := Without(s, i);
    forall j | 0 <= j < |r|
      ensures r[j] != s[i] && r[j] in s
    {
      SamePosition(s, i, if j < i then j else j + 1);
    }
    forall x | x in s && x != s[i]
      ensures x in Without(s, i)
    {
      var j :| 0 <= j < |s| && s[j] == x;
      assert Without(s, i)[if j < i then j else j - 1] == x;
    }
  }
}

/** What the table means: the entries in order of insertion. */
module InsertionOrder {

  datatype Status = Ok | InvalidHashIndex | KeyNotFound | KeyAlreadyExists | NoCurrentElement

  type Entries<Key, Element> = seq<(Key, Element)>

  /** Where a key stands in the order of insertion; the length when it is absent. */
  function Find<Key(==), Element>(es: Entries<Key, Element>, k: Key): (i: nat)
    ensures i <= |es|
    ensures i < |es| ==> es[i].0 == k
    ensures forall j :: 0 <= j < i ==> es[j].0 != k
  {
    if es == [] then 0 else if es[0].0 == k then 0 else 1 + Find(es[1..], k)
  }

  function Without<T>(s: seq<T>, i: nat): (r: seq<T>)
    requires i < |s|
    ensures |r| == |s| - 1
  {
    s[..i] + s[i + 1..]
  }

  /** Outcome of an insertion: at the end, and only if the key is new. */
  function Added<Key(==), Element>(es: Entries<Key, Element>, indexOk: bool, k: Key, elem: Element)
    : (Status, Entries<Key, Element>)
  {
    if !indexOk then (InvalidHashIndex, es)
    else if Find(es, k) < |es| then (KeyAlreadyExists, es)
    else (Ok, es + [(k, elem)])
  }

  function Deleted<Key(==), Element>(es: Entries<Key, Element>, indexOk: bool, k: Key)
    : (Status, Entries<Key, Element>)
  {
    if !indexOk then (InvalidHashIndex, es)
    else if Find(es, k) == |es| then (KeyNotFound, es)
    else (Ok, Without(es, Find(es, k)))
  }

  /** The entries a sweep keeps, in order. */
  function Kept<Key, Element>(es: Entries<Key, Element>, keep: (Key, Element) -> bool): (r: Entries<Key, Element>)
    ensures |r| <= |es|
  {
    if es == [] then [] else
      var last := es[|es| - 1];
      Kept(es[..|es| - 1], keep) + if keep(last.0, last.1) then [last] else []
  }

  /** A sweep in progress: what it has visited, filtered, then what it has not reached, with the cursor in between. */
  ghost predicate SweptTo<Key, Element>(all: Entries<Key, Element>, visited: Entries<Key, Element>,
                                        keep: (Key, Element) -> bool, now: Entries<Key, Element>, cursor: nat)
  {
    && |visited| <= |all| && visited == all[..|visited|]
    && now == Kept(visited, keep) + all[|visited|..] && cursor == |Kept(visited, keep)|
  }

  lemma SweepStart<Key, Element>(all: Entries<Key, Element>, keep: (Key, Element) -> bool)
    ensures SweptTo(all, [], keep, all, 0)
  {
  }

  lemma SweepEnd<Key, Element>(all: Entries<Key, Element>, visited: Entries<Key, Element>,
                               keep: (Key, Element) -> bool, now: Entries<Key, Element>, cursor: nat)
    requires SweptTo(all, visited, keep, now, cursor) && cursor == |now|
    ensures visited == all && now == Kept(all, keep)
  {
  }

  /** One turn of the sweep visits the next entry and leaves the rest alone, whether it keeps the entry or not. */
  lemma SweepStep<Key, Element>(all: Entries<Key, Element>, visited: Entries<Key, Element>,
                                keep: (Key, Element) -> bool, now: Entries<Key, Element>, cursor: nat)
    requires SweptTo(all, visited, keep, now, cursor) && cursor < |now|
    ensures |visited| < |all|
    ensures var e := now[cursor]; var seen := visited + [e];
            if keep(e.0, e.1) then SweptTo(all, seen, keep, now, cursor + 1)
            else SweptTo(all, seen, keep, Without(now, cursor), cursor)
  {
    var e := now[cursor];
    assert e == all[|visited|];
    assert (visited + [e])[..|visited|] == visited;
    assert all[|visited|..] == [e] + all[|visited| + 1..];
  }

  // ---- agreement with a plain map ----

  ghost predicate DistinctKeys<Key, Element>(es: Entries<Key, Element>) {
    forall i, j :: 0 <= i < j < |es| ==> es[i].0 != es[j].0
  }

  ghost function AsMap<Key, Element>(es: Entries<Key, Element>): map<Key, Element> {
    if es == [] then map[] else AsMap(es[..|es| - 1])[es[|es| - 1].0 := es[|es| - 1].1]
  }

  // ---- histories ----

  /** The cursor: on an entry, past the end, or left over from before a `Clear` or a first `Goto`. */
  datatype Place = On(at: nat) | Outside | Dangling

  datatype Table<Key, Element> = Table(entries: Entries<Key, Element>, cursor: Place)

  datatype Operation<Key, Element> =
    | Add(k: Key, elem: Element) | Delete(k: Key) | DeleteCurrent | ClearAll
    | GotoFirst | GotoLast | GotoNext | GotoPrevious | Goto(k: Key)

  function PlaceAt(n: nat, i: nat): Place {
    if i < n then On(i) else Outside
  }

  /** Only these follow the cursor. */
  predicate Defined<Key, Element>(cursor: Place, op: Operation<Key, Element>) {
    op.DeleteCurrent? || op.GotoNext? || op.GotoPrevious? ==> cursor != Dangling
  }

  predicate OnEntry<Key, Element>(t: Table<Key, Element>) {
    t.cursor.On? && t.cursor.at < |t.entries|
  }

  function Do<Key(==), Element>(t: Table<Key, Element>, op: Operation<Key, Element>, index: Key -> bool)
    : Table<Key, Element>
  {
    var es, n := t.entries, |t.entries|;
    match op
    case Add(k, e) => Table(Added(es, index(k), k, e).1, t.cursor)
    case Delete(k) =>
      if !index(k) then t else
        var r := Deleted(es, index(k), k).1;
        Table(r, if Find(es, k) < n then PlaceAt(|r|, Find(es, k)) else Outside)
    case DeleteCurrent =>
      if !OnEntry(t) then t else Table(Without(es, t.cursor.at), PlaceAt(n - 1, t.cursor.at))
    case ClearAll => Table([], if t.cursor == Outside then Outside else Dangling)
    case GotoFirst => Table(es, PlaceAt(n, 0))
    case GotoLast => Table(es, if es == [] then Outside else On(n - 1))
    case GotoNext => Table(es, if t.cursor.On? then PlaceAt(n, t.cursor.at + 1) else t.cursor)
    case GotoPrevious =>
      Table(es, if !t.cursor.On? then t.cursor else if 0 < t.cursor.at < n then On(t.cursor.at - 1) else Outside)
    case Goto(k) => if index(k) then Table(es, PlaceAt(n, Find(es, k))) else t
  }

  /** What a history of operations does to the table ... */
  function Run<Key(==), Element>(t: Table<Key, Element>, ops: seq<Operation<Key, Element>>, index: Key -> bool)
    : Table<Key, Element>
    decreases |ops|
  {
    if ops == [] then t else Run(Do(t, ops[0], index), ops[1..], index)
  }

  ghost predicate AllDefined<Key, Element>(t: Table<Key, Element>, ops: seq<Operation<Key, Element>>,
                                           index: Key -> bool)
    decreases |ops|
  {
    ops == [] || (Defined(t.cursor, ops[0]) && AllDefined(Do(t, ops[0], index), ops[1..], index))
  }

  /** ... and to a map that refuses to overwrite and ignores keys without a valid index. */
  datatype Change<Key, Element> = Put(k: Key, elem: Element) | Remove(k: Key) | RemoveAll

  function MapAfter<Key(==), Element>(m: map<Key, Element>, c: Change<Key, Element>, index: Key -> bool)
    : map<Key, Element>
  {
    match c
    case Put(k, e) => if index(k) && k !in m then m[k := e] else m
    case Remove(k) => if index(k) then m - {k} else m
    case RemoveAll => map[]
  }

  function RunMap<Key(==), Element>(m: map<Key, Element>, cs: seq<Change<Key, Element>>, index: Key -> bool)
    : map<Key, Element>
    decreases |cs|
  {
    if cs == [] then m else RunMap(MapAfter(m, cs[0], index), cs[1..], index)
  }

  /** The change an operation means for the map: a deletion at the cursor removes the key found there, and moving the
      cursor means none. */
  function ChangeOf<Key, Element>(t: Table<Key, Element>, op: Operation<Key, Element>): (cs: seq<Change<Key, Element>>)
    ensures |cs| <= 1
  {
    match op
    case Add(k, e) => [Put(k, e)]
    case Delete(k) => [Remove(k)]
    case DeleteCurrent => if OnEntry(t) then [Remove(t.entries[t.cursor.at].0)] else []
    case ClearAll => [RemoveAll]
    case _ => []
  }

  function Changes<Key(==), Element>(t: Table<Key, Element>, ops: seq<Operation<Key, Element>>, index: Key -> bool)
    : seq<Change<Key, Element>>
    decreases |ops|
  {
    if ops == [] then [] else ChangeOf(t, ops[0]) + Changes(Do(t, ops[0], index), ops[1..], index)
  }

  lemma {:induction false} AsMapContents<Key, Element>(es: Entries<Key, Element>)
    requires DistinctKeys(es)
    ensures forall i :: 0 <= i < |es| ==> es[i].0 in AsMap(es) && AsMap(es)[es[i].0] == es[i].1
    ensures forall k :: k in AsMap(es) ==> exists i :: 0 <= i < |es| && es[i].0 == k
  {
    if es != [] {
      var init: Entries<Key, Element> := es[..|es| - 1];
      AsMapContents(init);
      assert AsMap(es) == AsMap(init)[es[|es| - 1].0 := es[|es| - 1].1];
      forall k | k in AsMap(es)
        ensures exists i :: 0 <= i < |es| && es[i].0 == k
      {
        if k == es[|es| - 1].0 {
          assert es[|es| - 1].0 == k;
        } else {
          var i :| 0 <= i < |init| && init[i].0 == k;
          assert es[i].0 == k;
        }
      }
    }
  }

  /** A lookup in the table answers as the map does. */
  lemma FindIsMember<Key, Element>(es: Entries<Key, Element>, k: Key)
    requires DistinctKeys(es)
    ensures Find(es, k) < |es| <==> k in AsMap(es)
    ensures k in AsMap(es) ==> AsMap(es)[k] == es[Find(es, k)].1
  {
    AsMapContents(es);
  }

  lemma WithoutIsRemoval<Key, Element>(es: Entries<Key, Element>, i: nat)
    requires DistinctKeys(es) && i < |es|
    ensures DistinctKeys(Without(es, i)) && AsMap(Without(es, i)) == AsMap(es) - {es[i].0}
  {
    var r := Without(es, i);
    assert forall p :: 0 <= p < |r| ==> r[p] == es[if p < i then p else p + 1];
    RemovedKeys(es, r, i);
  }

  lemma RemovedKeys<Key, Element>(es: Entries<Key, Element>, r: Entries<Key, Element>, i: nat)
    requires DistinctKeys(es) && i < |es| && |r| == |es| - 1
    requires forall p :: 0 <= p < |r| ==> r[p] == es[if p < i then p else p + 1]
    ensures DistinctKeys(r) && AsMap(r) == AsMap(es) - {es[i].0}
  {
    assert DistinctKeys(r);
    var m, n := AsMap(es) - {es[i].0}, AsMap(r);
    forall k | k in m
      ensures k in n && n[k] == m[k]
    {
      var j := KeyAt(es, k);
      var p := if j < i then j else j - 1;
      assert r[p] == es[j];
      AtKey(r, p);
    }
    forall k | k in n
      ensures k in m
    {
      var p := KeyAt(r, k);
      var j := if p < i then p else p + 1;
      assert r[p] == es[j];
      AtKey(es, j);
    }
  }

  lemma KeyAt<Key, Element>(es: Entries<Key, Element>, k: Key) returns (i: nat)
    requires DistinctKeys(es) && k in AsMap(es)
    ensures i < |es| && es[i].0 == k && AsMap(es)[k] == es[i].1
  {
    AsMapContents(es);
    i :| i < |es| && es[i].0 == k;
  }

  lemma AtKey<Key, Element>(es: Entries<Key, Element>, i: nat)
    requires DistinctKeys(es) && i < |es|
    ensures es[i].0 in AsMap(es) && AsMap(es)[es[i].0] == es[i].1
  {
    AsMapContents(es);
  }

  /** The answers of an insertion and a deletion, by what the map holds: a key without a valid index is refused first;
      an insertion finds the key there, or succeeds; a deletion misses it, or succeeds. Only success changes the
      entries. */
  lemma StatusesMean<Key, Element>(es: Entries<Key, Element>, indexOk: bool, k: Key, elem: Element)
    requires DistinctKeys(es)
    ensures var (added, after) := Added(es, indexOk, k, elem);
            && (added == InvalidHashIndex <==> !indexOk)
            && (added == KeyAlreadyExists <==> indexOk && k in AsMap(es))
            && (added == Ok <==> indexOk && k !in AsMap(es))
            && after == if added == Ok then es + [(k, elem)] else es
    ensures var (deleted, after) := Deleted(es, indexOk, k);
            && (deleted == InvalidHashIndex <==> !indexOk)
            && (deleted == KeyNotFound <==> indexOk && k !in AsMap(es))
            && (deleted == Ok <==> indexOk && k in AsMap(es))
            && (deleted != Ok ==> after == es)
            && (deleted == Ok ==> exists i :: 0 <= i < |es| && es[i].0 == k && after == es[..i] + es[i + 1..])
  {
    FindIsMember(es, k);
  }

  ghost predicate Increasing(at: seq<nat>, n: nat) {
    (forall j :: 0 <= j < |at| ==> at[j] < n) && forall i, j :: 0 <= i < j < |at| ==> at[i] < at[j]
  }

  /** `r` is what stands at these positions of `s`. */
  ghost predicate Picked<T>(s: seq<T>, at: seq<nat>, r: seq<T>) {
    Increasing(at, |s|) && |r| == |at| && forall j :: 0 <= j < |at| ==> r[j] == s[at[j]]
  }

  lemma PickedMore<T>(s: seq<T>, n: nat, at: seq<nat>, r: seq<T>)
    requires n + 1 == |s| && Picked(s[..n], at, r)
    ensures Picked(s, at, r) && Picked(s, at + [n], r + [s[n]])
  {
  }

  /** What a sweep keeps are the entries it is told to keep, each once and in order. */
  lemma {:induction false} KeptIs<Key, Element>(es: Entries<Key, Element>, keep: (Key, Element) -> bool)
    returns (at: seq<nat>)
    ensures Picked(es, at, Kept(es, keep))
    ensures forall i: nat :: i < |es| ==> (keep(es[i].0, es[i].1) <==> i in at)
  {
    at := [];
    if es != [] {
      var n := |es| - 1;
      var before := KeptIs(es[..n], keep);
      at := before + if keep(es[n].0, es[n].1) then [n] else [];
      PickedMore(es, n, before, Kept(es[..n], keep));
      LastKept(es, keep, n, before, at);
    }
  }

  lemma LastKept<Key, Element>(es: Entries<Key, Element>, keep: (Key, Element) -> bool, n: nat, before: seq<nat>,
                               at: seq<nat>)
    requires n + 1 == |es| && Increasing(before, n) && at == before + if keep(es[n].0, es[n].1) then [n] else []
    requires forall i: nat :: i < n ==> (keep(es[..n][i].0, es[..n][i].1) <==> i in before)
    ensures forall i: nat :: i < |es| ==> (keep(es[i].0, es[i].1) <==> i in at)
  {
    forall i: nat | i < |es|
      ensures keep(es[i].0, es[i].1) <==> i in at
    {
      if i < n {
        assert es[..n][i] == es[i];
      }
    }
  }

  ghost predicate ValidKeys<Key, Element>(es: Entries<Key, Element>, index: Key -> bool) {
    DistinctKeys(es) && forall i :: 0 <= i < |es| ==> index(es[i].0)
  }

  lemma AddAgrees<Key, Element>(es: Entries<Key, Element>, k: Key, e: Element, index: Key -> bool)
    requires ValidKeys(es, index)
    ensures var next := Added(es, index(k), k, e).1;
            ValidKeys(next, index) && AsMap(next) == MapAfter(AsMap(es), Put(k, e), index)
  {
    FindIsMember(es, k);
    var next := Added(es, index(k), k, e).1;
    assert next != es ==> next[..|next| - 1] == es;
  }

  lemma WithoutAgrees<Key, Element>(es: Entries<Key, Element>, i: nat, index: Key -> bool)
    requires ValidKeys(es, index) && i < |es|
    ensures ValidKeys(Without(es, i), index)
    ensures AsMap(Without(es, i)) == MapAfter(AsMap(es), Remove(es[i].0), index)
  {
    WithoutIsRemoval(es, i);
    var r := Without(es, i);
    assert forall j :: 0 <= j < |r| ==> r[j] == es[if j < i then j else j + 1];
  }

  lemma DeleteAgrees<Key, Element>(es: Entries<Key, Element>, k: Key, index: Key -> bool)
    requires ValidKeys(es, index)
    ensures var next := Deleted(es, index(k), k).1;
            ValidKeys(next, index) && AsMap(next) == MapAfter(AsMap(es), Remove(k), index)
  {
    if index(k) && Find(es, k) < |es| {
      WithoutAgrees(es, Find(es, k), index);
    } else {
      FindIsMember(es, k);
      assert index(k) ==> AsMap(es) - {k} == AsMap(es);
    }
  }

  /** One operation changes table and map alike. */
  lemma OperationAgrees<Key, Element>(t: Table<Key, Element>, op: Operation<Key, Element>, index: Key -> bool)
    requires ValidKeys(t.entries, index)
    ensures var next, cs := Do(t, op, index).entries, ChangeOf(t, op);
            && ValidKeys(next, index)
            && AsMap(next) == if cs == [] then AsMap(t.entries) else MapAfter(AsMap(t.entries), cs[0], index)
  {
    match op {
      case Add(k, e) => AddAgrees(t.entries, k, e, index);
      case Delete(k) => DeleteAgrees(t.entries, k, index);
      case DeleteCurrent =>
        if OnEntry(t) {
          WithoutAgrees(t.entries, t.cursor.at, index);
        }
      case _ =>
    }
  }

  lemma RunMapCons<Key, Element>(m: map<Key, Element>, cs: seq<Change<Key, Element>>, rest: seq<Change<Key, Element>>,
                                 index: Key -> bool)
    requires |cs| <= 1
    ensures RunMap(m, cs + rest, index) == RunMap(if cs == [] then m else MapAfter(m, cs[0], index), rest, index)
  {
    if cs == [] {
      assert cs + rest == rest;
    } else {
      assert (cs + rest)[1..] == rest;
    }
  }

  /** Over any history the table stays free of duplicate keys and means exactly what the map means. */
  lemma {:induction false} HistoryAgrees<Key, Element>(t: Table<Key, Element>, ops: seq<Operation<Key, Element>>,
                                                             index: Key -> bool)
    requires ValidKeys(t.entries, index)
    ensures ValidKeys(Run(t, ops, index).entries, index)
    ensures AsMap(Run(t, ops, index).entries) == RunMap(AsMap(t.entries), Changes(t, ops, index), index)
    decreases |ops|
  {
    if ops != [] {
      var next, cs := Do(t, ops[0], index), ChangeOf(t, ops[0]);
      var rest := Changes(next, ops[1..], index);
      OperationAgrees(t, ops[0], index);
      HistoryAgrees(next, ops[1..], index);
      RunMapCons(AsMap(t.entries), cs, rest, index);
    }
  }
}
