/**
 The LFU cache: a bounded key/value store that, when full, evicts the entry
 used least often, and among equally often used entries the one used least
 recently.

 The cache keeps its entries in frequency buckets (module LfuBuckets), an
 index from a frequency to its bucket, an index from a key to its entry, its
 capacity and the lowest frequency present. Every operation is proved
 against the reference order of module LfuOrder: `Entries()` is exactly what
 `All` yields, a use of an entry is `Touch`, an insertion is `Admit`, and an
 eviction drops the last entry.
 */
module Lfu {
  import LinkedList
  import opened LfuOrder
  import opened LfuBuckets

  /** The capacity of a cache created without one. */
  const DefaultCapacity := 5

  datatype Error = KeyNotFound

  datatype Option<T> = None | Some(value: T)

  datatype Result<T> = Ok(value: T) | Err(error: Error)

  /** `ke` files every listed entry under its key, and nothing else. */
  ghost predicate Stored<K, V>(e: seq<Node<K, V>>, ke: map<K, Node<K, V>>)
  {
    && DistinctKeys(e)
    && ke.Keys == KeySet(e)
    && (forall j :: 0 <= j < |e| ==> e[j].key in ke && ke[e[j].key] == e[j])
  }

  /** The pairs `All` yields for a listing. */
  function Pairs<K, V>(e: seq<Node<K, V>>): (ps: seq<(K, V)>)
    ensures |ps| == |e|
    ensures forall i :: 0 <= i < |e| ==> ps[i] == (e[i].key, e[i].value)
  {
    if e == [] then [] else Pairs(e[..|e| - 1]) + [(e[|e| - 1].key, e[|e| - 1].value)]
  }

  /** A stored key has its entry in the listing, at its position. */
  lemma StoredAt<K, V>(e: seq<Node<K, V>>, ke: map<K, Node<K, V>>, key: K) returns (i: nat)
    requires Stored(e, ke) && key in ke
    ensures i < |e| && e[i].key == key && e[i] == ke[key] && i == Position(e, key)
  {
    DistinctUnique(e);
    assert key in KeySet(e);
    i :| 0 <= i < |e| && e[i].key == key;
  }

  /** Every listed entry is the one its key files, at its key's position. */
  lemma StoredIndex<K, V>(e: seq<Node<K, V>>, ke: map<K, Node<K, V>>, k: nat)
    requires Stored(e, ke) && k < |e|
    ensures e[k].key in ke && e[k] == ke[e[k].key] && k == Position(e, e[k].key)
  {
    var i := StoredAt(e, ke, e[k].key);
    DistinctUnique(e);
    assert e[i].key == e[k].key;
  }

  /** `StoredIndex` on the listing of buckets. */
  lemma StoredListing<K, V>(bs: seq<Bucket<K, V>>, ke: map<K, Node<K, V>>, k: nat)
    requires Stored(Listing(bs), ke) && k < |Listing(bs)|
    ensures Listing(bs)[k].key in ke && Listing(bs)[k] == ke[Listing(bs)[k].key]
    ensures k == Position(Listing(bs), Listing(bs)[k].key)
  {
    StoredIndex(Listing(bs), ke, k);
  }

  /** The key index of a listing is determined by the listing. */
  lemma StoredUnique<K, V>(e: seq<Node<K, V>>, a: map<K, Node<K, V>>, b: map<K, Node<K, V>>)
    requires Stored(e, a) && Stored(e, b)
    ensures a == b
  {
    forall key | key in a
      ensures a[key] == b[key]
    {
      var i := StoredAt(e, a, key);
    }
  }

  /** The key index holds as many entries as the listing. */
  lemma StoredCount<K, V>(e: seq<Node<K, V>>, ke: map<K, Node<K, V>>)
    requires Stored(e, ke)
    ensures |ke| == |e|
  {
    KeyCount(e);
    assert |ke| == |ke.Keys|;
  }

  /** Using the entry at `q` re-files it with its frequency raised. */
  lemma StoredTouch<K, V>(e: seq<Node<K, V>>, ke: map<K, Node<K, V>>, q: nat)
    requires Stored(e, ke) && q < |e|
    ensures Stored(Touch(e, q), ke[e[q].key := e[q].(freq := e[q].freq + 1)])
    ensures |ke[e[q].key := e[q].(freq := e[q].freq + 1)]| == |ke| == |Touch(e, q)|
  {
    TouchKeys(e, q);
    DistinctUnique(e);
    TouchFiled(e, ke, q);
    assert e[q].key in KeySet(e);
    StoredCount(e, ke);
    assert ke[e[q].key := e[q].(freq := e[q].freq + 1)].Keys == ke.Keys;
  }

  /** After a use every listed entry is the one its key files. */
  lemma TouchFiled<K, V>(e: seq<Node<K, V>>, ke: map<K, Node<K, V>>, q: nat)
    requires q < |e| && Unique(e)
    requires forall j :: 0 <= j < |e| ==> e[j].key in ke && ke[e[j].key] == e[j]
    ensures var t := Touch(e, q); var ke' := ke[e[q].key := e[q].(freq := e[q].freq + 1)];
      forall j :: 0 <= j < |t| ==> t[j].key in ke' && ke'[t[j].key] == t[j]
  {
    var n := e[q].(freq := e[q].freq + 1);
    var r := LinkedList.RemoveAt(e, q);
    var ke' := ke[e[q].key := n];
    var p := AdmitPlace(r, n);
    var t := Touch(e, q);
    forall j | 0 <= j < |t|
      ensures t[j].key in ke' && ke'[t[j].key] == t[j]
    {
      if j != p {
        var i := if j < p then j else j - 1;
        var a := if i < q then i else i + 1;
        assert t[j] == r[i] == e[a];
      }
    }
  }

  /** Admitting an entry with a new key files it. */
  lemma StoredAdmit<K, V>(e: seq<Node<K, V>>, ke: map<K, Node<K, V>>, n: Node<K, V>)
    requires Stored(e, ke) && n.key !in ke
    ensures Stored(Admit(e, n), ke[n.key := n])
  {
    AdmitKeys(e, n);
    var p := AdmitPlace(e, n);
    var t := Admit(e, n);
    forall j | 0 <= j < |t|
      ensures t[j].key in ke[n.key := n] && ke[n.key := n][t[j].key] == t[j]
    {
      if j != p {
        var i := if j < p then j else j - 1;
        assert t[j] == e[i];
      }
    }
  }

  /** Dropping the last entry un-files its key. */
  lemma StoredEvict<K, V>(e: seq<Node<K, V>>, ke: map<K, Node<K, V>>)
    requires Stored(e, ke) && |e| > 0
    ensures Stored(e[..|e| - 1], ke - {Last(e).key})
  {
    var d := e[..|e| - 1];
    DistinctUnique(e);
    assert Unique(d);
    UniqueDistinct(d);
    forall k | k in KeySet(e) - {Last(e).key}
      ensures k in KeySet(d)
    {
      var i :| 0 <= i < |e| && e[i].key == k;
      assert d[i] == e[i];
    }
    forall k | k in KeySet(d)
      ensures k in KeySet(e) - {Last(e).key}
    {
      var i :| 0 <= i < |d| && d[i].key == k;
      assert e[i] == d[i];
    }
  }

  /** Giving the entry at `q` a new value re-files it. */
  lemma StoredSet<K, V>(e: seq<Node<K, V>>, ke: map<K, Node<K, V>>, q: nat, v: V)
    requires Stored(e, ke) && q < |e|
    ensures Stored(e[q := e[q].(value := v)], ke[e[q].key := e[q].(value := v)])
  {
    var d := e[q := e[q].(value := v)];
    DistinctUnique(e);
    assert Unique(d);
    UniqueDistinct(d);
    assert e[q].key in KeySet(e);
    assert KeySet(d) == KeySet(e) by {
      forall k | k in KeySet(e)
        ensures k in KeySet(d)
      {
        var i :| 0 <= i < |e| && e[i].key == k;
        assert d[i].key == k;
      }
    }
  }

  /** The listing of the buckets from `i` on: those above `i`, then bucket
      `i`. */
  lemma ListingFrom<K, V>(bs: seq<Bucket<K, V>>, i: nat)
    requires i < |bs|
    ensures Listing(bs[i..]) == Listing(bs[i + 1..]) + bs[i].nodes
  {
    assert bs[i..][1..] == bs[i + 1..];
  }

  /** The order `All` yields: every stored entry once, each with its value,
      in descending frequency. */
  lemma PairsOfStored<K, V>(e: seq<Node<K, V>>, ke: map<K, Node<K, V>>)
    requires Stored(e, ke) && Descending(e)
    ensures |Pairs(e)| == |ke|
    ensures forall i :: 0 <= i < |Pairs(e)| ==> Pairs(e)[i].0 in ke && ke[Pairs(e)[i].0].value == Pairs(e)[i].1
    ensures forall key :: key in ke ==> exists i :: 0 <= i < |Pairs(e)| && Pairs(e)[i] == (key, ke[key].value)
    ensures forall i, j :: 0 <= i < j < |Pairs(e)| ==> Pairs(e)[i].0 != Pairs(e)[j].0
    ensures forall i, j :: 0 <= i < j < |Pairs(e)| ==> ke[Pairs(e)[i].0].freq >= ke[Pairs(e)[j].0].freq
  {
    var ps := Pairs(e);
    StoredCount(e, ke);
    PairsFiled(e, ke, ps);
    PairsCover(e, ke, ps);
    PairsDistinct(e, ps);
    PairsDescending(e, ke, ps);
  }

  /** Every pair is a stored key with its value. */
  lemma PairsFiled<K, V>(e: seq<Node<K, V>>, ke: map<K, Node<K, V>>, ps: seq<(K, V)>)
    requires Stored(e, ke) && ps == Pairs(e)
    ensures forall i :: 0 <= i < |ps| ==> ps[i].0 in ke && ke[ps[i].0].value == ps[i].1
  {
  }

  /** Every stored key is paired with its value. */
  lemma PairsCover<K, V>(e: seq<Node<K, V>>, ke: map<K, Node<K, V>>, ps: seq<(K, V)>)
    requires Stored(e, ke) && ps == Pairs(e)
    ensures forall key :: key in ke ==> exists i :: 0 <= i < |ps| && ps[i] == (key, ke[key].value)
  {
    forall key | key in ke
      ensures exists i :: 0 <= i < |ps| && ps[i] == (key, ke[key].value)
    {
      var i := StoredAt(e, ke, key);
      assert ps[i] == (key, ke[key].value);
    }
  }

  /** No key is paired twice. */
  lemma PairsDistinct<K, V>(e: seq<Node<K, V>>, ps: seq<(K, V)>)
    requires DistinctKeys(e) && ps == Pairs(e)
    ensures forall i, j :: 0 <= i < j < |ps| ==> ps[i].0 != ps[j].0
  {
    DistinctUnique(e);
  }

  /** The pairs come in descending frequency of their keys' entries. */
  lemma PairsDescending<K, V>(e: seq<Node<K, V>>, ke: map<K, Node<K, V>>, ps: seq<(K, V)>)
    requires Stored(e, ke) && Descending(e) && ps == Pairs(e)
    ensures forall i :: 0 <= i < |ps| ==> ps[i].0 in ke
    ensures forall i, j :: 0 <= i < j < |ps| ==> ke[ps[i].0].freq >= ke[ps[j].0].freq
  {
  }

  /** The entry of a stored key is in the bucket filed under its
      frequency. */
  lemma Filed<K, V>(bs: seq<Bucket<K, V>>, fe: map<int, nat>, ke: map<K, Node<K, V>>, key: K)
    requires Shaped(bs, fe) && Stored(Listing(bs), ke) && key in ke
    ensures var x := ke[key];
      && x.freq in fe && fe[x.freq] < |bs|
      && exists k :: 0 <= k < |bs[fe[x.freq]].nodes| && bs[fe[x.freq]].nodes[k].key == key
  {
    var i := StoredAt(Listing(bs), ke, key);
    var k := BucketOf(bs, fe, i);
  }

  /** An entry with `key`, found at `j` of the bucket at `p`, is the stored
      entry, and its place in the listing is the key's position. */
  lemma Placed<K, V>(bs: seq<Bucket<K, V>>, ke: map<K, Node<K, V>>, key: K, p: nat, j: nat)
    requires Ascending(bs) && Uniform(bs) && Stored(Listing(bs), ke)
    requires p < |bs| && j < |bs[p].nodes| && bs[p].nodes[j].key == key
    ensures key in ke && bs[p].nodes[j] == ke[key]
    ensures var q := |Listing(bs[p + 1..])| + j;
      && q < |Listing(bs)| && Listing(bs)[q] == bs[p].nodes[j]
      && q == Position(Listing(bs), key)
  {
    var q := SpanAt(bs, p, j);
    StoredListing(bs, ke, q);
  }

  /** A use of the entry at `j` of the bucket at `p`: in the touched listing
      the least frequency moves up exactly when the entry was alone at the
      least frequency. */
  lemma Promoted<K, V>(bs: seq<Bucket<K, V>>, fe: map<int, nat>, mf: int, p: nat, j: nat) returns (q: nat)
    requires Shaped(bs, fe) && p < |bs| && j < |bs[p].nodes|
    requires |Listing(bs)| > 0 ==> Last(Listing(bs)).freq == mf
    ensures q == |Listing(bs[p + 1..])| + j && q < |Listing(bs)| && Listing(bs)[q] == bs[p].nodes[j]
    ensures Last(Touch(Listing(bs), q)).freq == if bs[p].nodes[j].freq == mf && |bs[p].nodes| == 1 then mf + 1 else mf
  {
    q := SpanAt(bs, p, j);
    var e := Listing(bs);
    AloneInBucket(bs, p, j, q, e);
    ListingDescending(bs);
    var n := bs[p].nodes[j];
    var alone := |bs[p].nodes| == 1;
    LeastAfterUse(e, q, n, mf, alone);
  }

  /** The least frequency of a descending listing after the entry `n` at
      `q` is used, in terms of the least frequency `mf` before. */
  lemma LeastAfterUse<K, V>(e: seq<Node<K, V>>, q: nat, n: Node<K, V>, mf: int, alone: bool)
    requires q < |e| && Descending(e) && e[q] == n && Last(e).freq == mf
    requires alone <==> forall i :: 0 <= i < |e| && i != q ==> e[i].freq != e[q].freq
    ensures Last(Touch(e, q)).freq == if n.freq == mf && alone then mf + 1 else mf
  {
    TouchLeast(e, q, alone);
  }

  /** The fields of a cache, as one value. */
  datatype CacheState<K, V> = CacheState(
    freqToList: seq<Bucket<K, V>>,
    freqToElem: map<int, nat>,
    keyToElem: map<K, Node<K, V>>,
    capacity: int,
    minFreq: int)

  /** Everything but the eviction frequency is consistent: the buckets are
      shaped, the key index files exactly the listed entries, and there are
      no more of them than the capacity. */
  ghost predicate Consistent<K, V>(s: CacheState<K, V>)
  {
    && 0 <= s.capacity
    && Shaped(s.freqToList, s.freqToElem)
    && Stored(Listing(s.freqToList), s.keyToElem)
    && |s.keyToElem| == |Listing(s.freqToList)| <= s.capacity
  }

  /** A consistent cache whose `minFreq` is the frequency of the entry that
      eviction takes. */
  ghost predicate Sound<K, V>(s: CacheState<K, V>)
  {
    && Consistent(s)
    && (|Listing(s.freqToList)| > 0 ==> Last(Listing(s.freqToList)).freq == s.minFreq)
  }

  /** The entry of `key` is the one at `j` of the bucket at `p`, which is
      the bucket filed under its frequency. */
  ghost predicate Found<K, V>(s: CacheState<K, V>, key: K, p: nat, j: nat)
  {
    && key in s.keyToElem && s.keyToElem[key].key == key
    && s.keyToElem[key].freq in s.freqToElem && p == s.freqToElem[s.keyToElem[key].freq]
    && p < |s.freqToList| && j < |s.freqToList[p].nodes|
    && s.freqToList[p].nodes[j] == s.keyToElem[key]
  }

  /** The inner list's Remove of the element at `j` of the bucket at `p`. */
  ghost function Unlinked<K, V>(s: CacheState<K, V>, p: nat, j: nat): CacheState<K, V>
    requires p < |s.freqToList| && j < |s.freqToList[p].nodes|
  {
    var b := s.freqToList[p];
    s.(freqToList := s.freqToList[p := b.(nodes := LinkedList.RemoveAt(b.nodes, j))])
  }

  /** The inner list's PushFront of `n` on the bucket at `p`, with the
      element it returns filed under the key of `n`. */
  ghost function Linked<K, V>(s: CacheState<K, V>, p: nat, n: Node<K, V>): CacheState<K, V>
    requires p < |s.freqToList|
  {
    var b := s.freqToList[p];
    s.(freqToList := s.freqToList[p := b.(nodes := [n] + b.nodes)], keyToElem := s.keyToElem[n.key := n])
  }

  /** A write of `v` to the value of the element at `j` of the bucket at
      `p`, an element the key index shares. */
  ghost function Rewritten<K, V>(s: CacheState<K, V>, p: nat, j: nat, v: V): CacheState<K, V>
    requires p < |s.freqToList| && j < |s.freqToList[p].nodes|
  {
    var b := s.freqToList[p];
    var n := b.nodes[j].(value := v);
    s.(freqToList := s.freqToList[p := b.(nodes := b.nodes[j := n])], keyToElem := s.keyToElem[n.key := n])
  }

  /** The first half of clearNodes: unless `f + 1` is filed, an empty bucket
      for it is inserted right after the bucket for `f`. */
  ghost function Grown<K, V>(s: CacheState<K, V>, f: int): (r: CacheState<K, V>)
    requires f in s.freqToElem && s.freqToElem[f] < |s.freqToList|
    ensures f in r.freqToElem && r.freqToElem[f] == s.freqToElem[f]
    ensures |s.freqToList| <= |r.freqToList|
  {
    if f + 1 in s.freqToElem then s
    else
      var p := s.freqToElem[f] + 1;
      s.(freqToList := LinkedList.InsertAt(s.freqToList, p, Bucket(f + 1, [])),
         freqToElem := ShiftUp(s.freqToElem, p)[f + 1 := p])
  }

  /** The second half of clearNodes: an empty bucket for `f` is removed and
      unfiled, and `minFreq` moves past `f` when it was `f`. */
  ghost function Pruned<K, V>(s: CacheState<K, V>, f: int): CacheState<K, V>
    requires f in s.freqToElem && s.freqToElem[f] < |s.freqToList|
  {
    var p := s.freqToElem[f];
    if s.freqToList[p].nodes != [] then s
    else
      s.(freqToList := LinkedList.RemoveAt(s.freqToList, p),
         freqToElem := ShiftDown(s.freqToElem - {f}, p),
         minFreq := if f == s.minFreq then s.minFreq + 1 else s.minFreq)
  }

  /** extractLatest: the back element of the bucket filed under `minFreq`
      is removed, and its key unfiled. */
  ghost function Extracted<K, V>(s: CacheState<K, V>): CacheState<K, V>
    requires s.minFreq in s.freqToElem && s.freqToElem[s.minFreq] < |s.freqToList|
    requires s.freqToList[s.freqToElem[s.minFreq]].nodes != []
  {
    var p := s.freqToElem[s.minFreq];
    var ns := s.freqToList[p].nodes;
    s.(freqToList := s.freqToList[p := s.freqToList[p].(nodes := LinkedList.RemoveAt(ns, |ns| - 1))],
       keyToElem := s.keyToElem - {ns[|ns| - 1].key})
  }

  /** The outer list's PushFront of an empty bucket filed under frequency 1. */
  ghost function FirstBucketAdded<K, V>(s: CacheState<K, V>): CacheState<K, V>
  {
    s.(freqToList := LinkedList.InsertAt(s.freqToList, 0, Bucket(1, [])),
       freqToElem := ShiftUp(s.freqToElem, 0)[1 := 0])
  }

  /** clearNodes keeps the buckets shaped and the listing as it is, leaves
      a bucket filed under `f + 1`, and raises `minFreq` exactly when the
      bucket for `f` was empty and `f` was `minFreq`. */
  lemma Cleared<K, V>(s: CacheState<K, V>, f: int)
    requires Shaped(s.freqToList, s.freqToElem) && f in s.freqToElem
    ensures s.freqToElem[f] < |s.freqToList|
    ensures var c := Pruned(Grown(s, f), f);
      && Shaped(c.freqToList, c.freqToElem) && Listing(c.freqToList) == Listing(s.freqToList)
      && f + 1 in c.freqToElem && c.freqToElem[f + 1] < |c.freqToList|
      && c.freqToList[c.freqToElem[f + 1]].freq == f + 1
      && c.keyToElem == s.keyToElem && c.capacity == s.capacity
      && c.minFreq == if s.freqToList[s.freqToElem[f]].nodes == [] && f == s.minFreq then s.minFreq + 1 else s.minFreq
  {
    var g := Grown(s, f);
    GrownShape(s, f, g);
    var c := Pruned(g, f);
    PrunedShape(g, f, c);
  }

  /** The first half of clearNodes keeps the buckets shaped and the listing
      as it was, and files `f + 1`. */
  lemma GrownShape<K, V>(s: CacheState<K, V>, f: int, g: CacheState<K, V>)
    requires Shaped(s.freqToList, s.freqToElem) && f in s.freqToElem
    requires s.freqToElem[f] < |s.freqToList| && g == Grown(s, f)
    ensures Shaped(g.freqToList, g.freqToElem) && Listing(g.freqToList) == Listing(s.freqToList)
    ensures f in g.freqToElem && f + 1 in g.freqToElem && g.freqToElem[f] < |g.freqToList|
    ensures g.freqToList[g.freqToElem[f]] == s.freqToList[s.freqToElem[f]]
    ensures g.keyToElem == s.keyToElem && g.capacity == s.capacity && g.minFreq == s.minFreq
  {
    if f + 1 !in s.freqToElem {
      GrowAbove(s.freqToList, s.freqToElem, f);
    }
  }

  /** The second half of clearNodes keeps the buckets shaped, the listing
      as it was and `f + 1` filed; `minFreq` moves up when its bucket goes. */
  lemma PrunedShape<K, V>(g: CacheState<K, V>, f: int, c: CacheState<K, V>)
    requires Shaped(g.freqToList, g.freqToElem) && f in g.freqToElem && f + 1 in g.freqToElem
    requires g.freqToElem[f] < |g.freqToList| && c == Pruned(g, f)
    ensures Shaped(c.freqToList, c.freqToElem) && Listing(c.freqToList) == Listing(g.freqToList)
    ensures f + 1 in c.freqToElem && c.freqToElem[f + 1] < |c.freqToList|
    ensures c.freqToList[c.freqToElem[f + 1]].freq == f + 1
    ensures c.keyToElem == g.keyToElem && c.capacity == g.capacity
    ensures c.minFreq == if g.freqToList[g.freqToElem[f]].nodes == [] && f == g.minFreq then g.minFreq + 1 else g.minFreq
  {
    if g.freqToList[g.freqToElem[f]].nodes == [] {
      DropEmpty(g.freqToList, g.freqToElem, f);
    }
  }

  /** PushFront onto a bucket of the entry's own frequency keeps the
      buckets shaped, admits the entry to the listing and files it. */
  lemma LinkedShape<K, V>(t: CacheState<K, V>, q: nat, n: Node<K, V>)
    requires Shaped(t.freqToList, t.freqToElem) && q < |t.freqToList| && n.freq == t.freqToList[q].freq
    ensures var r := Linked(t, q, n);
      && Shaped(r.freqToList, r.freqToElem) && Listing(r.freqToList) == Admit(Listing(t.freqToList), n)
      && r.keyToElem == t.keyToElem[n.key := n]
      && r.capacity == t.capacity && r.minFreq == t.minFreq
  {
    ShapedPushFront(t.freqToList, t.freqToElem, q, n);
  }

  /** Removing an entry from its bucket keeps the buckets well shaped and
      the handles where they were. */
  lemma UnlinkedShape<K, V>(s: CacheState<K, V>, p: nat, j: nat)
    requires Shaped(s.freqToList, s.freqToElem) && p < |s.freqToList| && j < |s.freqToList[p].nodes|
    ensures var t := Unlinked(s, p, j); Shaped(t.freqToList, t.freqToElem) && t.freqToElem == s.freqToElem
  {
    ShapedRemoveEntry(s.freqToList, s.freqToElem, p, j);
  }

  /** The bucket side of incrementFreq, for the entry `e` found at `j` of
      the bucket at `p`: `t1` after the Remove, `t2` after clearNodes on its
      frequency, `t3` after the PushFront of the entry one use more. The
      buckets stay well shaped and list the entry re-admitted one use more;
      the least frequency moves up exactly when `e` was alone at it. */
  lemma Requeued<K, V>(s: CacheState<K, V>, key: K, p: nat, j: nat, e: Node<K, V>,
                       t1: CacheState<K, V>, t2: CacheState<K, V>, t3: CacheState<K, V>)
    requires Shaped(s.freqToList, s.freqToElem) && p < |s.freqToList| && j < |s.freqToList[p].nodes|
    requires e == s.freqToList[p].nodes[j] && e.key == key
    requires t1 == Unlinked(s, p, j)
    requires e.freq in t1.freqToElem && t1.freqToElem[e.freq] == p
    requires t2 == Pruned(Grown(t1, e.freq), e.freq)
    requires e.freq + 1 in t2.freqToElem && t2.freqToElem[e.freq + 1] < |t2.freqToList|
    requires t3 == Linked(t2, t2.freqToElem[e.freq + 1], e.(freq := e.freq + 1))
    ensures var off := |Listing(s.freqToList[p + 1..])|;
      && off + j < |Listing(s.freqToList)|
      && Shaped(t3.freqToList, t3.freqToElem)
      && Listing(t3.freqToList) == Admit(LinkedList.RemoveAt(Listing(s.freqToList), off + j), e.(freq := e.freq + 1))
      && t3.keyToElem == s.keyToElem[key := e.(freq := e.freq + 1)]
      && t3.capacity == s.capacity
      && t3.minFreq == if e.freq == s.minFreq && |s.freqToList[p].nodes| == 1 then s.minFreq + 1 else s.minFreq
  {
    ShapedRemoveEntry(s.freqToList, s.freqToElem, p, j);
    assert t1.freqToList == s.freqToList[p := s.freqToList[p].(nodes := LinkedList.RemoveAt(s.freqToList[p].nodes, j))];
    Cleared(t1, e.freq);
    LinkedShape(t2, t2.freqToElem[e.freq + 1], e.(freq := e.freq + 1));
  }

  /** The order side of incrementFreq: the entry `e` of `key`, found at `j`
      of the bucket at `p`, sits at its key's position of the listing, and
      after the touch the least frequency is that of the listing's tail. */
  lemma Ranked<K, V>(s: CacheState<K, V>, key: K, p: nat, j: nat, e: Node<K, V>) returns (q: nat)
    requires Sound(s) && Found(s, key, p, j) && e == s.freqToList[p].nodes[j]
    ensures key in s.keyToElem && e == s.keyToElem[key] && e.key == key
    ensures 0 <= s.capacity && |s.keyToElem| <= s.capacity
    ensures Stored(Listing(s.freqToList), s.keyToElem)
    ensures exists i :: 0 <= i < |Listing(s.freqToList)| && Listing(s.freqToList)[i].key == key
    ensures q == Position(Listing(s.freqToList), key)
    ensures |Listing(s.freqToList[p + 1..])| + j == q && q < |Listing(s.freqToList)| && Listing(s.freqToList)[q] == e
    ensures Last(Touch(Listing(s.freqToList), q)).freq
         == if e.freq == s.minFreq && |s.freqToList[p].nodes| == 1 then s.minFreq + 1 else s.minFreq
  {
    Placed(s.freqToList, s.keyToElem, key, p, j);
    q := Promoted(s.freqToList, s.freqToElem, s.minFreq, p, j);
  }

  /** The index side of incrementFreq: the key index, with the entry `e` of
      `key` raised one use, files the touched listing. */
  lemma Refiled<K, V>(s: CacheState<K, V>, key: K, e: Node<K, V>, q: nat)
    requires Stored(Listing(s.freqToList), s.keyToElem) && key in s.keyToElem && e == s.keyToElem[key]
    requires exists i :: 0 <= i < |Listing(s.freqToList)| && Listing(s.freqToList)[i].key == key
    requires q == Position(Listing(s.freqToList), key)
    ensures Stored(Touch(Listing(s.freqToList), q), s.keyToElem[key := e.(freq := e.freq + 1)])
    ensures |s.keyToElem[key := e.(freq := e.freq + 1)]| == |Touch(Listing(s.freqToList), q)|
    ensures |s.keyToElem[key := e.(freq := e.freq + 1)]| == |s.keyToElem|
  {
    var es := Listing(s.freqToList);
    StoredRaise(es, s.keyToElem, key, e, q);
  }

  /** Using the entry `e` of `key`, at `q` of the listing, re-files it with
      its frequency raised. */
  lemma StoredRaise<K, V>(es: seq<Node<K, V>>, ke: map<K, Node<K, V>>, key: K, e: Node<K, V>, q: nat)
    requires Stored(es, ke) && key in ke && e == ke[key] && q < |es| && es[q].key == key
    ensures Stored(Touch(es, q), ke[key := e.(freq := e.freq + 1)])
    ensures |ke[key := e.(freq := e.freq + 1)]| == |Touch(es, q)|
    ensures |ke[key := e.(freq := e.freq + 1)]| == |ke|
  {
    StoredTouch(es, ke, q);
    assert es[q] == e;
  }

  /** Re-admitting the entry at `q` one use more is touching it. */
  lemma Touched<K, V>(s: CacheState<K, V>, p: nat, j: nat, q: nat, e: Node<K, V>, t: CacheState<K, V>)
    requires p < |s.freqToList|
    requires |Listing(s.freqToList[p + 1..])| + j == q && q < |Listing(s.freqToList)| && Listing(s.freqToList)[q] == e
    requires Listing(t.freqToList)
          == Admit(LinkedList.RemoveAt(Listing(s.freqToList), |Listing(s.freqToList[p + 1..])| + j), e.(freq := e.freq + 1))
    ensures Listing(t.freqToList) == Touch(Listing(s.freqToList), q)
  {
  }

  /** The cache after incrementFreq is sound: well shaped, filed by its key
      index within capacity, its least frequency that of the tail. */
  lemma SoundOf<K, V>(s: CacheState<K, V>, key: K, p: nat, q: nat, e: Node<K, V>, t: CacheState<K, V>)
    requires p < |s.freqToList| && q < |Listing(s.freqToList)|
    requires Shaped(t.freqToList, t.freqToElem) && Listing(t.freqToList) == Touch(Listing(s.freqToList), q)
    requires t.keyToElem == s.keyToElem[key := e.(freq := e.freq + 1)]
    requires Stored(Touch(Listing(s.freqToList), q), s.keyToElem[key := e.(freq := e.freq + 1)])
    requires |s.keyToElem[key := e.(freq := e.freq + 1)]| == |Touch(Listing(s.freqToList), q)|
    requires |s.keyToElem[key := e.(freq := e.freq + 1)]| == |s.keyToElem|
    requires 0 <= s.capacity && |s.keyToElem| <= s.capacity && t.capacity == s.capacity
    requires Last(Touch(Listing(s.freqToList), q)).freq
          == if e.freq == s.minFreq && |s.freqToList[p].nodes| == 1 then s.minFreq + 1 else s.minFreq
    requires t.minFreq == if e.freq == s.minFreq && |s.freqToList[p].nodes| == 1 then s.minFreq + 1 else s.minFreq
    ensures Sound(t)
  {
  }

  /** incrementFreq as a whole, through the states `t1`, `t2` and `t3` it
      passes (see Requeued): the cache stays sound, its listing becomes the
      touched listing, and its key index files the raised entry. */
  lemma Incremented<K, V>(s: CacheState<K, V>, key: K, p: nat, j: nat, e: Node<K, V>,
                          t1: CacheState<K, V>, t2: CacheState<K, V>, t3: CacheState<K, V>)
    requires Sound(s) && Found(s, key, p, j) && e == s.freqToList[p].nodes[j]
    requires t1 == Unlinked(s, p, j)
    requires e.freq in t1.freqToElem && t1.freqToElem[e.freq] == p
    requires t2 == Pruned(Grown(t1, e.freq), e.freq)
    requires e.freq + 1 in t2.freqToElem && t2.freqToElem[e.freq + 1] < |t2.freqToList|
    requires t3 == Linked(t2, t2.freqToElem[e.freq + 1], e.(freq := e.freq + 1))
    ensures key in s.keyToElem && e == s.keyToElem[key]
    ensures exists i :: 0 <= i < |Listing(s.freqToList)| && Listing(s.freqToList)[i].key == key
    ensures var q := Position(Listing(s.freqToList), key);
      && Sound(t3)
      && Listing(t3.freqToList) == Touch(Listing(s.freqToList), q)
      && t3.keyToElem == s.keyToElem[key := e.(freq := e.freq + 1)]
      && t3.capacity == s.capacity
  {
    var q := Ranked(s, key, p, j, e);
    Refiled(s, key, e, q);
    Requeued(s, key, p, j, e, t1, t2, t3);
    Touched(s, p, j, q, e, t3);
    SoundOf(s, key, p, q, e, t3);
  }

  /** The bucket side of a value write: the buckets stay shaped and the
      listing changes at the written entry's place only. */
  lemma Revalued<K, V>(s: CacheState<K, V>, key: K, p: nat, j: nat, v: V, q: nat, c: CacheState<K, V>)
    requires Shaped(s.freqToList, s.freqToElem) && p < |s.freqToList| && j < |s.freqToList[p].nodes|
    requires s.freqToList[p].nodes[j].key == key
    requires q == |Listing(s.freqToList[p + 1..])| + j
    requires c == Rewritten(s, p, j, v)
    ensures q < |Listing(s.freqToList)| && Listing(s.freqToList)[q] == s.freqToList[p].nodes[j]
    ensures Shaped(c.freqToList, c.freqToElem)
    ensures Listing(c.freqToList) == Listing(s.freqToList)[q := Listing(s.freqToList)[q].(value := v)]
    ensures c.keyToElem == s.keyToElem[key := Listing(s.freqToList)[q].(value := v)]
    ensures c.freqToElem == s.freqToElem && c.capacity == s.capacity && c.minFreq == s.minFreq
  {
    ShapedSetEntry(s.freqToList, s.freqToElem, p, j, s.freqToList[p].nodes[j].(value := v));
  }

  /** The index side of a value write: the key index still files exactly
      the listed entries. */
  lemma Restored<K, V>(s: CacheState<K, V>, key: K, q: nat, v: V, c: CacheState<K, V>)
    requires Stored(Listing(s.freqToList), s.keyToElem)
    requires q < |Listing(s.freqToList)| && Listing(s.freqToList)[q].key == key
    requires Listing(c.freqToList) == Listing(s.freqToList)[q := Listing(s.freqToList)[q].(value := v)]
    requires c.keyToElem == s.keyToElem[key := Listing(s.freqToList)[q].(value := v)]
    ensures Stored(Listing(c.freqToList), c.keyToElem) && |c.keyToElem| == |Listing(c.freqToList)|
  {
    StoredSet(Listing(s.freqToList), s.keyToElem, q, v);
    StoredCount(Listing(c.freqToList), c.keyToElem);
  }

  /** A value write keeps the cache sound and the key where it was. */
  lemma Resettled<K, V>(s: CacheState<K, V>, key: K, p: nat, j: nat, v: V, q: nat, c: CacheState<K, V>)
    requires Found(s, key, p, j) && 0 <= s.capacity && |s.keyToElem| <= s.capacity
    requires exists i :: 0 <= i < |Listing(s.freqToList)| && Listing(s.freqToList)[i].key == key
    requires q == Position(Listing(s.freqToList), key)
    requires |Listing(s.freqToList)| > 0 ==> Last(Listing(s.freqToList)).freq == s.minFreq
    requires c == Rewritten(s, p, j, v)
    requires q < |Listing(s.freqToList)| && Listing(s.freqToList)[q] == s.freqToList[p].nodes[j]
    requires Shaped(c.freqToList, c.freqToElem)
    requires Listing(c.freqToList) == Listing(s.freqToList)[q := Listing(s.freqToList)[q].(value := v)]
    requires c.keyToElem == s.keyToElem[key := Listing(s.freqToList)[q].(value := v)]
    requires c.freqToElem == s.freqToElem && c.capacity == s.capacity && c.minFreq == s.minFreq
    requires Stored(Listing(c.freqToList), c.keyToElem) && |c.keyToElem| == |Listing(c.freqToList)|
    ensures Sound(c) && Found(c, key, p, j)
    ensures exists i :: 0 <= i < |Listing(c.freqToList)| && Listing(c.freqToList)[i].key == key
    ensures Position(Listing(c.freqToList), key) == q
  {
    PositionKept(s, c, key, q, v);
    FoundKept(s, key, p, j, v, c);
  }

  /** Rewriting the value at the key's position keeps the key there and the
      frequency of the last entry. */
  lemma PositionKept<K, V>(s: CacheState<K, V>, c: CacheState<K, V>, key: K, q: nat, v: V)
    requires exists i :: 0 <= i < |Listing(s.freqToList)| && Listing(s.freqToList)[i].key == key
    requires q == Position(Listing(s.freqToList), key)
    requires Listing(c.freqToList) == Listing(s.freqToList)[q := Listing(s.freqToList)[q].(value := v)]
    ensures |Listing(c.freqToList)| == |Listing(s.freqToList)| > 0
    ensures Last(Listing(c.freqToList)).freq == Last(Listing(s.freqToList)).freq
    ensures exists i :: 0 <= i < |Listing(c.freqToList)| && Listing(c.freqToList)[i].key == key
    ensures Position(Listing(c.freqToList), key) == q
  {
    var e := Listing(s.freqToList);
    var d := Listing(c.freqToList);
    assert |d| == |e| && d[q].key == key;
    assert d[|d| - 1].freq == e[|e| - 1].freq;
    forall i | 0 <= i < q
      ensures d[i].key != key
    {
      assert d[i] == e[i];
    }
  }

  /** Rewriting the value of the entry found at `j` of the bucket at `p`
      leaves it found there. */
  lemma FoundKept<K, V>(s: CacheState<K, V>, key: K, p: nat, j: nat, v: V, c: CacheState<K, V>)
    requires Found(s, key, p, j) && c == Rewritten(s, p, j, v)
    ensures Found(c, key, p, j) && c.freqToElem == s.freqToElem
  {
  }

  /** The value of the entry of `key`, found at `j` of the bucket at `p`,
      rewritten in place: the cache stays sound, the listing changes at the
      key's position only, and the key is found where it was. */
  lemma Rewrote<K, V>(s: CacheState<K, V>, key: K, p: nat, j: nat, v: V)
    requires Sound(s) && Found(s, key, p, j)
    ensures var e := Listing(s.freqToList); var q := Position(e, key);
      var c := Rewritten(s, p, j, v);
      && Sound(c) && Found(c, key, p, j)
      && Listing(c.freqToList) == e[q := e[q].(value := v)]
      && Position(Listing(c.freqToList), key) == q
  {
    var q := Ranked(s, key, p, j, s.freqToList[p].nodes[j]);
    var c := Rewritten(s, p, j, v);
    Revalued(s, key, p, j, v, q, c);
    Restored(s, key, q, v, c);
    Resettled(s, key, p, j, v, q, c);
  }

  /** Eviction from a sound, non-empty cache: the bucket filed under
      `minFreq` holds entries, and removing its back entry drops the
      listing's last entry and unfiles its key. */
  lemma Evicted<K, V>(s: CacheState<K, V>)
    requires Sound(s) && |s.keyToElem| > 0
    ensures s.minFreq in s.freqToElem && s.freqToElem[s.minFreq] < |s.freqToList|
    ensures s.freqToList[s.freqToElem[s.minFreq]].nodes != []
    ensures var e := Listing(s.freqToList); var c := Extracted(s);
      && |e| > 0 && Consistent(c) && Listing(c.freqToList) == e[..|e| - 1]
      && c.keyToElem == s.keyToElem - {Last(e).key}
      && |c.keyToElem| == |s.keyToElem| - 1
      && c.capacity == s.capacity
  {
    var p := Least(s);
    var c := Extracted(s);
    Dropped(s, p, c);
    Unfiled(s, c);
  }

  /** The bucket at `p`, filed under `minFreq`, ends the listing. */
  lemma Least<K, V>(s: CacheState<K, V>) returns (p: nat)
    requires Sound(s) && |s.keyToElem| > 0
    ensures 0 <= s.capacity && |s.keyToElem| == |Listing(s.freqToList)| <= s.capacity
    ensures |Listing(s.freqToList)| > 0 && Stored(Listing(s.freqToList), s.keyToElem)
    ensures Shaped(s.freqToList, s.freqToElem)
    ensures s.minFreq in s.freqToElem && p == s.freqToElem[s.minFreq] && p < |s.freqToList|
    ensures |s.freqToList[p].nodes| > 0
    ensures s.freqToList[p].nodes[|s.freqToList[p].nodes| - 1] == Last(Listing(s.freqToList))
    ensures |Listing(s.freqToList[p + 1..])| + |s.freqToList[p].nodes| == |Listing(s.freqToList)|
  {
    p := LeastBucket(s.freqToList, s.freqToElem, s.minFreq);
  }

  /** The bucket side of eviction: the listing loses its last entry. */
  lemma Dropped<K, V>(s: CacheState<K, V>, p: nat, c: CacheState<K, V>)
    requires Shaped(s.freqToList, s.freqToElem) && |Listing(s.freqToList)| > 0
    requires s.minFreq in s.freqToElem && p == s.freqToElem[s.minFreq] && p < |s.freqToList|
    requires |s.freqToList[p].nodes| > 0
    requires s.freqToList[p].nodes[|s.freqToList[p].nodes| - 1] == Last(Listing(s.freqToList))
    requires |Listing(s.freqToList[p + 1..])| + |s.freqToList[p].nodes| == |Listing(s.freqToList)|
    requires c == Extracted(s)
    ensures Shaped(c.freqToList, c.freqToElem)
    ensures Listing(c.freqToList) == Listing(s.freqToList)[..|Listing(s.freqToList)| - 1]
    ensures c.keyToElem == s.keyToElem - {Last(Listing(s.freqToList)).key} && c.capacity == s.capacity
  {
    var e := Listing(s.freqToList);
    var k := |s.freqToList[p].nodes| - 1;
    ShapedRemoveEntry(s.freqToList, s.freqToElem, p, k);
    LinkedList.RemoveLast(e);
  }

  /** The index side of eviction: the evicted key is no longer filed. */
  lemma Unfiled<K, V>(s: CacheState<K, V>, c: CacheState<K, V>)
    requires Stored(Listing(s.freqToList), s.keyToElem) && |Listing(s.freqToList)| > 0
    requires Listing(c.freqToList) == Listing(s.freqToList)[..|Listing(s.freqToList)| - 1]
    requires c.keyToElem == s.keyToElem - {Last(Listing(s.freqToList)).key}
    ensures Stored(Listing(c.freqToList), c.keyToElem) && |c.keyToElem| == |Listing(c.freqToList)|
  {
    StoredEvict(Listing(s.freqToList), s.keyToElem);
    StoredCount(Listing(c.freqToList), c.keyToElem);
  }

  /** Admission of a new key into a consistent cache with room: with
      `minFreq` at 1 and a bucket filed under 1 (made first when missing),
      pushing the entry onto that bucket leaves a sound cache whose listing
      admits the entry. */
  lemma Admitted<K, V>(s: CacheState<K, V>, n: Node<K, V>)
    requires Consistent(s) && n.key !in s.keyToElem && |s.keyToElem| < s.capacity && n.freq == 1
    ensures var s1 := s.(minFreq := 1);
      var s2 := if 1 in s1.freqToElem then s1 else FirstBucketAdded(s1);
      && 1 in s2.freqToElem && s2.freqToElem[1] < |s2.freqToList|
      && var c := Linked(s2, s2.freqToElem[1], n);
      && Sound(c) && Listing(c.freqToList) == Admit(Listing(s.freqToList), n)
      && c.capacity == s.capacity
  {
    var s1 := s.(minFreq := 1);
    var s2 := if 1 in s1.freqToElem then s1 else FirstBucketAdded(s1);
    Opened(s, s2);
    var c := Linked(s2, s2.freqToElem[1], n);
    LinkedShape(s2, s2.freqToElem[1], n);
    Enrolled(s, n, c);
  }

  /** The bucket for frequency 1 is filed, made first if it was missing;
      the listing is untouched. */
  lemma Opened<K, V>(s: CacheState<K, V>, s2: CacheState<K, V>)
    requires Shaped(s.freqToList, s.freqToElem)
    requires s2 == if 1 in s.freqToElem then s.(minFreq := 1) else FirstBucketAdded(s.(minFreq := 1))
    ensures 1 in s2.freqToElem && s2.freqToElem[1] < |s2.freqToList|
    ensures s2.freqToList[s2.freqToElem[1]].freq == 1
    ensures Shaped(s2.freqToList, s2.freqToElem) && Listing(s2.freqToList) == Listing(s.freqToList)
    ensures s2.keyToElem == s.keyToElem && s2.capacity == s.capacity && s2.minFreq == 1
  {
    if 1 !in s.freqToElem {
      assert 0 < |s.freqToList| ==> s.freqToList[0].freq in s.freqToElem;
      ShapedInsert(s.freqToList, s.freqToElem, 0, 1);
    }
  }

  /** A new entry of frequency 1 admitted and filed: the cache is sound
      with 1 as its least frequency. */
  lemma Enrolled<K, V>(s: CacheState<K, V>, n: Node<K, V>, c: CacheState<K, V>)
    requires Shaped(s.freqToList, s.freqToElem) && Stored(Listing(s.freqToList), s.keyToElem)
    requires n.key !in s.keyToElem && n.freq == 1
    requires |s.keyToElem| == |Listing(s.freqToList)| && |s.keyToElem| < s.capacity
    requires Shaped(c.freqToList, c.freqToElem) && Listing(c.freqToList) == Admit(Listing(s.freqToList), n)
    requires c.keyToElem == s.keyToElem[n.key := n] && c.capacity == s.capacity && c.minFreq == 1
    ensures Sound(c)
  {
    ListingPositive(s.freqToList);
    ListingDescending(s.freqToList);
    AdmitLeast(Listing(s.freqToList), n);
    StoredAdmit(Listing(s.freqToList), s.keyToElem, n);
    StoredCount(Listing(c.freqToList), c.keyToElem);
  }

  /** `Pairs` grows by one pair as the next entry of a bucket is appended
      behind the entries already listed. */
  lemma PairsAppend<K, V>(done: seq<Node<K, V>>, ns: seq<Node<K, V>>, j: nat)
    requires j < |ns|
    ensures Pairs(done + ns[..j + 1]) == Pairs(done + ns[..j]) + [(ns[j].key, ns[j].value)]
  {
    assert done + ns[..j + 1] == done + ns[..j] + [ns[j]];
    assert (done + ns[..j + 1])[..|done + ns[..j]|] == done + ns[..j];
  }

  class Cache<K(==), V> {
    /** The buckets, by ascending frequency. */
    var freqToList: seq<Bucket<K, V>>
    /** Frequency to the position of its bucket. */
    var freqToElem: map<int, nat>
    /** Key to its entry. */
    var keyToElem: map<K, Node<K, V>>
    var capacity: int
    /** The frequency of the next entry to evict. */
    var minFreq: int

    ghost function State(): CacheState<K, V>
      reads this
    {
      CacheState(freqToList, freqToElem, keyToElem, capacity, minFreq)
    }

    /** The entries in the order `All` yields them. */
    ghost function Entries(): seq<Node<K, V>>
      reads this
    {
      Listing(freqToList)
    }

    ghost predicate Valid()
      reads this
    {
      Sound(State())
    }

    /** A cache of the first given capacity, or of `DefaultCapacity` when
        none is given. A negative capacity is refused. */
    constructor New(capacity: seq<int>)
      requires |capacity| > 0 ==> 0 <= capacity[0]
      ensures Valid() && Entries() == [] && keyToElem == map[]
      ensures this.capacity == if |capacity| > 0 then capacity[0] else DefaultCapacity
      ensures minFreq == 0
    {
      var cap := DefaultCapacity;
      if |capacity| > 0 {
        cap := capacity[0];
      }
      freqToList, freqToElem, keyToElem := [], map[], map[];
      this.capacity := cap;
      minFreq := 0;
    }

    /** Where the element of `key` sits: the bucket filed under its
        frequency, and its place there. */
    function Locate(key: K): (r: (nat, nat))
      requires Valid() && key in keyToElem
      reads this
      ensures Found(State(), key, r.0, r.1)
    {
      Filed(freqToList, freqToElem, keyToElem, key);
      var p := freqToElem[keyToElem[key].freq];
      var j := Position(freqToList[p].nodes, key);
      Placed(freqToList, keyToElem, key, p, j);
      (p, j)
    }

    /** The inner list's Remove on the bucket at `p`. */
    method BucketRemove(p: nat, j: nat) returns (x: Node<K, V>)
      requires p < |freqToList| && j < |freqToList[p].nodes|
      modifies this
      ensures x == old(freqToList[p].nodes[j])
      ensures State() == Unlinked(old(State()), p, j)
    {
      var b := freqToList[p];
      x := b.nodes[j];
      freqToList := freqToList[p := b.(nodes := LinkedList.RemoveAt(b.nodes, j))];
    }

    /** The inner list's PushFront on the bucket at `p`, the element it
        returns filed under the key of `n`. */
    method BucketPushFront(p: nat, n: Node<K, V>)
      requires p < |freqToList|
      modifies this
      ensures State() == Linked(old(State()), p, n)
    {
      var b := freqToList[p];
      freqToList, keyToElem := freqToList[p := b.(nodes := [n] + b.nodes)], keyToElem[n.key := n];
    }

    /** A write to the value of the element at `j` of the bucket at `p`. */
    method BucketSetValue(p: nat, j: nat, v: V)
      requires p < |freqToList| && j < |freqToList[p].nodes|
      modifies this
      ensures State() == Rewritten(old(State()), p, j, v)
    {
      var b := freqToList[p];
      var n := b.nodes[j].(value := v);
      freqToList, keyToElem := freqToList[p := b.(nodes := b.nodes[j := n])], keyToElem[n.key := n];
    }

    /** The first half of clearNodes. */
    method AddNextBucket(frequency: int)
      requires frequency in freqToElem && freqToElem[frequency] < |freqToList|
      modifies this
      ensures State() == Grown(old(State()), frequency)
    {
      if frequency + 1 !in freqToElem {
        var p := freqToElem[frequency] + 1;
        freqToList, freqToElem :=
          LinkedList.InsertAt(freqToList, p, Bucket(frequency + 1, [])),
          ShiftUp(freqToElem, p)[frequency + 1 := p];
      }
    }

    /** The second half of clearNodes. */
    method DropIfEmpty(frequency: int)
      requires frequency in freqToElem && freqToElem[frequency] < |freqToList|
      modifies this
      ensures State() == Pruned(old(State()), frequency)
    {
      var p := freqToElem[frequency];
      if freqToList[p].nodes == [] {
        var m := if frequency == minFreq then minFreq + 1 else minFreq;
        freqToList, freqToElem, minFreq :=
          LinkedList.RemoveAt(freqToList, p), ShiftDown(freqToElem - {frequency}, p), m;
      }
    }

    /** Once an entry of frequency `frequency` has left its bucket: a bucket
        for the next frequency exists, and the bucket it left is dropped if
        it is empty. */
    method ClearNodes(frequency: int)
      requires frequency in freqToElem && freqToElem[frequency] < |freqToList|
      modifies this
      ensures State() == Pruned(Grown(old(State()), frequency), frequency)
    {
      AddNextBucket(frequency);
      DropIfEmpty(frequency);
    }

    /** A use of the entry of `key`: it moves to the front of the bucket of
        the next frequency. */
    method IncrementFreq(key: K)
      requires Valid() && key in keyToElem
      modifies this
      ensures Valid()
      ensures Entries() == Touch(old(Entries()), old(Position(Entries(), key)))
      ensures key in keyToElem && keyToElem[key] == old(keyToElem[key]).(freq := old(keyToElem[key].freq) + 1)
      ensures keyToElem == old(keyToElem)[key := keyToElem[key]]
      ensures capacity == old(capacity)
    {
      ghost var s := State();
      var (p, j) := Locate(key);
      UnlinkedShape(s, p, j);
      var elem := BucketRemove(p, j);
      ghost var t1 := State();
      ClearNodes(elem.freq);
      ghost var t2 := State();
      Cleared(t1, elem.freq);
      BucketPushFront(freqToElem[elem.freq + 1], elem.(freq := elem.freq + 1));
      ghost var t3 := State();
      Incremented(s, key, p, j, elem, t1, t2, t3);
      assert Entries() == Listing(t3.freqToList);
      assert old(Entries()) == Listing(s.freqToList);
    }

    /** The value of `key`, counting a use of it; `KeyNotFound` when it is not
        cached. */
    method Get(key: K) returns (r: Result<V>)
      requires Valid()
      modifies this
      ensures Valid()
      ensures key !in old(keyToElem) ==> r == Err(KeyNotFound) && unchanged(this)
      ensures key in old(keyToElem) ==>
        && r == Ok(old(keyToElem[key].value))
        && Entries() == Touch(old(Entries()), old(Position(Entries(), key)))
        && key in keyToElem && keyToElem[key] == old(keyToElem[key]).(freq := old(keyToElem[key].freq) + 1)
        && keyToElem == old(keyToElem)[key := keyToElem[key]]
      ensures capacity == old(capacity)
    {
      if key !in keyToElem {
        return Err(KeyNotFound);
      }
      IncrementFreq(key);
      r := Ok(keyToElem[key].value);
    }

    /** Evicts the back entry of the bucket filed under `minFreq`. */
    method ExtractLatest()
      requires minFreq in freqToElem && freqToElem[minFreq] < |freqToList|
      requires freqToList[freqToElem[minFreq]].nodes != []
      modifies this
      ensures State() == Extracted(old(State()))
    {
      var p := freqToElem[minFreq];
      var ns := freqToList[p].nodes;
      var elem := ns[|ns| - 1];
      freqToList, keyToElem :=
        freqToList[p := freqToList[p].(nodes := LinkedList.RemoveAt(ns, |ns| - 1))], keyToElem - {elem.key};
    }

    /** The outer list's PushFront of an empty bucket for frequency 1. */
    method AddFirstBucket()
      modifies this
      ensures State() == FirstBucketAdded(old(State()))
    {
      freqToList, freqToElem :=
        LinkedList.InsertAt(freqToList, 0, Bucket(1, [])), ShiftUp(freqToElem, 0)[1 := 0];
    }

    /** Stores `value` under `key`. A cached key gets the value and a use;
        a new key, after an eviction when the cache is full, enters with
        frequency 1. A cache of capacity 0 stores nothing. */
    method Put(key: K, value: V)
      requires Valid()
      modifies this
      ensures Valid() && capacity == old(capacity)
      ensures old(capacity) == 0 ==> unchanged(this)
      ensures old(capacity) > 0 && key in old(keyToElem) ==>
        var q := old(Position(Entries(), key));
        Entries() == Touch(old(Entries())[q := old(Entries())[q].(value := value)], q)
      ensures old(capacity) > 0 && key !in old(keyToElem) ==>
        var e := old(Entries());
        var kept := if |e| == old(capacity) then e[..|e| - 1] else e;
        Entries() == Admit(kept, Node(key, value, 1))
    {
      if capacity == 0 {
        return;
      }
      if key in keyToElem {
        PutExisting(key, value);
      } else {
        PutAbsent(key, value);
      }
    }

    /** Put of a key not cached: when the cache is full the entry eviction
        takes goes first, then the key enters. */
    method PutAbsent(key: K, value: V)
      requires Valid() && capacity > 0 && key !in keyToElem
      modifies this
      ensures Valid() && capacity == old(capacity)
      ensures var e := old(Entries());
        var kept := if |e| == old(capacity) then e[..|e| - 1] else e;
        Entries() == Admit(kept, Node(key, value, 1))
    {
      ghost var e := Entries();
      if |keyToElem| == capacity {
        ghost var s := State();
        Evicted(s);
        ExtractLatest();
        assert State() == Extracted(s);
        assert Entries() == e[..|e| - 1];
      }
      assert Consistent(State()) && key !in keyToElem && |keyToElem| < capacity;
      PutNew(key, value);
    }

    /** Put of a cached key: the value is written in place, then the entry
        is used. */
    method PutExisting(key: K, value: V)
      requires Valid() && key in keyToElem
      modifies this
      ensures Valid() && capacity == old(capacity)
      ensures var q := old(Position(Entries(), key));
        Entries() == Touch(old(Entries())[q := old(Entries())[q].(value := value)], q)
    {
      var (p, j) := Locate(key);
      Rewrote(State(), key, p, j, value);
      BucketSetValue(p, j, value);
      IncrementFreq(key);
    }

    /** Put of a new key once there is room: `minFreq` becomes 1 and the
        entry enters the bucket for frequency 1, made first if missing. */
    method PutNew(key: K, value: V)
      requires Consistent(State()) && key !in keyToElem && |keyToElem| < capacity
      modifies this
      ensures Valid() && capacity == old(capacity)
      ensures Entries() == Admit(old(Entries()), Node(key, value, 1))
    {
      Admitted(State(), Node(key, value, 1));
      minFreq := 1;
      var n := Node(key, value, minFreq);
      if minFreq !in freqToElem {
        AddFirstBucket();
      }
      BucketPushFront(freqToElem[minFreq], n);
    }

    /** Every entry with its value, by descending frequency and, within a
        frequency, the most recently used first. */
    method All() returns (pairs: seq<(K, V)>)
      ensures pairs == Pairs(Entries())
    {
      var bs := freqToList;
      pairs := [];
      var i := |bs|;
      while i > 0
        invariant 0 <= i <= |bs|
        invariant pairs == Pairs(Listing(bs[i..]))
      {
        i := i - 1;
        var ns := bs[i].nodes;
        ghost var done := Listing(bs[i + 1..]);
        var j := 0;
        while j < |ns|
          invariant 0 <= j <= |ns|
          invariant pairs == Pairs(done + ns[..j])
        {
          PairsAppend(done, ns, j);
          pairs := pairs + [(ns[j].key, ns[j].value)];
          j := j + 1;
        }
        assert ns[..j] == ns;
        ListingFrom(bs, i);
      }
    }

    /** What `All` yields from a valid cache: every cached key once, with
        its value, `Size()` pairs in all, in descending frequency. */
    lemma AllYields(pairs: seq<(K, V)>)
      requires Valid() && pairs == Pairs(Entries())
      ensures |pairs| == Size()
      ensures forall i :: 0 <= i < |pairs| ==>
                pairs[i].0 in keyToElem && keyToElem[pairs[i].0].value == pairs[i].1
      ensures forall key :: key in keyToElem ==>
                exists i :: 0 <= i < |pairs| && pairs[i] == (key, keyToElem[key].value)
      ensures forall i, j :: 0 <= i < j < |pairs| ==> pairs[i].0 != pairs[j].0
      ensures forall i, j :: 0 <= i < j < |pairs| ==>
                keyToElem[pairs[i].0].freq >= keyToElem[pairs[j].0].freq
    {
      ListingDescending(freqToList);
      PairsOfStored(Entries(), keyToElem);
    }

    /** `minFreq` is the least frequency of a cached key, and some cached
        key has it. */
    lemma MinFreqLeast(key: K)
      requires Valid() && key in keyToElem
      ensures minFreq <= keyToElem[key].freq
      ensures exists k :: k in keyToElem && keyToElem[k].freq == minFreq
    {
      var e := Entries();
      var i := StoredAt(e, keyToElem, key);
      ListingDescending(freqToList);
      LastIsLeast(e);
      StoredIndex(e, keyToElem, |e| - 1);
      assert keyToElem[e[|e| - 1].key].freq == minFreq;
    }

    /** The number of cached entries. */
    function Size(): (n: int)
      reads this
      ensures Valid() ==> n == |Entries()|
    {
      |keyToElem|
    }

    /** The capacity, which the size of a valid cache never exceeds. */
    function Capacity(): (c: int)
      reads this
      ensures Valid() ==> Size() <= c
    {
      capacity
    }

    /** The frequency of `key`, or -1 and `KeyNotFound` when it is not
        cached. Not a use of the entry. */
    function GetKeyFrequency(key: K): (r: (int, Option<Error>))
      reads this
      ensures Valid() && key in keyToElem ==> r == (Entries()[Position(Entries(), key)].freq, None)
      ensures key !in keyToElem ==> r == (-1, Some(KeyNotFound))
    {
      if key in keyToElem then (keyToElem[key].freq, None) else (-1, Some(KeyNotFound))
    }
  }
}
