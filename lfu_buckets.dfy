/**
 The cache's frequency buckets: a list of buckets in ascending frequency,
 each holding the entries of that frequency with the most recently used
 first, and the index `freqToElem` from a frequency to its bucket.

 A bucket handle of the source is an element of the outer list; here it is
 the bucket's position in `bs`, so inserting or removing a bucket re-aims
 the handles behind it (`ShiftUp`, `ShiftDown`).

 `Listing(bs)` reads the buckets from the highest frequency down, each from
 its front: the order the cache's `All` yields, and the order that the
 reference definitions of module LfuOrder speak about.
 */
module LfuBuckets {
  import LinkedList
  import opened LfuOrder

  /** A bucket: the frequency `freqToElem` files it under, and its entries. */
  datatype Bucket<K, V> = Bucket(freq: int, nodes: seq<Node<K, V>>)

  /** The entries of `bs`, highest-frequency bucket first. */
  ghost function Listing<K, V>(bs: seq<Bucket<K, V>>): seq<Node<K, V>>
  {
    if bs == [] then [] else Listing(bs[1..]) + bs[0].nodes
  }

  /** Bucket frequencies are positive and each is below the next. */
  ghost predicate Ascending<K, V>(bs: seq<Bucket<K, V>>)
  {
    bs == [] || (1 <= bs[0].freq && (|bs| > 1 ==> bs[0].freq < bs[1].freq) && Ascending(bs[1..]))
  }

  /** Bucket frequencies are positive and strictly ascending, pair by pair. */
  ghost predicate Increasing<K, V>(bs: seq<Bucket<K, V>>)
  {
    && (forall i :: 0 <= i < |bs| ==> 1 <= bs[i].freq)
    && (forall i, j :: 0 <= i < j < |bs| ==> bs[i].freq < bs[j].freq)
  }

  /** Every entry of `b` has the bucket's frequency. */
  ghost predicate Settled<K, V>(b: Bucket<K, V>)
  {
    forall j :: 0 <= j < |b.nodes| ==> b.nodes[j].freq == b.freq
  }

  /** Every entry's frequency is its bucket's, bucket after bucket. */
  ghost predicate Uniform<K, V>(bs: seq<Bucket<K, V>>)
  {
    bs == [] || (Settled(bs[0]) && Uniform(bs[1..]))
  }

  /** Every entry's frequency is its bucket's, bucket by bucket. */
  ghost predicate AllSettled<K, V>(bs: seq<Bucket<K, V>>)
  {
    forall i :: 0 <= i < |bs| ==> Settled(bs[i])
  }

  /** `fe` files every bucket under its frequency and nothing else. */
  ghost predicate Indexed<K, V>(bs: seq<Bucket<K, V>>, fe: map<int, nat>)
  {
    && (forall f :: f in fe ==> fe[f] < |bs| && bs[fe[f]].freq == f)
    && (forall i :: 0 <= i < |bs| ==> bs[i].freq in fe)
  }

  ghost predicate Shaped<K, V>(bs: seq<Bucket<K, V>>, fe: map<int, nat>)
  {
    Ascending(bs) && Uniform(bs) && Indexed(bs, fe)
  }

  /** Handles after a bucket is inserted at position `p`. */
  function ShiftUp(fe: map<int, nat>, p: nat): (r: map<int, nat>)
    ensures r.Keys == fe.Keys
  {
    map f | f in fe :: if fe[f] >= p then fe[f] + 1 else fe[f]
  }

  /** Handles after the bucket at position `p` is removed. */
  function ShiftDown(fe: map<int, nat>, p: nat): (r: map<int, nat>)
    ensures r.Keys == fe.Keys
  {
    map f | f in fe :: if fe[f] > p then fe[f] - 1 else fe[f]
  }

  lemma {:induction false} AscendingIncreasing<K, V>(bs: seq<Bucket<K, V>>)
    requires Ascending(bs)
    ensures Increasing(bs)
  {
    if bs != [] {
      var rest := bs[1..];
      AscendingIncreasing(rest);
      forall i, j | 0 <= i < j < |bs|
        ensures bs[i].freq < bs[j].freq
      {
        if i > 0 {
          assert bs[i] == rest[i - 1] && bs[j] == rest[j - 1];
        } else if j > 1 {
          assert bs[1] == rest[0] && bs[j] == rest[j - 1];
        }
      }
    }
  }

  lemma {:induction false} IncreasingAscending<K, V>(bs: seq<Bucket<K, V>>)
    requires Increasing(bs)
    ensures Ascending(bs)
  {
    if bs != [] {
      var rest := bs[1..];
      assert Increasing(rest) by {
        forall i, j | 0 <= i < j < |rest|
          ensures rest[i].freq < rest[j].freq
        {
          assert rest[i] == bs[i + 1] && rest[j] == bs[j + 1];
        }
      }
      IncreasingAscending(rest);
    }
  }

  lemma {:induction false} UniformSettled<K, V>(bs: seq<Bucket<K, V>>)
    requires Uniform(bs)
    ensures AllSettled(bs)
  {
    if bs != [] {
      UniformSettled(bs[1..]);
      assert forall i :: 1 <= i < |bs| ==> bs[i] == bs[1..][i - 1];
    }
  }

  lemma {:induction false} SettledUniform<K, V>(bs: seq<Bucket<K, V>>)
    requires AllSettled(bs)
    ensures Uniform(bs)
  {
    if bs != [] {
      assert AllSettled(bs[1..]) by {
        assert forall i :: 0 <= i < |bs| - 1 ==> bs[1..][i] == bs[i + 1];
      }
      SettledUniform(bs[1..]);
    }
  }

  lemma {:induction false} ListingAppend<K, V>(a: seq<Bucket<K, V>>, b: seq<Bucket<K, V>>)
    ensures Listing(a + b) == Listing(b) + Listing(a)
  {
    if a == [] {
      assert a + b == b;
    } else {
      assert (a + b)[1..] == a[1..] + b;
      ListingAppend(a[1..], b);
    }
  }

  /** The listing of `bs` around the bucket at `p`: the buckets above it, its
      entries, the buckets below it. */
  lemma {:induction false} ListingSplit<K, V>(bs: seq<Bucket<K, V>>, p: nat)
    requires p < |bs|
    ensures Listing(bs) == Listing(bs[p + 1..]) + bs[p].nodes + Listing(bs[..p])
  {
    assert bs == bs[..p] + ([bs[p]] + bs[p + 1..]);
    ListingAppend(bs[..p], [bs[p]] + bs[p + 1..]);
    ListingAppend([bs[p]], bs[p + 1..]);
    assert Listing([bs[p]]) == bs[p].nodes by {
      assert [bs[p]][1..] == [];
    }
  }

  /** Every listed entry is an entry of some bucket. */
  lemma {:induction false} ListingMember<K, V>(bs: seq<Bucket<K, V>>, j: nat) returns (i: nat, k: nat)
    requires j < |Listing(bs)|
    ensures i < |bs| && k < |bs[i].nodes| && bs[i].nodes[k] == Listing(bs)[j]
  {
    var rest := Listing(bs[1..]);
    if j < |rest| {
      var i', k' := ListingMember(bs[1..], j);
      i, k := i' + 1, k';
    } else {
      i, k := 0, j - |rest|;
    }
  }

  /** Frequency bounds of the buckets bound the listed entries. */
  lemma {:induction false} ListingWithin<K, V>(bs: seq<Bucket<K, V>>, lo: int, hi: int)
    requires Uniform(bs)
    requires forall i :: 0 <= i < |bs| ==> lo <= bs[i].freq <= hi
    ensures forall j :: 0 <= j < |Listing(bs)| ==> lo <= Listing(bs)[j].freq <= hi
  {
    if bs != [] {
      ListingWithin(bs[1..], lo, hi);
      var r := Listing(bs[1..]);
      assert Listing(bs) == r + bs[0].nodes;
      forall j | 0 <= j < |Listing(bs)|
        ensures lo <= Listing(bs)[j].freq <= hi
      {
        if j >= |r| {
          assert Listing(bs)[j] == bs[0].nodes[j - |r|];
        }
      }
    }
  }

  /** The entries of the bucket at `p` occupy one span of the listing; the
      entries in front of it have higher frequencies, those behind it lower. */
  lemma BucketSpan<K, V>(bs: seq<Bucket<K, V>>, p: nat, e: seq<Node<K, V>>, off: nat, ns: seq<Node<K, V>>, f: int)
    requires Ascending(bs) && Uniform(bs) && p < |bs|
    requires e == Listing(bs) && off == |Listing(bs[p + 1..])| && ns == bs[p].nodes && f == bs[p].freq
    ensures off + |ns| <= |e|
    ensures forall i :: 0 <= i < |ns| ==> e[off + i] == ns[i]
    ensures forall i :: 0 <= i < off ==> e[i].freq > f
    ensures forall i :: off + |ns| <= i < |e| ==> e[i].freq < f
    ensures forall j :: 0 <= j < |ns| ==> ns[j].freq == f
  {
    AscendingIncreasing(bs);
    UniformSettled(bs);
    BucketSpanIncreasing(bs, p, e, off, ns, f);
    assert Settled(bs[p]);
  }

  /** The entry at `j` of the bucket at `p` sits at `q` in the listing,
      behind the entries of the buckets above `p`. */
  lemma SpanAt<K, V>(bs: seq<Bucket<K, V>>, p: nat, j: nat) returns (q: nat)
    requires Ascending(bs) && Uniform(bs) && p < |bs| && j < |bs[p].nodes|
    ensures q == |Listing(bs[p + 1..])| + j
    ensures q < |Listing(bs)| && Listing(bs)[q] == bs[p].nodes[j]
  {
    var e, off, ns, f := Listing(bs), |Listing(bs[p + 1..])|, bs[p].nodes, bs[p].freq;
    BucketSpan(bs, p, e, off, ns, f);
    q := off + j;
    IndexWithin(e, off, ns, j, q);
  }

  /** The `j`-th of the entries `ns` that sit at `off` of `e` is at `off + j`. */
  lemma IndexWithin<T>(e: seq<T>, off: nat, ns: seq<T>, j: nat, q: nat)
    requires off + |ns| <= |e| && j < |ns| && q == off + j
    requires forall i :: 0 <= i < |ns| ==> e[off + i] == ns[i]
    ensures q < |e| && e[q] == ns[j]
  {
    assert e[off + j] == ns[j];
  }

  /** BucketSpan over increasing, settled buckets, on the listing `e`, the
      offset `off`, the entries `ns` and the frequency `f` of the bucket at
      `p`. */
  lemma BucketSpanIncreasing<K, V>(bs: seq<Bucket<K, V>>, p: nat, e: seq<Node<K, V>>, off: nat,
                                   ns: seq<Node<K, V>>, f: int)
    requires Increasing(bs) && AllSettled(bs) && p < |bs|
    requires e == Listing(bs) && off == |Listing(bs[p + 1..])| && ns == bs[p].nodes && f == bs[p].freq
    ensures off + |ns| <= |e|
    ensures forall i :: 0 <= i < |ns| ==> e[off + i] == ns[i]
    ensures forall i :: 0 <= i < off ==> e[i].freq > f
    ensures forall i :: off + |ns| <= i < |e| ==> e[i].freq < f
  {
    ListingSplit(bs, p);
    var a, b := Listing(bs[p + 1..]), Listing(bs[..p]);
    var lo, hi := SidesListed(bs, p, f, a, b);
    SpanWithin(e, a, ns, b, f, lo, hi, off);
  }

  /** The entries listed above the bucket at `p` have frequencies above its
      own `f`, those listed below it frequencies below `f`. */
  lemma SidesListed<K, V>(bs: seq<Bucket<K, V>>, p: nat, f: int, a: seq<Node<K, V>>, b: seq<Node<K, V>>)
      returns (lo: int, hi: int)
    requires Increasing(bs) && AllSettled(bs) && p < |bs| && f == bs[p].freq
    requires a == Listing(bs[p + 1..]) && b == Listing(bs[..p])
    ensures forall j :: 0 <= j < |a| ==> f + 1 <= a[j].freq <= hi
    ensures forall j :: 0 <= j < |b| ==> lo <= b[j].freq <= f - 1
  {
    var above, below := bs[p + 1..], bs[..p];
    lo, hi := Sides(bs, p, above, below);
    ListingWithin(above, f + 1, hi);
    ListingWithin(below, lo, f - 1);
  }

  /** The buckets above and below the one at `p` are settled, and their
      frequencies lie above and below its own, within `lo` and `hi`. */
  lemma Sides<K, V>(bs: seq<Bucket<K, V>>, p: nat, above: seq<Bucket<K, V>>, below: seq<Bucket<K, V>>)
      returns (lo: int, hi: int)
    requires Increasing(bs) && AllSettled(bs) && p < |bs|
    requires above == bs[p + 1..] && below == bs[..p]
    ensures Uniform(above) && Uniform(below)
    ensures forall i :: 0 <= i < |above| ==> bs[p].freq + 1 <= above[i].freq <= hi
    ensures forall i :: 0 <= i < |below| ==> lo <= below[i].freq <= bs[p].freq - 1
  {
    assert AllSettled(above) by {
      assert forall i :: 0 <= i < |above| ==> above[i] == bs[p + 1 + i];
    }
    assert AllSettled(below) by {
      assert forall i :: 0 <= i < |below| ==> below[i] == bs[i];
    }
    SettledUniform(above);
    SettledUniform(below);
    hi := bs[|bs| - 1].freq;
    lo := bs[0].freq;
  }

  /** A listing made of the entries above a bucket, the bucket's own and
      those below it, each part within its bounds. */
  lemma SpanWithin<K, V>(e: seq<Node<K, V>>, a: seq<Node<K, V>>, ns: seq<Node<K, V>>, b: seq<Node<K, V>>,
                         f: int, lo: int, hi: int, off: nat)
    requires e == a + ns + b && off == |a|
    requires forall j :: 0 <= j < |a| ==> f + 1 <= a[j].freq <= hi
    requires forall j :: 0 <= j < |b| ==> lo <= b[j].freq <= f - 1
    ensures off + |ns| <= |e|
    ensures forall i :: 0 <= i < |ns| ==> e[off + i] == ns[i]
    ensures forall i :: 0 <= i < off ==> e[i].freq > f
    ensures forall i :: off + |ns| <= i < |e| ==> e[i].freq < f
  {
    forall i | |a| + |ns| <= i < |e|
      ensures e[i].freq < f
    {
      assert e[i] == b[i - |a| - |ns|];
    }
  }

  /** The cache's listing is in descending frequency. */
  lemma {:induction false} ListingDescending<K, V>(bs: seq<Bucket<K, V>>)
    requires Ascending(bs) && Uniform(bs)
    ensures Descending(Listing(bs))
  {
    if bs != [] {
      ListingDescending(bs[1..]);
      var e, off, ns, f := Listing(bs), |Listing(bs[1..])|, bs[0].nodes, bs[0].freq;
      BucketSpan(bs, 0, e, off, ns, f);
      assert e == Listing(bs[1..]) + ns;
    }
  }

  /** Every listed entry sits in the bucket that `fe` files under its
      frequency. */
  lemma {:induction false} BucketOf<K, V>(bs: seq<Bucket<K, V>>, fe: map<int, nat>, j: nat) returns (k: nat)
    requires Shaped(bs, fe) && j < |Listing(bs)|
    ensures var x := Listing(bs)[j];
      x.freq in fe && k < |bs[fe[x.freq]].nodes| && bs[fe[x.freq]].nodes[k] == x
  {
    AscendingIncreasing(bs);
    UniformSettled(bs);
    var i;
    i, k := ListingMember(bs, j);
    assert Settled(bs[i]);
  }

  /** PushFront into the bucket at `p`: the listing admits the entry. */
  lemma {:induction false} PushFrontListing<K, V>(bs: seq<Bucket<K, V>>, p: nat, n: Node<K, V>)
    requires Ascending(bs) && Uniform(bs) && p < |bs| && n.freq == bs[p].freq
    ensures Listing(bs[p := bs[p].(nodes := [n] + bs[p].nodes)]) == Admit(Listing(bs), n)
  {
    var cs := bs[p := bs[p].(nodes := [n] + bs[p].nodes)];
    var above, ns, below := Listing(bs[p + 1..]), bs[p].nodes, Listing(bs[..p]);
    var e := Listing(bs);
    assert e == above + ns + below by {
      ListingSplit(bs, p);
    }
    assert Listing(cs) == above + ([n] + ns) + below by {
      ListingSplit(cs, p);
      assert cs[p + 1..] == bs[p + 1..] && cs[..p] == bs[..p];
    }
    assert Admit(e, n) == LinkedList.InsertAt(e, |above|, n) by {
      BucketSpan(bs, p, e, |above|, ns, bs[p].freq);
      AdmitAt(e, n, |above|);
    }
    InsertAtJoin(above, ns, below, n);
  }

  lemma InsertAtJoin<T>(a: seq<T>, b: seq<T>, c: seq<T>, x: T)
    ensures LinkedList.InsertAt(a + b + c, |a|, x) == a + ([x] + b) + c
  {
    assert (a + b + c)[..|a|] == a && (a + b + c)[|a|..] == b + c;
  }

  /** Replacing the entry at `k` of the bucket at `p` replaces it in the
      listing, at the bucket's offset plus `k`. */
  lemma {:induction false} SetListing<K, V>(bs: seq<Bucket<K, V>>, p: nat, k: nat, n: Node<K, V>)
    requires p < |bs| && k < |bs[p].nodes|
    ensures var off := |Listing(bs[p + 1..])|;
      && off + k < |Listing(bs)| && Listing(bs)[off + k] == bs[p].nodes[k]
      && Listing(bs[p := bs[p].(nodes := bs[p].nodes[k := n])]) == Listing(bs)[off + k := n]
  {
    var cs := bs[p := bs[p].(nodes := bs[p].nodes[k := n])];
    ListingSplit(bs, p);
    ListingSplit(cs, p);
    assert cs[p + 1..] == bs[p + 1..] && cs[..p] == bs[..p];
  }

  /** Removing the entry at `k` of the bucket at `p` removes it from the
      listing, at the bucket's offset plus `k`. */
  lemma {:induction false} RemoveListing<K, V>(bs: seq<Bucket<K, V>>, p: nat, k: nat)
    requires p < |bs| && k < |bs[p].nodes|
    ensures var off := |Listing(bs[p + 1..])|;
      && off + k < |Listing(bs)| && Listing(bs)[off + k] == bs[p].nodes[k]
      && Listing(bs[p := bs[p].(nodes := LinkedList.RemoveAt(bs[p].nodes, k))]) ==
           LinkedList.RemoveAt(Listing(bs), off + k)
  {
    var cs := bs[p := bs[p].(nodes := LinkedList.RemoveAt(bs[p].nodes, k))];
    ListingSplit(bs, p);
    ListingSplit(cs, p);
    assert cs[p + 1..] == bs[p + 1..] && cs[..p] == bs[..p];
    var above, ns, below := Listing(bs[p + 1..]), bs[p].nodes, Listing(bs[..p]);
    RemoveWithin(above, ns, below, k);
  }

  /** Removing the `k`-th of the middle part of a sequence removes it from
      the whole. */
  lemma RemoveWithin<T>(a: seq<T>, ns: seq<T>, b: seq<T>, k: nat)
    requires k < |ns|
    ensures |a| + k < |a + ns + b| && (a + ns + b)[|a| + k] == ns[k]
    ensures LinkedList.RemoveAt(a + ns + b, |a| + k) == a + LinkedList.RemoveAt(ns, k) + b
  {
  }

  /** An empty bucket adds nothing to the listing, wherever it is inserted. */
  lemma {:induction false} InsertEmptyListing<K, V>(bs: seq<Bucket<K, V>>, p: nat, b: Bucket<K, V>)
    requires p <= |bs| && b.nodes == []
    ensures Listing(LinkedList.InsertAt(bs, p, b)) == Listing(bs)
  {
    var cs := LinkedList.InsertAt(bs, p, b);
    ListingSplit(cs, p);
    assert cs[p + 1..] == bs[p..] && cs[..p] == bs[..p];
    ListingAppend(bs[..p], bs[p..]);
    assert bs == bs[..p] + bs[p..];
  }

  /** Removing an empty bucket takes nothing from the listing. */
  lemma {:induction false} RemoveEmptyListing<K, V>(bs: seq<Bucket<K, V>>, p: nat)
    requires p < |bs| && bs[p].nodes == []
    ensures Listing(LinkedList.RemoveAt(bs, p)) == Listing(bs)
  {
    ListingSplit(bs, p);
    ListingAppend(bs[..p], bs[p + 1..]);
    assert LinkedList.RemoveAt(bs, p) == bs[..p] + bs[p + 1..];
  }

  /** Inserting a bucket for a new frequency `g` at position `p` and filing
      it there keeps the index, the others re-aimed. */
  lemma {:induction false} IndexedInsert<K, V>(bs: seq<Bucket<K, V>>, fe: map<int, nat>, p: nat, g: int)
    requires Indexed(bs, fe) && g !in fe && p <= |bs|
    ensures Indexed(LinkedList.InsertAt(bs, p, Bucket(g, [])), ShiftUp(fe, p)[g := p])
  {
    var cs := LinkedList.InsertAt(bs, p, Bucket(g, []));
    var ge := ShiftUp(fe, p)[g := p];
    forall f | f in ge
      ensures ge[f] < |cs| && cs[ge[f]].freq == f
    {
      if f != g {
        assert f in fe;
        if fe[f] >= p {
          assert cs[fe[f] + 1] == bs[fe[f]];
        } else {
          assert cs[fe[f]] == bs[fe[f]];
        }
      }
    }
    forall i | 0 <= i < |cs|
      ensures cs[i].freq in ge
    {
      if i < p {
        assert cs[i] == bs[i];
      } else if i > p {
        assert cs[i] == bs[i - 1];
      }
    }
  }

  /** Removing the bucket at `p` and its index entry keeps the index, the
      others re-aimed. */
  lemma {:induction false} IndexedRemove<K, V>(bs: seq<Bucket<K, V>>, fe: map<int, nat>, p: nat)
    requires Ascending(bs) && Indexed(bs, fe) && p < |bs|
    ensures Indexed(LinkedList.RemoveAt(bs, p), ShiftDown(fe - {bs[p].freq}, p))
  {
    AscendingIncreasing(bs);
    var cs := LinkedList.RemoveAt(bs, p);
    var ge := ShiftDown(fe - {bs[p].freq}, p);
    forall f | f in ge
      ensures ge[f] < |cs| && cs[ge[f]].freq == f
    {
      assert f in fe && f != bs[p].freq;
      assert fe[f] != p;
      if fe[f] > p {
        assert cs[fe[f] - 1] == bs[fe[f]];
      } else {
        assert cs[fe[f]] == bs[fe[f]];
      }
    }
    forall i | 0 <= i < |cs|
      ensures cs[i].freq in ge
    {
      if i < p {
        assert cs[i] == bs[i] && bs[i].freq < bs[p].freq;
      } else {
        assert cs[i] == bs[i + 1] && bs[i + 1].freq > bs[p].freq;
      }
    }
  }

  /** The bucket of the least listed frequency is the one eviction reads:
      it is filed, it holds the last listed entry at its back, and no bucket
      below it holds anything. */
  lemma LeastBucket<K, V>(bs: seq<Bucket<K, V>>, fe: map<int, nat>, mf: int) returns (p: nat)
    requires Shaped(bs, fe) && |Listing(bs)| > 0 && Last(Listing(bs)).freq == mf
    ensures mf in fe && p == fe[mf] && p < |bs|
    ensures |bs[p].nodes| > 0 && bs[p].nodes[|bs[p].nodes| - 1] == Last(Listing(bs))
    ensures |Listing(bs[p + 1..])| + |bs[p].nodes| == |Listing(bs)|
  {
    var e := Listing(bs);
    var j := |e| - 1;
    LeastFiled(bs, fe, e, j, mf);
    p := fe[mf];
    var off, ns, f := |Listing(bs[p + 1..])|, bs[p].nodes, bs[p].freq;
    BucketSpan(bs, p, e, off, ns, f);
    LastWithin(e, off, ns, f, j);
  }

  /** The frequency of a listed entry is filed, under a bucket of that
      frequency. */
  lemma LeastFiled<K, V>(bs: seq<Bucket<K, V>>, fe: map<int, nat>, e: seq<Node<K, V>>, j: nat, mf: int)
    requires Shaped(bs, fe) && e == Listing(bs) && j < |e| && e[j].freq == mf
    ensures mf in fe && fe[mf] < |bs| && bs[fe[mf]].freq == mf
  {
    var k := BucketOf(bs, fe, j);
  }

  /** With the span facts of the bucket at the frequency of the last entry
      of the listing, the bucket ends the listing. */
  lemma LastWithin<K, V>(e: seq<Node<K, V>>, off: nat, ns: seq<Node<K, V>>, f: int, j: nat)
    requires off + |ns| <= |e| && j == |e| - 1 && e[j].freq == f
    requires forall i :: 0 <= i < |ns| ==> e[off + i] == ns[i]
    requires forall i :: 0 <= i < off ==> e[i].freq > f
    requires forall i :: off + |ns| <= i < |e| ==> e[i].freq < f
    ensures off + |ns| == |e| && |ns| > 0 && ns[|ns| - 1] == e[j]
  {
    assert e[off + |ns| - 1] == ns[|ns| - 1];
  }

  /** Inserting an empty bucket for a frequency `g` not yet filed, between
      lower and higher frequencies, keeps the bucket structure and the
      listing. */
  lemma ShapedInsert<K, V>(bs: seq<Bucket<K, V>>, fe: map<int, nat>, p: nat, g: int)
    requires Shaped(bs, fe) && g !in fe && 1 <= g && p <= |bs|
    requires p > 0 ==> bs[p - 1].freq < g
    requires p < |bs| ==> g < bs[p].freq
    ensures Shaped(LinkedList.InsertAt(bs, p, Bucket(g, [])), ShiftUp(fe, p)[g := p])
    ensures Listing(LinkedList.InsertAt(bs, p, Bucket(g, []))) == Listing(bs)
  {
    IndexedInsert(bs, fe, p, g);
    InsertEmptyListing(bs, p, Bucket(g, []));
    AscendingInsert(bs, p, g);
    UniformInsert(bs, p, g);
  }

  lemma AscendingInsert<K, V>(bs: seq<Bucket<K, V>>, p: nat, g: int)
    requires Ascending(bs) && 1 <= g && p <= |bs|
    requires p > 0 ==> bs[p - 1].freq < g
    requires p < |bs| ==> g < bs[p].freq
    ensures Ascending(LinkedList.InsertAt(bs, p, Bucket(g, [])))
  {
    AscendingIncreasing(bs);
    IncreasingInsert(bs, p, g);
    IncreasingAscending(LinkedList.InsertAt(bs, p, Bucket(g, [])));
  }

  lemma IncreasingInsert<K, V>(bs: seq<Bucket<K, V>>, p: nat, g: int)
    requires Increasing(bs) && 1 <= g && p <= |bs|
    requires p > 0 ==> bs[p - 1].freq < g
    requires p < |bs| ==> g < bs[p].freq
    ensures Increasing(LinkedList.InsertAt(bs, p, Bucket(g, [])))
  {
    var cs := LinkedList.InsertAt(bs, p, Bucket(g, []));
    forall i, j | 0 <= i < j < |cs|
      ensures cs[i].freq < cs[j].freq
    {
      if j < p {
      } else if i > p {
        assert cs[i] == bs[i - 1] && cs[j] == bs[j - 1];
      } else if i == p {
        assert cs[j] == bs[j - 1] && bs[p].freq <= bs[j - 1].freq;
      } else if j == p {
        assert cs[i] == bs[i] && bs[i].freq <= bs[p - 1].freq;
      } else {
        assert cs[i] == bs[i] && cs[j] == bs[j - 1];
      }
    }
  }

  lemma UniformInsert<K, V>(bs: seq<Bucket<K, V>>, p: nat, g: int)
    requires Uniform(bs) && p <= |bs|
    ensures Uniform(LinkedList.InsertAt(bs, p, Bucket(g, [])))
  {
    var cs := LinkedList.InsertAt(bs, p, Bucket(g, []));
    UniformSettled(bs);
    forall i | 0 <= i < |cs|
      ensures Settled(cs[i])
    {
      if i < p {
        assert cs[i] == bs[i];
      } else if i > p {
        assert cs[i] == bs[i - 1];
      }
    }
    SettledUniform(cs);
  }

  /** Removing an empty bucket and its index entry keeps the bucket
      structure and the listing. */
  lemma ShapedRemove<K, V>(bs: seq<Bucket<K, V>>, fe: map<int, nat>, p: nat)
    requires Shaped(bs, fe) && p < |bs| && bs[p].nodes == []
    ensures Shaped(LinkedList.RemoveAt(bs, p), ShiftDown(fe - {bs[p].freq}, p))
    ensures Listing(LinkedList.RemoveAt(bs, p)) == Listing(bs)
  {
    IndexedRemove(bs, fe, p);
    RemoveEmptyListing(bs, p);
    AscendingIncreasing(bs);
    IncreasingRemove(bs, p);
    IncreasingAscending(LinkedList.RemoveAt(bs, p));
    UniformSettled(bs);
    SettledRemove(bs, p);
    SettledUniform(LinkedList.RemoveAt(bs, p));
  }

  lemma IncreasingRemove<K, V>(bs: seq<Bucket<K, V>>, p: nat)
    requires Increasing(bs) && p < |bs|
    ensures Increasing(LinkedList.RemoveAt(bs, p))
  {
    var cs := LinkedList.RemoveAt(bs, p);
    forall i, j | 0 <= i < j < |cs|
      ensures cs[i].freq < cs[j].freq
    {
      if j < p {
      } else if i >= p {
        assert cs[i] == bs[i + 1] && cs[j] == bs[j + 1];
      } else {
        assert cs[i] == bs[i] && cs[j] == bs[j + 1];
      }
    }
  }

  lemma SettledRemove<K, V>(bs: seq<Bucket<K, V>>, p: nat)
    requires AllSettled(bs) && p < |bs|
    ensures AllSettled(LinkedList.RemoveAt(bs, p))
  {
    var cs := LinkedList.RemoveAt(bs, p);
    forall i | 0 <= i < |cs|
      ensures Settled(cs[i])
    {
      if i < p {
        assert cs[i] == bs[i];
      } else {
        assert cs[i] == bs[i + 1];
      }
    }
  }

  /** An entry is alone at its frequency exactly when its bucket holds
      nothing else. */
  lemma AloneInBucket<K, V>(bs: seq<Bucket<K, V>>, p: nat, k: nat, q: nat, e: seq<Node<K, V>>)
    requires Ascending(bs) && Uniform(bs) && p < |bs| && k < |bs[p].nodes|
    requires q == |Listing(bs[p + 1..])| + k && e == Listing(bs)
    ensures q < |e| && e[q] == bs[p].nodes[k]
    ensures |bs[p].nodes| == 1 <==> forall i :: 0 <= i < |e| && i != q ==> e[i].freq != e[q].freq
  {
    var off := q - k;
    var ns := bs[p].nodes;
    var f := bs[p].freq;
    BucketSpan(bs, p, e, off, ns, f);
    AloneWithin(e, off, ns, f, k, q);
  }

  /** In a listing whose entries above `off` have higher frequencies, whose
      entries from `off` on are `ns`, all at frequency `f`, and whose
      entries behind `ns` have lower ones, the `k`-th of `ns` is alone at its
      frequency exactly when `ns` holds one entry. */
  lemma AloneWithin<K, V>(e: seq<Node<K, V>>, off: nat, ns: seq<Node<K, V>>, f: int, k: nat, q: nat)
    requires off + |ns| <= |e| && k < |ns| && q == off + k
    requires forall i :: 0 <= i < |ns| ==> e[off + i] == ns[i]
    requires forall i :: 0 <= i < off ==> e[i].freq > f
    requires forall i :: off + |ns| <= i < |e| ==> e[i].freq < f
    requires forall j :: 0 <= j < |ns| ==> ns[j].freq == f
    ensures q < |e| && e[q] == ns[k]
    ensures |ns| == 1 <==> forall i :: 0 <= i < |e| && i != q ==> e[i].freq != e[q].freq
  {
    assert e[off + k] == ns[k];
    if |ns| != 1 {
      var other := if k == 0 then 1 else 0;
      assert e[off + other] == ns[other];
    }
  }

  /** Replacing a bucket's entries by entries of the bucket's frequency keeps
      the bucket structure. */
  lemma ShapedReplace<K, V>(bs: seq<Bucket<K, V>>, fe: map<int, nat>, p: nat, ns: seq<Node<K, V>>)
    requires Shaped(bs, fe) && p < |bs|
    requires forall i :: 0 <= i < |ns| ==> ns[i].freq == bs[p].freq
    ensures Shaped(bs[p := bs[p].(nodes := ns)], fe)
  {
    var cs := bs[p := bs[p].(nodes := ns)];
    AscendingIncreasing(bs);
    IncreasingAscending(cs);
    UniformSettled(bs);
    assert AllSettled(cs) by {
      assert Settled(cs[p]);
    }
    SettledUniform(cs);
  }

  /** The entry at `k` of the bucket at `p` removed: the structure is kept
      and the entry leaves the listing at the bucket's offset plus `k`. */
  lemma ShapedRemoveEntry<K, V>(bs: seq<Bucket<K, V>>, fe: map<int, nat>, p: nat, k: nat)
    requires Shaped(bs, fe) && p < |bs| && k < |bs[p].nodes|
    ensures var cs := bs[p := bs[p].(nodes := LinkedList.RemoveAt(bs[p].nodes, k))];
      var off := |Listing(bs[p + 1..])|;
      && Shaped(cs, fe)
      && off + k < |Listing(bs)| && Listing(bs)[off + k] == bs[p].nodes[k]
      && Listing(cs) == LinkedList.RemoveAt(Listing(bs), off + k)
  {
    var ns := bs[p].nodes;
    RemoveListing(bs, p, k);
    UniformSettled(bs);
    assert Settled(bs[p]);
    ShapedReplace(bs, fe, p, LinkedList.RemoveAt(ns, k));
  }

  /** An entry of the bucket's frequency pushed to the front of the bucket
      at `p`: the structure is kept and the listing admits the entry. */
  lemma ShapedPushFront<K, V>(bs: seq<Bucket<K, V>>, fe: map<int, nat>, p: nat, n: Node<K, V>)
    requires Shaped(bs, fe) && p < |bs| && n.freq == bs[p].freq
    ensures var cs := bs[p := bs[p].(nodes := [n] + bs[p].nodes)];
      Shaped(cs, fe) && Listing(cs) == Admit(Listing(bs), n)
  {
    var ns := bs[p].nodes;
    var ms := [n] + ns;
    PushFrontListing(bs, p, n);
    UniformSettled(bs);
    assert Settled(bs[p]);
    PushedSettled(ns, n, bs[p].freq, ms);
    ShapedReplace(bs, fe, p, ms);
  }

  /** Entries of frequency `f` with one more of that frequency in front. */
  lemma PushedSettled<K, V>(ns: seq<Node<K, V>>, n: Node<K, V>, f: int, ms: seq<Node<K, V>>)
    requires ms == [n] + ns && n.freq == f
    requires forall j :: 0 <= j < |ns| ==> ns[j].freq == f
    ensures forall i :: 0 <= i < |ms| ==> ms[i].freq == f
  {
    forall i | 0 <= i < |ms|
      ensures ms[i].freq == f
    {
      if i > 0 {
        assert ms[i] == ns[i - 1];
      }
    }
  }

  /** The entry at `k` of the bucket at `p` replaced by one of the same
      frequency: the structure is kept and the listing changes in that
      place only. */
  lemma ShapedSetEntry<K, V>(bs: seq<Bucket<K, V>>, fe: map<int, nat>, p: nat, k: nat, n: Node<K, V>)
    requires Shaped(bs, fe) && p < |bs| && k < |bs[p].nodes| && n.freq == bs[p].nodes[k].freq
    ensures var cs := bs[p := bs[p].(nodes := bs[p].nodes[k := n])];
      var off := |Listing(bs[p + 1..])|;
      && Shaped(cs, fe)
      && off + k < |Listing(bs)| && Listing(bs)[off + k] == bs[p].nodes[k]
      && Listing(cs) == Listing(bs)[off + k := n]
  {
    var ns := bs[p].nodes;
    SetListing(bs, p, k, n);
    UniformSettled(bs);
    assert Settled(bs[p]);
    ShapedReplace(bs, fe, p, ns[k := n]);
  }

  /** The bucket for `f + 1` made right above the bucket for `f`: the
      structure and the listing are kept, and the bucket for `f` stays where
      it is. */
  lemma GrowAbove<K, V>(bs: seq<Bucket<K, V>>, fe: map<int, nat>, f: int)
    requires Shaped(bs, fe) && f in fe && f + 1 !in fe
    ensures var p := fe[f] + 1;
      var cs := LinkedList.InsertAt(bs, p, Bucket(f + 1, []));
      var ge := ShiftUp(fe, p)[f + 1 := p];
      && Shaped(cs, ge) && Listing(cs) == Listing(bs)
      && f in ge && ge[f] == fe[f] && cs[ge[f]] == bs[fe[f]] && f + 1 in ge
  {
    var p := fe[f] + 1;
    var g := f + 1;
    Above(bs, fe, f, p);
    ShapedInsert(bs, fe, p, g);
  }

  /** The bucket right above the bucket for `f`, when there is one, is for
      a frequency above `f + 1` unless `f + 1` is filed. */
  lemma Above<K, V>(bs: seq<Bucket<K, V>>, fe: map<int, nat>, f: int, p: nat)
    requires Shaped(bs, fe) && f in fe && f + 1 !in fe && p == fe[f] + 1
    ensures p <= |bs| && 1 <= f + 1 && bs[p - 1].freq < f + 1
    ensures p < |bs| ==> f + 1 < bs[p].freq
  {
    AscendingIncreasing(bs);
    assert p < |bs| ==> bs[p].freq in fe;
  }

  /** The empty bucket for `f` dropped: the structure and the listing are
      kept, and every other frequency stays filed. */
  lemma DropEmpty<K, V>(bs: seq<Bucket<K, V>>, fe: map<int, nat>, f: int)
    requires Shaped(bs, fe) && f in fe && bs[fe[f]].nodes == []
    ensures var p := fe[f];
      var cs := LinkedList.RemoveAt(bs, p);
      var ge := ShiftDown(fe - {f}, p);
      && Shaped(cs, ge) && Listing(cs) == Listing(bs)
      && f !in ge && (forall g :: g in fe && g != f ==> g in ge)
  {
    ShapedRemove(bs, fe, fe[f]);
  }

  /** Every listed entry has a positive frequency. */
  lemma ListingPositive<K, V>(bs: seq<Bucket<K, V>>)
    requires Ascending(bs) && Uniform(bs)
    ensures forall j :: 0 <= j < |Listing(bs)| ==> Listing(bs)[j].freq >= 1
  {
    AscendingIncreasing(bs);
    forall j | 0 <= j < |Listing(bs)|
      ensures Listing(bs)[j].freq >= 1
    {
      var i, k := ListingMember(bs, j);
      UniformSettled(bs);
      assert Settled(bs[i]);
    }
  }
}
