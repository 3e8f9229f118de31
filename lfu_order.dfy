/**
 The order in which an LFU cache lists its entries, stated on its own:
 descending frequency, and within one frequency the entry used most recently
 first. Using an entry takes it out and admits it again with its frequency
 raised by one; evicting takes the last entry. These are the reference
 definitions the cache's bucket structure is proved against.
 */
module LfuOrder {
  import LinkedList

  /** A cache entry: the `node` record of the cache. */
  datatype Node<K, V> = Node(key: K, value: V, freq: int)

  /** Frequencies never grow along `s`. */
  ghost predicate Descending<K, V>(s: seq<Node<K, V>>)
  {
    forall i, j :: 0 <= i < j < |s| ==> s[i].freq >= s[j].freq
  }

  /** The keys listed in `s`. */
  ghost function KeySet<K, V>(s: seq<Node<K, V>>): set<K>
  {
    set i | 0 <= i < |s| :: s[i].key
  }

  /** No key is listed twice: the first entry's key is not listed behind
      it, and so on down the listing. */
  ghost predicate DistinctKeys<K, V>(s: seq<Node<K, V>>)
  {
    s == [] || (s[0].key !in KeySet(s[1..]) && DistinctKeys(s[1..]))
  }

  /** No key is listed twice, pair by pair. */
  ghost predicate Unique<K, V>(s: seq<Node<K, V>>)
  {
    forall i, j :: 0 <= i < j < |s| ==> s[i].key != s[j].key
  }

  lemma {:induction false} DistinctUnique<K, V>(s: seq<Node<K, V>>)
    requires DistinctKeys(s)
    ensures Unique(s)
  {
    if s != [] {
      var t := s[1..];
      DistinctUnique(t);
      forall i, j | 0 <= i < j < |s|
        ensures s[i].key != s[j].key
      {
        assert s[j] == t[j - 1];
        if i == 0 {
          assert t[j - 1].key in KeySet(t);
        } else {
          assert s[i] == t[i - 1];
        }
      }
    }
  }

  lemma {:induction false} UniqueDistinct<K, V>(s: seq<Node<K, V>>)
    requires Unique(s)
    ensures DistinctKeys(s)
  {
    if s != [] {
      var t := s[1..];
      assert Unique(t) by {
        forall i, j | 0 <= i < j < |t|
          ensures t[i].key != t[j].key
        {
          assert t[i] == s[i + 1] && t[j] == s[j + 1];
        }
      }
      UniqueDistinct(t);
      assert s[0].key !in KeySet(t) by {
        forall i | 0 <= i < |t|
          ensures t[i].key != s[0].key
        {
          assert t[i] == s[i + 1];
        }
      }
    }
  }

  /** Where `key` is listed in `s`: the first position holding it. */
  function Position<K(==), V>(s: seq<Node<K, V>>, key: K): (i: nat)
    requires exists j :: 0 <= j < |s| && s[j].key == key
    ensures i < |s| && s[i].key == key
    ensures forall j :: 0 <= j < i ==> s[j].key != key
  {
    if s[0].key == key then 0
    else
      assert exists j :: 0 <= j < |s[1..]| && s[1..][j].key == key by {
        var j :| 0 <= j < |s| && s[j].key == key;
        assert s[1..][j - 1].key == key;
      }
      1 + Position(s[1..], key)
  }

  /** `n` admitted into `s`: placed behind every entry of higher frequency
      and in front of the first entry whose frequency is not above its own. */
  ghost function Admit<K, V>(s: seq<Node<K, V>>, n: Node<K, V>): (r: seq<Node<K, V>>)
    ensures |r| == |s| + 1
  {
    if s == [] || s[0].freq <= n.freq then [n] + s else [s[0]] + Admit(s[1..], n)
  }

  /** Admission adds `n` and loses nothing. */
  lemma {:induction false} AdmitPermutes<K, V>(s: seq<Node<K, V>>, n: Node<K, V>)
    ensures multiset(Admit(s, n)) == multiset(s) + multiset{n}
  {
    if s != [] && s[0].freq > n.freq {
      AdmitPermutes(s[1..], n);
      assert s == [s[0]] + s[1..];
    }
  }

  /** The entry at `i` used once more: taken out, its frequency raised by
      one, and admitted again. */
  ghost function Touch<K, V>(s: seq<Node<K, V>>, i: nat): (r: seq<Node<K, V>>)
    requires i < |s|
    ensures |r| == |s|
  {
    Admit(LinkedList.RemoveAt(s, i), s[i].(freq := s[i].freq + 1))
  }

  /** The last entry of a non-empty listing. */
  ghost function Last<K, V>(s: seq<Node<K, V>>): Node<K, V>
    requires |s| > 0
  {
    s[|s| - 1]
  }

  /** Admission inserts `n` at one position `p`: every entry in front of it
      has a higher frequency, and the entry right behind it (if any) does not. */
  lemma {:induction false} AdmitPlace<K, V>(s: seq<Node<K, V>>, n: Node<K, V>) returns (p: nat)
    ensures p <= |s| && Admit(s, n) == LinkedList.InsertAt(s, p, n)
    ensures forall i :: 0 <= i < p ==> s[i].freq > n.freq
    ensures p < |s| ==> s[p].freq <= n.freq
  {
    if s == [] || s[0].freq <= n.freq {
      p := 0;
    } else {
      var q := AdmitPlace(s[1..], n);
      p := q + 1;
      assert s == [s[0]] + s[1..];
    }
  }

  /** The place of admission is the only position between the entries of
      higher frequency and the rest: when `s` is descending, inserting `n`
      there is admitting it. */
  lemma AdmitAt<K, V>(s: seq<Node<K, V>>, n: Node<K, V>, p: nat)
    requires p <= |s|
    requires forall i :: 0 <= i < p ==> s[i].freq > n.freq
    requires forall i :: p <= i < |s| ==> s[i].freq <= n.freq
    ensures Admit(s, n) == LinkedList.InsertAt(s, p, n)
  {
    var q := AdmitPlace(s, n);
  }

  /** Admission keeps the listing descending. */
  lemma AdmitDescending<K, V>(s: seq<Node<K, V>>, n: Node<K, V>)
    requires Descending(s)
    ensures Descending(Admit(s, n))
  {
    var p := AdmitPlace(s, n);
    var r := Admit(s, n);
    forall i, j | 0 <= i < j < |r|
      ensures r[i].freq >= r[j].freq
    {
      if j < p {
      } else if i == p {
        assert r[j] == s[j - 1];
      } else if j == p {
        assert r[i] == s[i];
      } else if i > p {
        assert r[i] == s[i - 1] && r[j] == s[j - 1];
      } else {
        assert r[i] == s[i] && r[j] == s[j - 1];
      }
    }
  }

  /** Recency among equals: the admitted entry is listed in front of every
      entry of no higher frequency and behind every entry of higher
      frequency, so within one frequency the newest comes first. */
  lemma AdmitAhead<K, V>(s: seq<Node<K, V>>, n: Node<K, V>) returns (p: nat)
    requires Descending(s)
    ensures p <= |s| && Admit(s, n)[p] == n
    ensures forall i :: 0 <= i < p ==> Admit(s, n)[i].freq > n.freq
    ensures forall i :: p < i <= |s| ==> Admit(s, n)[i].freq <= n.freq
  {
    p := AdmitPlace(s, n);
    forall i | p < i <= |s|
      ensures Admit(s, n)[i].freq <= n.freq
    {
      assert Admit(s, n)[i] == s[i - 1];
      assert s[p].freq <= n.freq;
    }
  }

  /** Admitting an entry whose frequency is not above any listed one makes
      its frequency the least: it is placed last, or in front of entries of
      that same frequency. */
  lemma AdmitLeast<K, V>(s: seq<Node<K, V>>, n: Node<K, V>)
    requires Descending(s)
    requires forall i :: 0 <= i < |s| ==> s[i].freq >= n.freq
    ensures Last(Admit(s, n)).freq == n.freq
  {
    var p := AdmitPlace(s, n);
    if p < |s| {
      assert Admit(s, n)[|s|] == s[|s| - 1];
    }
  }

  /** Admitting an entry of frequency at least the last entry's leaves the
      last entry in place. */
  lemma AdmitKeepsLast<K, V>(s: seq<Node<K, V>>, n: Node<K, V>)
    requires |s| > 0 && Last(s).freq <= n.freq
    ensures Last(Admit(s, n)) == Last(s)
  {
    var p := AdmitPlace(s, n);
    assert Admit(s, n)[|s|] == s[|s| - 1];
  }

  /** Admitting an entry under a new key keeps the keys distinct and adds
      that key. */
  lemma AdmitKeys<K, V>(s: seq<Node<K, V>>, n: Node<K, V>)
    requires DistinctKeys(s) && n.key !in KeySet(s)
    ensures DistinctKeys(Admit(s, n))
    ensures KeySet(Admit(s, n)) == KeySet(s) + {n.key}
  {
    DistinctUnique(s);
    var p := AdmitPlace(s, n);
    var r := Admit(s, n);
    InsertUnique(s, n, p, r);
    InsertKeySet(s, n, p, r);
    UniqueDistinct(r);
  }

  /** Inserting an entry under a new key keeps the keys unique. */
  lemma InsertUnique<K, V>(s: seq<Node<K, V>>, n: Node<K, V>, p: nat, r: seq<Node<K, V>>)
    requires Unique(s) && n.key !in KeySet(s) && p <= |s| && r == LinkedList.InsertAt(s, p, n)
    ensures Unique(r)
  {
    forall a, b | 0 <= a < b < |r|
      ensures r[a].key != r[b].key
    {
      if b < p {
        assert r[a] == s[a] && r[b] == s[b];
      } else if a > p {
        assert r[a] == s[a - 1] && r[b] == s[b - 1];
      } else if a == p {
        assert r[b] == s[b - 1];
      } else if b == p {
        assert r[a] == s[a];
      } else {
        assert r[a] == s[a] && r[b] == s[b - 1];
      }
    }
  }

  /** Inserting an entry adds its key to the keys. */
  lemma InsertKeySet<K, V>(s: seq<Node<K, V>>, n: Node<K, V>, p: nat, r: seq<Node<K, V>>)
    requires p <= |s| && r == LinkedList.InsertAt(s, p, n)
    ensures KeySet(r) == KeySet(s) + {n.key}
  {
    forall k | k in KeySet(r)
      ensures k in KeySet(s) + {n.key}
    {
      var a :| 0 <= a < |r| && r[a].key == k;
      if a < p {
        assert r[a] == s[a];
      } else if a > p {
        assert r[a] == s[a - 1];
      }
    }
    forall k | k in KeySet(s)
      ensures k in KeySet(r)
    {
      var b :| 0 <= b < |s| && s[b].key == k;
      if b < p {
        assert r[b] == s[b];
      } else {
        assert r[b + 1] == s[b];
      }
    }
    assert r[p] == n;
  }

  /** Taking an entry out keeps the keys distinct and drops its key. */
  lemma RemoveKeys<K, V>(s: seq<Node<K, V>>, i: nat)
    requires i < |s| && DistinctKeys(s)
    ensures DistinctKeys(LinkedList.RemoveAt(s, i))
    ensures KeySet(LinkedList.RemoveAt(s, i)) == KeySet(s) - {s[i].key}
  {
    DistinctUnique(s);
    RemoveUnique(s, i);
    UniqueDistinct(LinkedList.RemoveAt(s, i));
    RemoveKeySet(s, i);
  }

  lemma RemoveUnique<K, V>(s: seq<Node<K, V>>, i: nat)
    requires i < |s| && Unique(s)
    ensures Unique(LinkedList.RemoveAt(s, i))
  {
    var r := LinkedList.RemoveAt(s, i);
    forall a, b | 0 <= a < b < |r|
      ensures r[a].key != r[b].key
    {
      if b < i {
      } else if a >= i {
        assert r[a] == s[a + 1] && r[b] == s[b + 1];
      } else {
        assert r[a] == s[a] && r[b] == s[b + 1];
      }
    }
  }

  lemma RemoveKeySet<K, V>(s: seq<Node<K, V>>, i: nat)
    requires i < |s| && Unique(s)
    ensures KeySet(LinkedList.RemoveAt(s, i)) == KeySet(s) - {s[i].key}
  {
    var r := LinkedList.RemoveAt(s, i);
    forall k | k in KeySet(r)
      ensures k in KeySet(s) - {s[i].key}
    {
      var a :| 0 <= a < |r| && r[a].key == k;
      if a < i {
        assert r[a] == s[a];
      } else {
        assert r[a] == s[a + 1];
      }
    }
    forall k | k in KeySet(s) - {s[i].key}
      ensures k in KeySet(r)
    {
      var b :| 0 <= b < |s| && s[b].key == k;
      if b < i {
        assert r[b] == s[b];
      } else {
        assert r[b - 1] == s[b];
      }
    }
  }

  /** Taking an entry out keeps the listing descending. */
  lemma RemoveDescending<K, V>(s: seq<Node<K, V>>, i: nat)
    requires i < |s| && Descending(s)
    ensures Descending(LinkedList.RemoveAt(s, i))
  {
  }

  /** A used entry stays listed once with its frequency one higher; every
      other entry keeps its key, value and frequency, and the listing stays
      descending. */
  lemma TouchDescending<K, V>(s: seq<Node<K, V>>, i: nat)
    requires i < |s| && Descending(s)
    ensures Descending(Touch(s, i))
  {
    RemoveDescending(s, i);
    AdmitDescending(LinkedList.RemoveAt(s, i), s[i].(freq := s[i].freq + 1));
  }

  /** Using an entry replaces it by its bumped copy and changes nothing
      else. */
  lemma TouchPermutes<K, V>(s: seq<Node<K, V>>, i: nat)
    requires i < |s|
    ensures multiset(Touch(s, i)) ==
              multiset(s) - multiset{s[i]} + multiset{s[i].(freq := s[i].freq + 1)}
  {
    var r := LinkedList.RemoveAt(s, i);
    AdmitPermutes(r, s[i].(freq := s[i].freq + 1));
    RemovePermutes(s, i, r);
  }

  /** Removing the entry at `i` takes exactly it out of the listing. */
  lemma RemovePermutes<K, V>(s: seq<Node<K, V>>, i: nat, r: seq<Node<K, V>>)
    requires i < |s| && r == LinkedList.RemoveAt(s, i)
    ensures multiset(r) == multiset(s) - multiset{s[i]}
  {
    assert s == s[..i] + [s[i]] + s[i + 1..];
    assert r == s[..i] + s[i + 1..];
  }

  /** Using an entry keeps the keys distinct and listed. */
  lemma TouchKeys<K, V>(s: seq<Node<K, V>>, i: nat)
    requires i < |s| && DistinctKeys(s)
    ensures DistinctKeys(Touch(s, i))
    ensures KeySet(Touch(s, i)) == KeySet(s)
  {
    RemoveKeys(s, i);
    AdmitKeys(LinkedList.RemoveAt(s, i), s[i].(freq := s[i].freq + 1));
    assert s[i].key in KeySet(s);
  }

  /** In a descending listing the last entry has the least frequency: the
      entry an LFU cache evicts. */
  lemma LastIsLeast<K, V>(s: seq<Node<K, V>>)
    requires |s| > 0 && Descending(s)
    ensures forall i :: 0 <= i < |s| ==> Last(s).freq <= s[i].freq
  {
  }

  /** The least frequency after an entry is used: it moves up by one exactly
      when the used entry was the only one at the least frequency. */
  lemma TouchLeast<K, V>(s: seq<Node<K, V>>, i: nat, alone: bool)
    requires i < |s| && Descending(s)
    requires alone <==> forall j :: 0 <= j < |s| && j != i ==> s[j].freq != s[i].freq
    ensures Last(Touch(s, i)).freq ==
              if s[i].freq == Last(s).freq && alone then Last(s).freq + 1 else Last(s).freq
  {
    var r := LinkedList.RemoveAt(s, i);
    var n := s[i].(freq := s[i].freq + 1);
    if s[i].freq == Last(s).freq && alone {
      LeastAlone(s, i, r, n);
    } else if s[i].freq == Last(s).freq {
      LeastShared(s, i, r, n);
    } else {
      LeastAbove(s, i, r, n);
    }
  }

  /** The only entry at the least frequency, used, is still the last one,
      one use higher. */
  lemma LeastAlone<K, V>(s: seq<Node<K, V>>, i: nat, r: seq<Node<K, V>>, n: Node<K, V>)
    requires i < |s| && Descending(s) && s[i].freq == Last(s).freq
    requires forall j :: 0 <= j < |s| && j != i ==> s[j].freq != s[i].freq
    requires r == LinkedList.RemoveAt(s, i) && n == s[i].(freq := s[i].freq + 1)
    ensures Last(Touch(s, i)).freq == Last(s).freq + 1
  {
    assert i == |s| - 1;
    RemoveDescending(s, i);
    forall j | 0 <= j < |r|
      ensures r[j].freq >= n.freq
    {
      assert r[j] == s[j];
    }
    AdmitLeast(r, n);
  }

  /** An entry at the least frequency that another entry shares, used,
      leaves the least frequency where it was. */
  lemma LeastShared<K, V>(s: seq<Node<K, V>>, i: nat, r: seq<Node<K, V>>, n: Node<K, V>)
    requires i < |s| && Descending(s) && s[i].freq == Last(s).freq
    requires exists j :: 0 <= j < |s| && j != i && s[j].freq == s[i].freq
    requires r == LinkedList.RemoveAt(s, i) && n == s[i].(freq := s[i].freq + 1)
    ensures Last(Touch(s, i)).freq == Last(s).freq
  {
    var j :| 0 <= j < |s| && j != i && s[j].freq == s[i].freq;
    var y := if j < i then j else j - 1;
    assert r[y] == s[j];
    assert Last(r) == s[|s| - 1] || Last(r) == s[|s| - 2];
    AdmitKeepsLast(r, n);
  }

  /** An entry above the least frequency, used, leaves the last entry
      last. */
  lemma LeastAbove<K, V>(s: seq<Node<K, V>>, i: nat, r: seq<Node<K, V>>, n: Node<K, V>)
    requires i < |s| && Descending(s) && s[i].freq != Last(s).freq
    requires r == LinkedList.RemoveAt(s, i) && n == s[i].(freq := s[i].freq + 1)
    ensures Last(Touch(s, i)).freq == Last(s).freq
  {
    assert i != |s| - 1;
    assert Last(r) == s[|s| - 1];
    AdmitKeepsLast(r, n);
  }

  /** Distinct keys count the listing: as many keys as entries. */
  lemma {:induction false} KeyCount<K, V>(s: seq<Node<K, V>>)
    requires DistinctKeys(s)
    ensures |KeySet(s)| == |s|
  {
    if s != [] {
      var t := s[1..];
      KeyCount(t);
      assert KeySet(s) == {s[0].key} + KeySet(t) by {
        forall k | k in KeySet(s)
          ensures k in {s[0].key} + KeySet(t)
        {
          var i :| 0 <= i < |s| && s[i].key == k;
          if i > 0 {
            assert t[i - 1].key == k;
          }
        }
        forall k | k in KeySet(t)
          ensures k in KeySet(s)
        {
          var i :| 0 <= i < |t| && t[i].key == k;
          assert s[i + 1].key == k;
        }
      }
    }
  }
}
