/**
 A sentinel-based, circular, doubly linked list whose elements are handles
 (heap objects) that callers keep and later pass back to insert next to or
 to remove.

 The list object owns a sentinel element `root`: `root.next` is the front,
 `root.prev` is the back, and the back's `next` (like the front's `prev`) is
 the sentinel again, so the ring has no null links while an element is in
 it. The ghost sequence `Nodes` is the list's abstract value: its elements
 from front to back, without the sentinel.
 */
module LinkedList {

  /** An element of a list: its two links and the value stored with it. */
  class Element<T> {
    var next: Element?<T>
    var prev: Element?<T>
    var Value: T

    /** A detached element: both links are null until a list links it in. */
    constructor (v: T)
      ensures next == null && prev == null && Value == v
    {
      next := null;
      prev := null;
      Value := v;
    }

    /** The sentinel of an empty list: linked to itself in both directions. */
    constructor Sentinel(v: T)
      ensures next == this && prev == this && Value == v
    {
      Value := v;
      new;
      next := this;
      prev := this;
    }

    function Next(): Element?<T>
      reads this
    {
      next
    }

    function Prev(): Element?<T>
      reads this
    {
      prev
    }
  }

  class List<T(0)> {
    var root: Element<T>
    var len: int
    ghost var Nodes: seq<Element<T>>
    ghost var Values: seq<T>
    ghost var Repr: set<object>

    /** The ring invariant: `len` counts `Nodes`, the nodes are distinct and
        never the sentinel, and every link points at the neighbour that
        `Nodes` puts there, the sentinel closing the ring at both ends. */
    ghost predicate Valid()
      reads this, Repr
    {
      && this in Repr
      && root in Repr
      && (forall i :: 0 <= i < |Nodes| ==> Nodes[i] in Repr)
      && root !in Nodes
      && Distinct(Nodes)
      && len == |Nodes|
      && Ring(Nodes, root)
      && |Values| == |Nodes|
      && (forall i :: 0 <= i < |Nodes| ==> Nodes[i].Value == Values[i])
    }

    /** The position just behind `mark` (the sentinel stands before position 0):
        where an element inserted after `mark` lands. */
    ghost function After(mark: Element<T>): (k: nat)
      requires Valid()
      requires mark == root || mark in Nodes
      reads this, Repr
      ensures k <= |Nodes|
      ensures mark == root ==> k == 0
      ensures mark != root ==> 0 < k && Nodes[k - 1] == mark
    {
      if mark == root then 0
      else
        var i :| 0 <= i < |Nodes| && Nodes[i] == mark;
        i + 1
    }

    /** The position of `mark` (the sentinel stands behind the last
        position): where an element inserted before `mark` lands. */
    ghost function Before(mark: Element<T>): (k: nat)
      requires Valid()
      requires mark == root || mark in Nodes
      reads this, Repr
      ensures k <= |Nodes|
      ensures mark == root ==> k == |Nodes|
      ensures mark != root ==> k < |Nodes| && Nodes[k] == mark
    {
      if mark == root then |Nodes| else After(mark) - 1
    }

    /** NewList: an empty ring made of the sentinel alone. */
    constructor ()
      ensures Valid() && fresh(Repr)
      ensures Nodes == [] && len == 0
    {
      var zero: T := *;
      root := new Element.Sentinel(zero);
      len := 0;
      Nodes := [];
      Values := [];
      new;
      Repr := {this, root};
    }

    /** Links `first` to `second` (`first.next` and `second.prev`), nothing else. */
    static method NodeConnection(first: Element<T>, second: Element<T>)
      modifies first`next, second`prev
      ensures first.next == second && second.prev == first
    {
      first.next := second;
      second.prev := first;
    }

    /** Links a fresh element holding `v` in just behind `dst` and counts it. */
    method Insert(v: T, dst: Element<T>) returns (el: Element<T>)
      requires Valid()
      requires dst == root || dst in Nodes
      modifies Repr
      ensures Valid() && fresh(el) && Repr == old(Repr) + {el}
      ensures el.Value == v
      ensures Nodes == InsertAt(old(Nodes), old(After(dst)), el)
      ensures Values == InsertAt(old(Values), old(After(dst)), v)
      ensures root == old(root)
    {
      ghost var k: int := After(dst);
      ghost var ns := Nodes;
      el := new Element(v);
      Splice(ns, root, k, dst, el);
      DistinctInsertAt(ns, k, el);
      ValuesInsertAt(ns, Values, k, el);
      MembersInsertAt(ns, k, el, Repr, root);
      len, Nodes, Values, Repr := len + 1, InsertAt(ns, k, el), InsertAt(Values, k, v), Repr + {el};
    }

    /** Links the detached `el` in between `dst` (position `k - 1`, or the
        sentinel) and its successor, touching only those links. */
    static method Splice(ghost ns: seq<Element<T>>, root: Element<T>, ghost k: int, dst: Element<T>, el: Element<T>)
      requires 0 <= k <= |ns| && root !in ns && Distinct(ns) && el !in ns && el != root
      requires Ring(ns, root) && dst == Pred(ns, root, k)
      modifies dst`next, el`next, el`prev, Succ(ns, root, k - 1)`prev
      ensures Ring(InsertAt(ns, k, el), root)
    {
      var succ := dst.next;
      NodeConnection(el, succ);
      NodeConnection(dst, el);
      RingAfterInsert(ns, root, k, el);
    }

    /** Unlinks `el`; an element whose links are already null (it was removed
        before) is silently left alone. */
    method Unlink(el: Element<T>)
      requires Valid()
      requires el in Nodes || el.prev == null || el.next == null
      modifies Repr
      ensures Valid() && root == old(root)
      ensures old(el.prev == null || el.next == null) ==>
                Nodes == old(Nodes) && Repr == old(Repr) && len == old(len)
                && Values == old(Values)
      ensures old(el.prev != null && el.next != null) ==>
                && Nodes == RemoveAt(old(Nodes), old(Before(el)))
                && Values == RemoveAt(old(Values), old(Before(el)))
                && Repr == old(Repr) - {el}
                && el.next == null && el.prev == null
      ensures el.Value == old(el.Value)
    {
      if el.prev == null || el.next == null {
        return;
      }
      ghost var k := Before(el);
      ghost var ns := Nodes;
      Bypass(ns, root, k, el);
      DistinctRemoveAt(ns, k);
      len, Nodes, Values, Repr := len - 1, RemoveAt(ns, k), RemoveAt(Values, k), Repr - {el};
    }

    /** Links the neighbours of `el` (position `k`) to each other and clears
        `el`'s links, touching nothing else. */
    static method Bypass(ghost ns: seq<Element<T>>, root: Element<T>, ghost k: int, el: Element<T>)
      requires 0 <= k < |ns| && root !in ns && Distinct(ns)
      requires Ring(ns, root) && el == ns[k]
      modifies Pred(ns, root, k)`next, Succ(ns, root, k)`prev, el`next, el`prev
      ensures Ring(RemoveAt(ns, k), root)
      ensures el.next == null && el.prev == null
    {
      var before, after := el.prev, el.next;
      NodeConnection(before, after);
      el.next := null;
      el.prev := null;
      RingAfterRemove(ns, root, k);
    }

    /** The sentinel: never an element of the list. */
    method Root() returns (r: Element<T>)
      requires Valid()
      ensures r == root && r !in Nodes
    {
      r := root;
    }

    method Len() returns (n: int)
      requires Valid()
      ensures n == |Nodes|
    {
      n := len;
    }

    /** The first element, or null for an empty list. */
    method Front() returns (e: Element?<T>)
      requires Valid()
      ensures e == if |Nodes| == 0 then null else Nodes[0]
    {
      if len == 0 {
        return null;
      }
      e := root.next;
    }

    /** The last element, or null for an empty list. */
    method Back() returns (e: Element?<T>)
      requires Valid()
      ensures e == if |Nodes| == 0 then null else Nodes[|Nodes| - 1]
    {
      if len == 0 {
        return null;
      }
      e := root.prev;
    }

    method PushFront(v: T) returns (el: Element<T>)
      requires Valid()
      modifies Repr
      ensures Valid() && fresh(el) && Repr == old(Repr) + {el} && root == old(root)
      ensures el.Value == v
      ensures Nodes == [el] + old(Nodes)
      ensures Values == [v] + old(Values)
    {
      el := Insert(v, root);
    }

    method PushBack(v: T) returns (el: Element<T>)
      requires Valid()
      modifies Repr
      ensures Valid() && fresh(el) && Repr == old(Repr) + {el} && root == old(root)
      ensures el.Value == v
      ensures Nodes == old(Nodes) + [el]
      ensures Values == old(Values) + [v]
    {
      el := Insert(v, root.prev);
    }

    /** InsertAfter: `mark` is an element of the list or its sentinel (then
        this is PushFront). */
    method InsertAfter(v: T, mark: Element<T>) returns (el: Element<T>)
      requires Valid()
      requires mark == root || mark in Nodes
      modifies Repr
      ensures Valid() && fresh(el) && Repr == old(Repr) + {el} && root == old(root)
      ensures el.Value == v
      ensures Nodes == InsertAt(old(Nodes), old(After(mark)), el)
      ensures Values == InsertAt(old(Values), old(After(mark)), v)
    {
      el := Insert(v, mark);
    }

    /** InsertBefore: `mark` is an element of the list or its sentinel (then
        this is PushBack). */
    method InsertBefore(v: T, mark: Element<T>) returns (el: Element<T>)
      requires Valid()
      requires mark == root || mark in Nodes
      modifies Repr
      ensures Valid() && fresh(el) && Repr == old(Repr) + {el} && root == old(root)
      ensures el.Value == v
      ensures Nodes == InsertAt(old(Nodes), old(Before(mark)), el)
      ensures Values == InsertAt(old(Values), old(Before(mark)), v)
    {
      ghost var k := Before(mark);
      assert mark.prev == if k == 0 then root else Nodes[k - 1];
      el := Insert(v, mark.prev);
    }

    /** Removes `el` (a no-op for an already detached element) and returns its value. */
    method Remove(el: Element<T>) returns (v: T)
      requires Valid()
      requires el in Nodes || el.prev == null || el.next == null
      modifies Repr
      ensures Valid() && root == old(root)
      ensures v == old(el.Value) && el.Value == old(el.Value)
      ensures old(el.prev == null || el.next == null) ==>
                Nodes == old(Nodes) && Repr == old(Repr) && len == old(len)
                && Values == old(Values)
      ensures old(el.prev != null && el.next != null) ==>
                && Nodes == RemoveAt(old(Nodes), old(Before(el)))
                && Values == RemoveAt(old(Values), old(Before(el)))
                && Repr == old(Repr) - {el}
                && el.next == null && el.prev == null
    {
      Unlink(el);
      v := el.Value;
    }

    /** What the forward iterator yields, in order, before it reports false. */
    method IterateNext() returns (els: seq<Element<T>>)
      requires Valid()
      ensures els == Nodes
    {
      var current := Front();
      els := [];
      while current != null && current != root
        invariant |els| <= |Nodes| && els == Nodes[..|els|]
        invariant |Nodes| == 0 ==> current == null
        invariant |Nodes| > 0 ==> current == if |els| < |Nodes| then Nodes[|els|] else root
        decreases |Nodes| - |els|
      {
        assert current == Nodes[|els|];
        els := els + [current];
        current := current.next;
      }
    }

    /** What the backward iterator yields, in order, before it reports false. */
    method IteratePrev() returns (els: seq<Element<T>>)
      requires Valid()
      ensures els == Reversed(Nodes)
    {
      var current := Back();
      els := [];
      ghost var n := |Nodes|;
      while current != null && current != root
        invariant |els| <= n
        invariant forall i :: 0 <= i < |els| ==> els[i] == Nodes[n - 1 - i]
        invariant n == 0 ==> current == null
        invariant n > 0 ==> current == if |els| < n then Nodes[n - 1 - |els|] else root
        decreases n - |els|
      {
        assert current == Nodes[n - 1 - |els|];
        els := els + [current];
        current := current.prev;
      }
      ReversedAt(Nodes, els);
    }

    /** Every link of the ring comes back: `x.next.prev == x` and
        `x.prev.next == x` for the sentinel and every element. */
    lemma RingConsistent()
      requires Valid()
      ensures root.next != null && root.next.prev == root
      ensures root.prev != null && root.prev.next == root
      ensures forall i :: 0 <= i < |Nodes| ==>
                Nodes[i].next != null && Nodes[i].next.prev == Nodes[i]
      ensures forall i :: 0 <= i < |Nodes| ==>
                Nodes[i].prev != null && Nodes[i].prev.next == Nodes[i]
    {
      if |Nodes| > 0 {
        assert Nodes[0].prev == root;
        assert Nodes[|Nodes| - 1].next == root;
      }
      forall i | 0 <= i < |Nodes|
        ensures Nodes[i].next != null && Nodes[i].next.prev == Nodes[i]
        ensures Nodes[i].prev != null && Nodes[i].prev.next == Nodes[i]
      {
        if i + 1 < |Nodes| {
          assert Nodes[i + 1].prev == Nodes[i];
        }
        if i > 0 {
          assert Nodes[i - 1].next == Nodes[i];
        }
      }
    }

    /** `Next` walks the list front to back and ends at the sentinel; `Prev`
        walks it back to front. */
    lemma NextPrevOfMember(i: nat)
      requires Valid()
      requires i < |Nodes|
      ensures Nodes[i].Next() == if i + 1 < |Nodes| then Nodes[i + 1] else root
      ensures Nodes[i].Prev() == if i == 0 then root else Nodes[i - 1]
    {
    }
  }

  /** No element occurs twice. */
  ghost predicate Distinct<T>(ns: seq<T>)
  {
    forall i, j :: 0 <= i < j < |ns| ==> ns[i] != ns[j]
  }

  /** Inserting `el` into the nodes and its value into their values at the
      same position keeps every node paired with its value. */
  lemma ValuesInsertAt<T>(ns: seq<Element<T>>, vs: seq<T>, k: nat, el: Element<T>)
    requires k <= |ns| == |vs| && forall i :: 0 <= i < |ns| ==> ns[i].Value == vs[i]
    ensures forall i :: 0 <= i < |ns| + 1 ==> InsertAt(ns, k, el)[i].Value == InsertAt(vs, k, el.Value)[i]
  {
  }

  /** Inserting `el` keeps every node within `r` once `el` joins it, and
      keeps the sentinel out. */
  lemma MembersInsertAt<T>(ns: seq<Element<T>>, k: nat, el: Element<T>, r: set<object>, root: Element<T>)
    requires k <= |ns| && (forall i :: 0 <= i < |ns| ==> ns[i] in r) && root !in ns && el != root
    ensures forall i :: 0 <= i < |ns| + 1 ==> InsertAt(ns, k, el)[i] in r + {el}
    ensures root !in InsertAt(ns, k, el)
  {
  }

  /** `s` with `x` placed at position `k`. */
  function InsertAt<T>(s: seq<T>, k: nat, x: T): (r: seq<T>)
    requires k <= |s|
    ensures |r| == |s| + 1 && r[k] == x
    ensures forall i :: 0 <= i < k ==> r[i] == s[i]
    ensures forall i :: k < i < |r| ==> r[i] == s[i - 1]
  {
    s[..k] + [x] + s[k..]
  }

  /** `s` without the element at position `k`. */
  function RemoveAt<T>(s: seq<T>, k: nat): (r: seq<T>)
    requires k < |s|
    ensures |r| == |s| - 1
    ensures forall i :: 0 <= i < k ==> r[i] == s[i]
    ensures forall i :: k <= i < |r| ==> r[i] == s[i + 1]
  {
    s[..k] + s[k + 1..]
  }

  /** Removing the last element drops it from the back. */
  lemma RemoveLast<T>(s: seq<T>)
    requires |s| > 0
    ensures RemoveAt(s, |s| - 1) == s[..|s| - 1]
  {
  }

  lemma DistinctInsertAt<T>(s: seq<T>, k: nat, x: T)
    requires k <= |s| && Distinct(s) && x !in s
    ensures Distinct(InsertAt(s, k, x))
  {
    var r := InsertAt(s, k, x);
    forall i, j | 0 <= i < j < |r|
      ensures r[i] != r[j]
    {
      if j < k {
      } else if i > k {
      } else if i == k {
        assert r[j] == s[j - 1];
      } else if j == k {
        assert r[i] == s[i];
      } else {
        assert r[i] == s[i] && r[j] == s[j - 1];
      }
    }
  }

  lemma DistinctRemoveAt<T>(s: seq<T>, k: nat)
    requires k < |s| && Distinct(s)
    ensures Distinct(RemoveAt(s, k)) && s[k] !in RemoveAt(s, k)
  {
    var r := RemoveAt(s, k);
    forall i, j | 0 <= i < j < |r|
      ensures r[i] != r[j]
    {
      if j < k {
      } else if i >= k {
        assert r[i] == s[i + 1] && r[j] == s[j + 1];
      } else {
        assert r[i] == s[i] && r[j] == s[j + 1];
      }
    }
    forall i | 0 <= i < |r|
      ensures r[i] != s[k]
    {
      if i < k {
      } else {
        assert r[i] == s[i + 1];
      }
    }
  }

  /** The element behind position `i` of `ns` in a ring closed by `root`
      (position -1 is the sentinel's). */
  function Succ<T>(ns: seq<Element<T>>, root: Element<T>, i: int): Element<T>
    requires -1 <= i < |ns|
  {
    if i + 1 < |ns| then ns[i + 1] else root
  }

  /** The element in front of position `i` of `ns` in a ring closed by `root`
      (position |ns| is the sentinel's). */
  function Pred<T>(ns: seq<Element<T>>, root: Element<T>, i: int): Element<T>
    requires 0 <= i <= |ns|
  {
    if i == 0 then root else ns[i - 1]
  }

  /** The links of `root` and of the elements `ns` form the ring
      root, ns[0], ..., ns[|ns| - 1], root in both directions. */
  ghost predicate Ring<T>(ns: seq<Element<T>>, root: Element<T>)
    reads root, ns
  {
    && root.next == Succ(ns, root, -1)
    && root.prev == Pred(ns, root, |ns|)
    && (forall i {:trigger ns[i].next} :: 0 <= i < |ns| ==> ns[i].next == Succ(ns, root, i))
    && (forall i {:trigger ns[i].prev} :: 0 <= i < |ns| ==> ns[i].prev == Pred(ns, root, i))
  }

  /** Once a fresh `el` is linked in at position `k` (between the sentinel
      or `ns[k - 1]` and `ns[k]` or the sentinel) while every other link
      still follows the ring of `ns`, the links form the ring of
      `InsertAt(ns, k, el)`. */
  lemma RingAfterInsert<T>(ns: seq<Element<T>>, root: Element<T>, k: int, el: Element<T>)
    requires 0 <= k <= |ns| && root !in ns && Distinct(ns) && el !in ns && el != root
    requires el.prev == Pred(ns, root, k) && el.next == Succ(ns, root, k - 1)
    requires Pred(ns, root, k).next == el && Succ(ns, root, k - 1).prev == el
    requires root != Pred(ns, root, k) ==> root.next == Succ(ns, root, -1)
    requires root != Succ(ns, root, k - 1) ==> root.prev == Pred(ns, root, |ns|)
    requires forall i :: 0 <= i < |ns| && ns[i] != Pred(ns, root, k) ==> ns[i].next == Succ(ns, root, i)
    requires forall i :: 0 <= i < |ns| && ns[i] != Succ(ns, root, k - 1) ==> ns[i].prev == Pred(ns, root, i)
    ensures Ring(InsertAt(ns, k, el), root)
  {
    var r := InsertAt(ns, k, el);
    forall i | 0 <= i < |r|
      ensures r[i].next == Succ(r, root, i)
    {
      if i < k - 1 {
        assert r[i] == ns[i] && r[i + 1] == ns[i + 1];
        assert ns[i] != ns[k - 1];
      } else if i == k - 1 {
        assert r[i] == ns[k - 1];
      } else if i > k {
        assert r[i] == ns[i - 1];
        assert k == 0 || ns[i - 1] != ns[k - 1];
        assert i + 1 < |r| ==> r[i + 1] == ns[i];
      }
    }
    forall i | 0 <= i < |r|
      ensures r[i].prev == Pred(r, root, i)
    {
      if i < k {
        assert r[i] == ns[i];
        assert k < |ns| ==> ns[i] != ns[k];
        assert i > 0 ==> r[i - 1] == ns[i - 1];
      } else if i == k + 1 {
        assert r[i] == ns[k];
      } else if i > k + 1 {
        assert r[i] == ns[i - 1] && r[i - 1] == ns[i - 2];
        assert ns[i - 1] != ns[k];
      }
    }
  }

  /** Once the neighbours of `ns[k]` are linked to each other while every
      other link still follows the ring of `ns`, the links form the ring of
      `RemoveAt(ns, k)`. */
  lemma RingAfterRemove<T>(ns: seq<Element<T>>, root: Element<T>, k: int)
    requires 0 <= k < |ns| && root !in ns && Distinct(ns)
    requires Pred(ns, root, k).next == Succ(ns, root, k)
    requires Succ(ns, root, k).prev == Pred(ns, root, k)
    requires root != Pred(ns, root, k) ==> root.next == Succ(ns, root, -1)
    requires root != Succ(ns, root, k) ==> root.prev == Pred(ns, root, |ns|)
    requires forall i :: 0 <= i < |ns| && i != k && ns[i] != Pred(ns, root, k) ==> ns[i].next == Succ(ns, root, i)
    requires forall i :: 0 <= i < |ns| && i != k && ns[i] != Succ(ns, root, k) ==> ns[i].prev == Pred(ns, root, i)
    ensures Ring(RemoveAt(ns, k), root)
  {
    var r := RemoveAt(ns, k);
    forall i | 0 <= i < |r|
      ensures r[i].next == Succ(r, root, i)
    {
      if i < k - 1 {
        assert r[i] == ns[i] && r[i + 1] == ns[i + 1];
        assert ns[i] != ns[k - 1];
      } else if i == k - 1 {
        assert r[i] == ns[k - 1];
        assert k + 1 < |ns| ==> r[k] == ns[k + 1];
      } else {
        assert r[i] == ns[i + 1];
        assert k == 0 || ns[i + 1] != ns[k - 1];
        assert i + 1 < |r| ==> r[i + 1] == ns[i + 2];
      }
    }
    forall i | 0 <= i < |r|
      ensures r[i].prev == Pred(r, root, i)
    {
      if i < k {
        assert r[i] == ns[i];
        assert k + 1 < |ns| ==> ns[i] != ns[k + 1];
        assert i > 0 ==> r[i - 1] == ns[i - 1];
      } else if i == k {
        assert r[i] == ns[k + 1];
        assert k > 0 ==> r[k - 1] == ns[k - 1];
      } else {
        assert r[i] == ns[i + 1] && r[i - 1] == ns[i];
        assert ns[i + 1] != ns[k + 1];
      }
    }
  }

  function Reversed<T>(s: seq<T>): (r: seq<T>)
  {
    if s == [] then [] else Reversed(s[1..]) + [s[0]]
  }

  lemma {:induction false} ReversedIndex<T>(s: seq<T>, i: nat)
    requires i < |s|
    ensures |Reversed(s)| == |s| && Reversed(s)[i] == s[|s| - 1 - i]
  {
    ReversedLength(s);
    if i < |s| - 1 {
      ReversedIndex(s[1..], i);
    }
  }

  lemma {:induction false} ReversedLength<T>(s: seq<T>)
    ensures |Reversed(s)| == |s|
  {
    if s != [] {
      ReversedLength(s[1..]);
    }
  }

  /** A sequence that holds `s`'s elements last-first is `Reversed(s)`. */
  lemma ReversedAt<T>(s: seq<T>, r: seq<T>)
    requires |r| == |s|
    requires forall i :: 0 <= i < |r| ==> r[i] == s[|s| - 1 - i]
    ensures r == Reversed(s)
  {
    ReversedLength(s);
    forall i | 0 <= i < |r|
      ensures r[i] == Reversed(s)[i]
    {
      ReversedIndex(s, i);
    }
  }
}
