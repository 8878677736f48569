/** The intrusive circular list: the head is itself a link of the ring. */
module CircularList {
  import opened Sets

  class Link {
    var next: Link?
    var prev: Link?

    constructor ()
      ensures next == null && prev == null
    {
      next, prev := null, null;
    }
  }

  ghost function After(r: seq<Link>, i: int): Link
    requires 0 <= i < |r|
  {
    if i + 1 < |r| then r[i + 1] else r[0]
  }

  ghost function Before(r: seq<Link>, i: int): Link
    requires 0 <= i < |r|
  {
    if i > 0 then r[i - 1] else r[|r| - 1]
  }

  /** The links of r form a ring in this order. */
  ghost predicate IsRing(r: seq<Link>)
    reads r
  {
    && Distinct(r)
    && (forall i {:trigger r[i].next} :: 0 <= i < |r| ==> r[i].next == After(r, i))
    && (forall i {:trigger r[i].prev} :: 0 <= i < |r| ==> r[i].prev == Before(r, i))
  }

  /** The list at `head` has the elements s. */
  ghost predicate IsList(head: Link, s: seq<Link>)
    reads head, s
  {
    IsRing([head] + s)
  }

  ghost function RemoveAt(s: seq<Link>, k: nat): seq<Link>
    requires k < |s|
  {
    s[..k] + s[k + 1..]
  }

  /** `kapi_list_init`. */
  method Init(head: Link)
    modifies head
    ensures IsList(head, [])
  {
    head.next := head;
    head.prev := head;
  }

  /** Two different places of a ring hold different links. */
  lemma Differ(r: seq<Link>, k: nat)
    requires k < |r| && Distinct(r)
    ensures forall i :: 0 <= i < |r| && i != k ==> r[i] != r[k]
  {}

  lemma Wider(r: seq<Link>, k: nat, link: Link)
    requires k < |r| && Distinct(r) && link !in r
    ensures var t := r[..k + 1] + [link] + r[k + 1..];
            && |t| == |r| + 1 && t[k + 1] == link && Distinct(t)
            && (forall i :: 0 <= i <= k ==> t[i] == r[i]) && (forall i :: k + 1 < i < |t| ==> t[i] == r[i - 1])
  {}

  lemma Narrower(r: seq<Link>, k: nat)
    requires 0 < k < |r| && Distinct(r)
    ensures var t := r[..k] + r[k + 1..];
            && |t| == |r| - 1 && r[k] !in t && Distinct(t)
            && (forall i :: 0 <= i < k ==> t[i] == r[i]) && (forall i :: k <= i < |t| ==> t[i] == r[i + 1])
  {}

  /** `__kapi_list_add`: into the ring r, between its k-th link and the one after it. */
  method InsertBetween(link: Link, prev: Link, next: Link, ghost r: seq<Link>, ghost k: nat)
    requires IsRing(r) && k < |r| && link !in r
    requires prev == r[k] && next == if k + 1 < |r| then r[k + 1] else r[0]
    modifies link, prev, next
    ensures IsRing(r[..k + 1] + [link] + r[k + 1..])
  {
    hide Distinct;
    ghost var t, n := r[..k + 1] + [link] + r[k + 1..], if k + 1 < |r| then k + 1 else 0;
    Wider(r, k, link);
    Differ(r, k);
    Differ(r, n);
    next.prev := link;
    link.next := next;
    link.prev := prev;
    prev.next := link;
    forall i | 0 <= i < |t| ensures t[i].next == After(t, i) && t[i].prev == Before(t, i) {
      if i != k + 1 {
        ghost var j := if i <= k then i else i - 1;
        assert t[i] == r[j] && r[j] != link && (j != k ==> r[j] != prev) && (j != n ==> r[j] != next);
      }
    }
  }

  /** The ring of a list, and the rings with a link behind the head or before it. */
  lemma AddedEnds(head: Link, s: seq<Link>, link: Link)
    ensures var r := [head] + s;
            && r[0] == head && (forall i :: 0 <= i < |s| ==> r[i + 1] == s[i])
            && (link != head && link !in s ==> link !in r)
            && r[..1] + [link] + r[1..] == [head] + ([link] + s)
            && r[..|s| + 1] + [link] + r[|s| + 1..] == [head] + (s + [link])
  {
    var r := [head] + s;
    assert r[..1] == [head] && r[1..] == s && r[..|s| + 1] == r && r[|s| + 1..] == [];
  }

  /** `kapi_list_add`: a new first element. */
  method Add(link: Link, head: Link, ghost s: seq<Link>)
    requires IsList(head, s) && link != head && link !in s
    modifies link, head, s
    ensures IsList(head, [link] + s)
  {
    hide Distinct;
    ghost var r := [head] + s;
    AddedEnds(head, s, link);
    InsertBetween(link, head, head.next, r, 0);
  }

  /** `kapi_list_add_tail`: a new last element. */
  method AddTail(link: Link, head: Link, ghost s: seq<Link>)
    requires IsList(head, s) && link != head && link !in s
    modifies link, head, s
    ensures IsList(head, s + [link])
  {
    hide Distinct;
    ghost var r := [head] + s;
    AddedEnds(head, s, link);
    assert head.prev == r[|s|];
    InsertBetween(link, head.prev, head, r, |s|);
  }

  /** `__kapi_list_del`: the ring r without its k-th link, which lies between `prev` and `next`. */
  method JoinAround(prev: Link, next: Link, ghost r: seq<Link>, ghost k: nat)
    requires IsRing(r) && 0 < k < |r| && prev == r[k - 1] && next == After(r, k)
    modifies prev, next
    ensures IsRing(r[..k] + r[k + 1..])
    ensures r[k] != prev && r[k] != next
  {
    hide Distinct;
    ghost var t, n := r[..k] + r[k + 1..], if k + 1 < |r| then k + 1 else 0;
    Narrower(r, k);
    Differ(r, k);
    Differ(r, k - 1);
    Differ(r, n);
    next.prev := prev;
    prev.next := next;
    forall i | 0 <= i < |t| ensures t[i].next == After(t, i) && t[i].prev == Before(t, i) {
      ghost var j := if i < k then i else i + 1;
      assert t[i] == r[j] && (j != k - 1 ==> r[j] != prev) && (j != n ==> r[j] != next);
    }
  }

  lemma RingWithout(head: Link, s: seq<Link>, k: nat)
    requires k < |s|
    ensures var r := [head] + s; [head] + RemoveAt(s, k) == r[..k + 1] + r[k + 2..]
  {
    var r := [head] + s;
    assert r[..k + 1] == [head] + s[..k] && r[k + 2..] == s[k + 1..];
  }

  /** `kapi_list_del`: takes element k out, without knowing the head. */
  method Del(entry: Link, ghost head: Link, ghost s: seq<Link>, ghost k: nat)
    requires IsList(head, s) && k < |s| && entry == s[k]
    modifies entry, head, s
    ensures IsList(head, RemoveAt(s, k))
    ensures entry.next == null && entry.prev == null
  {
    hide Distinct;
    ghost var r := [head] + s;
    assert r[0] == head && forall i :: 0 <= i < |s| ==> r[i + 1] == s[i];
    assert r[k + 1] == entry && entry.prev == Before(r, k + 1) && entry.next == After(r, k + 1);
    JoinAround(entry.prev, entry.next, r, k + 1);
    ghost var t := [head] + RemoveAt(s, k);
    RingWithout(head, s, k);
    assert entry !in t by { Narrower(r, k + 1); }
    entry.next := null;
    entry.prev := null;
  }

  /** `kapi_list_empty`. */
  method IsEmpty(head: Link, ghost s: seq<Link>) returns (empty: bool)
    requires IsList(head, s)
    ensures empty <==> s == []
  {
    ghost var r := [head] + s;
    assert r[0] == head;
    if s != [] { assert r[1] == s[0] && r[0] != r[1]; }
    empty := head.next == head;
  }

  /** The elements of s that are not in `drop`, in order. */
  ghost function Without(s: seq<Link>, drop: set<Link>): seq<Link> {
    if s == [] then []
    else Without(s[..|s| - 1], drop) + if s[|s| - 1] in drop then [] else [s[|s| - 1]]
  }

  lemma {:induction false} WithoutElements(s: seq<Link>, drop: set<Link>)
    ensures forall k :: 0 <= k < |Without(s, drop)| ==> Without(s, drop)[k] in s && Without(s, drop)[k] !in drop
    ensures |Without(s, drop)| <= |s|
  {
    if s != [] {
      var u := s[..|s| - 1];
      WithoutElements(u, drop);
      forall k | 0 <= k < |Without(s, drop)| ensures Without(s, drop)[k] in s && Without(s, drop)[k] !in drop {
        if k < |Without(u, drop)| {
          var j :| 0 <= j < |u| && u[j] == Without(u, drop)[k];
          assert s[j] == u[j];
        }
      }
    }
  }

  /** What follows element i of a list. */
  lemma NextOf(head: Link, s: seq<Link>, i: nat)
    requires IsList(head, s) && i <= |s|
    ensures i < |s| ==> s[i].next == if i + 1 < |s| then s[i + 1] else head
    ensures head.next == if s == [] then head else s[0]
    ensures i < |s| ==> s[i] != head
  {
    var r := [head] + s;
    assert r[0] == head && forall j :: 0 <= j < |s| ==> r[j + 1] == s[j];
    if i < |s| { assert r[i + 1].next == After(r, i + 1); }
  }

  /** The list after i elements have been visited. */
  ghost function Rest(s: seq<Link>, drop: set<Link>, i: nat): seq<Link>
    requires i <= |s|
  {
    Without(s[..i], drop) + s[i..]
  }

  lemma WithoutNext(s: seq<Link>, drop: set<Link>, i: nat)
    requires i < |s|
    ensures Without(s[..i + 1], drop) == Without(s[..i], drop) + if s[i] in drop then [] else [s[i]]
  {
    assert s[..i + 1][..i] == s[..i];
  }

  lemma RestStep(s: seq<Link>, drop: set<Link>, i: nat)
    requires i < |s|
    ensures var k := |Without(s[..i], drop)|;
            && k < |Rest(s, drop, i)| && Rest(s, drop, i)[k] == s[i]
            && Rest(s, drop, i + 1) == (if s[i] in drop then RemoveAt(Rest(s, drop, i), k) else Rest(s, drop, i))
            && (i + 1 < |s| ==> k + 1 < |Rest(s, drop, i)| && Rest(s, drop, i)[k + 1] == s[i + 1])
            && (i + 1 == |s| ==> k + 1 == |Rest(s, drop, i)|)
  {
    hide Without;
    WithoutNext(s, drop, i);
    assert s[i..] == [s[i]] + s[i + 1..];
  }

  lemma RestWithin(s: seq<Link>, drop: set<Link>, i: nat)
    requires i <= |s|
    ensures forall k :: 0 <= k < |Rest(s, drop, i)| ==> Rest(s, drop, i)[k] in s
  {
    var w := Without(s[..i], drop);
    WithoutElements(s[..i], drop);
    forall k | 0 <= k < |Rest(s, drop, i)| ensures Rest(s, drop, i)[k] in s {
      if k < |w| {
        var j :| 0 <= j < i && s[..i][j] == w[k];
        assert s[j] == w[k];
      } else {
        assert Rest(s, drop, i)[k] == s[i + (k - |w|)];
      }
    }
  }

  /** The loop body: delete the element if it is in `drop`. */
  method VisitOne(pos: Link, head: Link, drop: set<Link>, ghost s: seq<Link>, ghost i: nat)
    requires i < |s| && pos == s[i] && IsList(head, Rest(s, drop, i))
    modifies head, s
    ensures IsList(head, Rest(s, drop, i + 1))
  {
    RestStep(s, drop, i);
    RestWithin(s, drop, i);
    if pos in drop {
      Del(pos, head, Rest(s, drop, i), |Without(s[..i], drop)|);
    }
  }

  /** Where the loop stands: `pos` is element i, or the head when all have been visited. */
  ghost predicate At(head: Link, s: seq<Link>, i: nat, pos: Link?)
    requires i <= |s|
  {
    pos == (if i < |s| then s[i] else head) && (i < |s| ==> pos != head)
  }

  /** The successor of element i, read before the body runs. */
  lemma NextAt(head: Link, s: seq<Link>, drop: set<Link>, i: nat)
    requires i < |s| && IsList(head, Rest(s, drop, i))
    ensures s[i].next != null && At(head, s, i + 1, s[i].next)
  {
    var t, k := Rest(s, drop, i), |Without(s[..i], drop)|;
    RestStep(s, drop, i);
    NextOf(head, t, k);
    if i + 1 < |s| { NextOf(head, t, k + 1); }
  }

  lemma NoneVisited(s: seq<Link>, drop: set<Link>)
    ensures Rest(s, drop, 0) == s
  {}

  lemma AllVisited(s: seq<Link>, drop: set<Link>)
    ensures s[..|s|] == s && Rest(s, drop, |s|) == Without(s, drop)
  {}

  /** `kapi_list_for_each_safe` with a body that deletes the elements in `drop`: it visits every
      element of the original list exactly once, in order. */
  method ForEachSafe(head: Link, drop: set<Link>, ghost s: seq<Link>) returns (visited: seq<Link>)
    requires IsList(head, s)
    modifies head, s
    ensures visited == s
    ensures IsList(head, Without(s, drop))
  {
    hide Without, Rest, IsList;
    visited := [];
    NextOf(head, s, 0);
    var pos := head.next;
    NoneVisited(s, drop);
    HasNext(head, s, pos);
    var n := pos.next;
    ghost var i := 0;
    while pos != head
      invariant 0 <= i <= |s| && visited == s[..i]
      invariant At(head, s, i, pos)
      invariant IsList(head, Rest(s, drop, i))
      invariant i < |s| ==> n == pos.next
      decreases |s| - i
    {
      NextAt(head, s, drop, i);
      assert s[..i + 1] == s[..i] + [pos];
      visited := visited + [pos];
      VisitOne(pos, head, drop, s, i);
      i := i + 1;
      pos := n;
      RestHolds(head, s, drop, i, pos);
      HasNext(head, Rest(s, drop, i), pos);
      n := pos.next;
    }
    AllVisited(s, drop);
  }

  lemma RestHolds(head: Link, s: seq<Link>, drop: set<Link>, i: nat, pos: Link)
    requires i <= |s| && At(head, s, i, pos)
    ensures pos == head || pos in Rest(s, drop, i)
  {
    if i < |s| { RestStep(s, drop, i); }
  }

  /** Every link of a list has a successor. */
  lemma HasNext(head: Link, s: seq<Link>, l: Link)
    requires IsList(head, s) && (l == head || l in s)
    ensures l.next != null
  {
    NextOf(head, s, 0);
    if l != head {
      var i :| 0 <= i < |s| && s[i] == l;
      NextOf(head, s, i);
    }
  }
}
