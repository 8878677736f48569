/** The intrusive hash list: singly linked nodes, each of which also knows the pointer that points at
    it. `pprev` is the address of a field: the `first` of a head or the `next` of a node. */
module HashList {
  import opened Sets

  datatype Slot = NoSlot | FirstOf(head: Head) | NextOf(node: Node)

  class Head {
    var first: Node?

    /** `kapi_hlist_init`. */
    constructor ()
      ensures IsList(this, [])
    {
      first := null;
    }
  }

  class Node {
    var next: Node?
    var pprev: Slot

    /** `kapi_hlist_node_init`. */
    constructor ()
      ensures next == null && pprev == NoSlot
    {
      next, pprev := null, NoSlot;
    }
  }

  /** The pointer stored in a slot. */
  ghost function Deref(p: Slot): Node?
    reads if p.FirstOf? then {p.head} else if p.NextOf? then {p.node} else {}
  {
    match p
    case NoSlot => null
    case FirstOf(h) => h.first
    case NextOf(n) => n.next
  }

  ghost function After(s: seq<Node>, i: int): Node? { if 0 <= i + 1 < |s| then s[i + 1] else null }

  ghost function SlotOf(head: Head, s: seq<Node>, i: int): Slot {
    if 0 < i <= |s| then NextOf(s[i - 1]) else FirstOf(head)
  }

  /** The list at `head` is s: the forward pointers run through s, and every node's slot is the
      one before it. */
  ghost predicate IsList(head: Head, s: seq<Node>)
    reads head, s
  {
    && Distinct(s)
    && head.first == (if s == [] then null else s[0])
    && (forall i {:trigger s[i].next} :: 0 <= i < |s| ==> s[i].next == After(s, i))
    && (forall i {:trigger s[i].pprev} :: 0 <= i < |s| ==> s[i].pprev == SlotOf(head, s, i))
  }

  /** `*pprev` points back at the node, for every node of a list. */
  lemma SlotPointsBack(head: Head, s: seq<Node>, i: nat)
    requires IsList(head, s) && i < |s|
    ensures Deref(s[i].pprev) == s[i]
  {
    if i > 0 { assert s[i - 1].next == After(s, i - 1); }
  }

  ghost function InsertAt(s: seq<Node>, k: nat, n: Node): seq<Node>
    requires k <= |s|
  {
    s[..k] + [n] + s[k..]
  }

  ghost function RemoveAt(s: seq<Node>, k: nat): seq<Node>
    requires k < |s|
  {
    s[..k] + s[k + 1..]
  }

  /** The nodes of a list differ from one of them and from the next. */
  lemma Apart(s: seq<Node>, k: nat)
    requires k < |s| && Distinct(s)
    ensures forall i :: 0 <= i < |s| && i != k ==> s[i] != s[k]
    ensures k + 1 < |s| ==> forall i :: 0 <= i < |s| && i != k + 1 ==> s[i] != s[k + 1]
  {}

  lemma Inserted(s: seq<Node>, k: nat, n: Node)
    requires k <= |s| && Distinct(s) && n !in s
    ensures var t := InsertAt(s, k, n);
            && |t| == |s| + 1 && t[k] == n && Distinct(t)
            && (forall i :: 0 <= i < k ==> t[i] == s[i]) && (forall i :: k < i < |t| ==> t[i] == s[i - 1])
  {}

  lemma Removed(s: seq<Node>, k: nat)
    requires k < |s| && Distinct(s)
    ensures var t := RemoveAt(s, k);
            && |t| == |s| - 1 && s[k] !in t && Distinct(t)
            && (forall i :: 0 <= i < k ==> t[i] == s[i]) && (forall i :: k <= i < |t| ==> t[i] == s[i + 1])
  {}

  lemma RemoveInserted(s: seq<Node>, k: nat, n: Node)
    requires k <= |s|
    ensures RemoveAt(InsertAt(s, k, n), k) == s
  {}

  /** A list determines the sequence of its nodes. */
  lemma {:induction false} ListUnique(head: Head, s: seq<Node>, t: seq<Node>, k: nat)
    requires IsList(head, s) && IsList(head, t) && k <= |s|
    ensures k <= |t| && s[..k] == t[..k]
    ensures k == |s| ==> s == t
  {
    if k > 0 {
      ListUnique(head, s, t, k - 1);
      if k > 1 {
        assert s[k - 2] == s[..k - 1][k - 2] == t[..k - 1][k - 2] == t[k - 2];
        assert s[k - 2].next == After(s, k - 2) && t[k - 2].next == After(t, k - 2);
      }
      assert k <= |t| && s[k - 1] == t[k - 1];
      assert s[..k] == s[..k - 1] + [s[k - 1]] && t[..k] == t[..k - 1] + [t[k - 1]];
    }
    if k == |s| {
      if k > 0 {
        assert s[k - 1] == s[..k][k - 1] == t[..k][k - 1] == t[k - 1];
        assert s[k - 1].next == After(s, k - 1) && t[k - 1].next == After(t, k - 1);
      }
      assert |t| == k;
    }
  }

  /** `*p = n`. */
  method Store(p: Slot, n: Node?)
    requires p != NoSlot
    modifies if p.FirstOf? then {p.head} else {}
    modifies if p.NextOf? then {p.node} else {}
    ensures p.FirstOf? ==> p.head.first == n
    ensures p.NextOf? ==> p.node.next == n && p.node.pprev == old(p.node.pprev)
  {
    match p
    case FirstOf(h) => h.first := n;
    case NextOf(m) => m.next := n;
  }

  /** `kapi_hlist_add_head`. */
  method AddHead(node: Node, head: Head, ghost s: seq<Node>)
    requires IsList(head, s) && node !in s
    modifies node, head, s
    ensures IsList(head, [node] + s)
  {
    var first := head.first;
    node.next := first;
    if first != null {
      first.pprev := NextOf(node);
    }
    head.first := node;
    node.pprev := FirstOf(head);
  }

  /** `kapi_hlist_add_before`. The head is not an argument: `head`, s and k only say which list and
      which place `next` has, if it is in a list at all. */
  method AddBefore(node: Node, next: Node, ghost head: Head, ghost s: seq<Node>, ghost k: nat)
    requires node != next
    requires next.pprev != NoSlot ==> IsList(head, s) && node !in s && k < |s| && s[k] == next
    modifies node, next, head, s
    ensures old(next.pprev) != NoSlot ==> IsList(head, InsertAt(s, k, node))
    ensures old(next.pprev) == NoSlot ==> node.pprev == NoSlot && node.next == next && next.pprev == NextOf(node)
                                          && next.next == old(next.next)
  {
    hide InsertAt, Distinct;
    node.pprev := next.pprev;
    node.next := next;
    next.pprev := NextOf(node);
    if node.pprev != NoSlot {
      Store(node.pprev, node);
      Inserted(s, k, node);
      ghost var t := InsertAt(s, k, node);
      assert t[k + 1] == next;
    }
  }

  /** `kapi_hlist_add_behind`. */
  method AddBehind(node: Node, prev: Node, ghost head: Head, ghost s: seq<Node>, ghost k: nat)
    requires IsList(head, s) && node !in s && k < |s| && s[k] == prev
    modifies node, prev, head, s
    ensures IsList(head, InsertAt(s, k + 1, node))
  {
    Apart(s, k);
    hide InsertAt, Distinct;
    Inserted(s, k + 1, node);
    ghost var t := InsertAt(s, k + 1, node);
    assert t[k] == prev && (k + 2 < |t| ==> t[k + 2] == s[k + 1] == prev.next);
    node.next := prev.next;
    prev.next := node;
    node.pprev := NextOf(prev);
    if node.next != null {
      node.next.pprev := NextOf(node);
    }
    forall i | 0 <= i < |t| ensures t[i].next == After(t, i) && t[i].pprev == SlotOf(head, t, i) {
      if i != k + 1 {
        ghost var j := if i <= k then i else i - 1;
        assert t[i] == s[j] && s[j] != node && (j != k ==> s[j] != prev) && (j != k + 1 ==> s[j] != node.next);
      }
    }
  }

  /** `kapi_hlist_del`: takes the node out of whatever list it is in, or does nothing. */
  method Del(node: Node, ghost head: Head, ghost s: seq<Node>, ghost k: nat)
    requires node.pprev != NoSlot ==> IsList(head, s) && k < |s| && s[k] == node
    modifies if node.pprev != NoSlot then {node, head} else {}
    modifies if node.pprev != NoSlot then (set n | n in s) else {}
    ensures old(node.pprev) != NoSlot ==> IsList(head, RemoveAt(s, k)) && node.next == null && node.pprev == NoSlot
  {
    if node.pprev != NoSlot {
      Apart(s, k);
      if k > 0 { Apart(s, k - 1); }
    }
    hide RemoveAt, Distinct;
    if node.pprev != NoSlot {
      Removed(s, k);
      ghost var t := RemoveAt(s, k);
      assert (k > 0 ==> t[k - 1] == s[k - 1]) && (k < |t| ==> t[k] == s[k + 1] == node.next);
      var next := node.next;
      var pprev := node.pprev;
      Store(pprev, next);
      if next != null {
        next.pprev := pprev;
      }
      node.next := null;
      node.pprev := NoSlot;
      forall i | 0 <= i < |t| ensures t[i].next == After(t, i) && t[i].pprev == SlotOf(head, t, i) {
        ghost var j := if i < k then i else i + 1;
        assert t[i] == s[j] && s[j] != node && (j != k + 1 ==> s[j] != next);
        assert k > 0 && j != k - 1 ==> s[j] != s[k - 1];
      }
    }
  }

  /** Adding a node and deleting it again leaves the list as it was. */
  method AddThenDel(node: Node, next: Node, ghost head: Head, ghost s: seq<Node>, ghost k: nat)
    requires IsList(head, s) && node !in s && k < |s| && s[k] == next
    modifies node, next, head, s
    ensures IsList(head, s)
    ensures forall n :: n in s ==> n.next == old(n.next) && n.pprev == old(n.pprev)
  {
    AddBefore(node, next, head, s, k);
    Del(node, head, InsertAt(s, k, node), k);
    RemoveInserted(s, k, node);
  }
}
