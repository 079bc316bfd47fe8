/** The intrusive circular doubly linked list.  A node that is in no list has its links poisoned,
    which is modelled by null. */
module SwList {
  class Node {
    var next: Node?
    var prev: Node?

    /** A fresh list head: a ring of itself. */
    constructor ()
      ensures Ring(this, [])
    {
      next, prev := this, this;
    }
  }

  /** Once round the ring: the head, the nodes in order, the head again. */
  function Cycle(h: Node, s: seq<Node>): (c: seq<Node>)
    ensures |c| == |s| + 2
  {
    [h] + s + [h]
  }

  ghost predicate Linked(a: Node, b: Node)
    reads a, b
  {
    a.next == b && b.prev == a
  }

  /** The list at `h` holds exactly `s`: the ring is closed, next and prev are inverse, and no node
      occurs twice. */
  ghost predicate Ring(h: Node, s: seq<Node>)
    reads h, s
  {
    h !in s && (forall i, j :: 0 <= i < j < |s| ==> s[i] != s[j]) &&
    forall i :: 0 <= i <= |s| ==> Linked(Cycle(h, s)[i], Cycle(h, s)[i + 1])
  }

  /** A head determines its list. */
  lemma RingUnique(h: Node, s: seq<Node>, t: seq<Node>)
    requires Ring(h, s) && Ring(h, t)
    ensures s == t
  {
    RingPrefix(h, s, t, |s|);
    RingPrefix(h, t, s, |t|);
  }

  lemma {:induction false} RingPrefix(h: Node, s: seq<Node>, t: seq<Node>, k: nat)
    requires Ring(h, s) && Ring(h, t) && k <= |s|
    ensures k <= |t| && forall i :: 0 <= i < k ==> s[i] == t[i]
  {
    if k > 0 {
      RingPrefix(h, s, t, k - 1);
      assert Linked(Cycle(h, s)[k - 1], Cycle(h, s)[k]) && Linked(Cycle(h, t)[k - 1], Cycle(h, t)[k]);
      assert Cycle(h, s)[k] == s[k - 1];
      assert Cycle(h, s)[k - 1] == Cycle(h, t)[k - 1];
    }
  }

  /** Nodes that did not change keep their list. */
  twostate lemma OtherRing(h: Node, s: seq<Node>)
    requires old(Ring(h, s)) && unchanged(h) && forall n :: n in s ==> unchanged(n)
    ensures Ring(h, s)
  {
    forall i | 0 <= i <= |s| ensures Linked(Cycle(h, s)[i], Cycle(h, s)[i + 1]) {
      assert old(Linked(Cycle(h, s)[i], Cycle(h, s)[i + 1]));
      assert Cycle(h, s)[i] == h || Cycle(h, s)[i] in s;
      assert Cycle(h, s)[i + 1] == h || Cycle(h, s)[i + 1] in s;
    }
  }

  // ----- the operations; `s` is what the list holds before

  /** Links a new node between two neighbours. */
  method InsertBetween(prev: Node, next: Node, new_: Node, ghost h: Node, ghost s: seq<Node>, ghost i: nat)
    requires Ring(h, s) && new_ != h && new_ !in s && i <= |s| && prev == Cycle(h, s)[i] && next == Cycle(h, s)[i + 1]
    modifies prev, next, new_
    ensures Ring(h, s[..i] + [new_] + s[i..])
  {
    new_.prev := prev;
    new_.next := next;
    prev.next := new_;
    next.prev := new_;
    ghost var t := s[..i] + [new_] + s[i..];
    ghost var c, d := Cycle(h, s), Cycle(h, t);
    assert d == c[..i + 1] + [new_] + c[i + 1..];
    forall k | 0 <= k <= |t| ensures Linked(d[k], d[k + 1]) {
      if k < i { assert old(Linked(c[k], c[k + 1])); }
      if k > i + 1 { assert old(Linked(c[k - 1], c[k])); }
    }
  }

  method ListAdd(head: Node, new_: Node, ghost s: seq<Node>)
    requires Ring(head, s) && new_ != head && new_ !in s
    modifies head, new_, Cycle(head, s)[1]
    ensures Ring(head, [new_] + s)
  {
    assert Linked(Cycle(head, s)[0], Cycle(head, s)[1]);
    assert s[..0] + [new_] + s[0..] == [new_] + s;
    InsertBetween(head, head.next, new_, head, s, 0);
  }

  /** Adds before `tnode`, which may be any node of the ring; before the head means at the end. */
  method ListAddTail(tnode: Node, new_: Node, ghost h: Node, ghost s: seq<Node>, ghost i: nat)
    requires Ring(h, s) && new_ != h && new_ !in s && i <= |s| && tnode == Cycle(h, s)[i + 1]
    modifies tnode, new_, Cycle(h, s)[i]
    ensures Ring(h, s[..i] + [new_] + s[i..])
  {
    assert Linked(Cycle(h, s)[i], Cycle(h, s)[i + 1]);
    InsertBetween(tnode.prev, tnode, new_, h, s, i);
  }

  /** Takes a node out and poisons its links.  From an empty list the node taken is the head. */
  method ListDel(node: Node, ghost h: Node, ghost s: seq<Node>, ghost i: nat)
    requires Ring(h, s) && (if s == [] then i == 0 else i < |s|) && node == Cycle(h, s)[i + 1]
    modifies node, Cycle(h, s)[i], Cycle(h, s)[if s == [] then 0 else i + 2]
    ensures s != [] ==> Ring(h, s[..i] + s[i + 1..])
    ensures node.next == null && node.prev == null
  {
    ghost var c := Cycle(h, s);
    assert Linked(c[i], c[i + 1]);
    assert s != [] ==> Linked(c[i + 1], c[i + 2]);
    assert forall k :: 1 <= k <= |s| ==> c[k] == s[k - 1];
    var prev, next := node.prev, node.next;
    prev.next := node.next;
    next.prev := node.prev;
    node.next := null;
    node.prev := null;
    if s != [] {
      ghost var t := s[..i] + s[i + 1..];
      ghost var d := Cycle(h, t);
      assert d == c[..i + 1] + c[i + 2..];
      forall k | 0 <= k <= |t| ensures Linked(d[k], d[k + 1]) {
        if k < i { assert old(Linked(c[k], c[k + 1])); }
        if k > i { assert old(Linked(c[k + 1], c[k + 2])); }
      }
    }
  }

  /** Takes the first node; from an empty list it takes the head itself, whose links are then gone. */
  method ListPop(head: Node, ghost s: seq<Node>) returns (dnode: Node)
    requires Ring(head, s)
    modifies head, s
    ensures s != [] ==> dnode == s[0] && Ring(head, s[1..])
    ensures dnode.next == null && dnode.prev == null && (s == [] ==> dnode == head)
    ensures forall k :: 2 <= k < |s| ==> unchanged(s[k])
  {
    assert Linked(Cycle(head, s)[0], Cycle(head, s)[1]);
    assert s != [] ==> Cycle(head, s)[1] == s[0] && s[..0] + s[1..] == s[1..];
    dnode := head.next;
    ListDel(dnode, head, s, 0);
  }

  method ListPopTail(head: Node, ghost s: seq<Node>) returns (dnode: Node)
    requires Ring(head, s)
    modifies head, s
    ensures s != [] ==> dnode == s[|s| - 1] && Ring(head, s[..|s| - 1])
    ensures dnode.next == null && dnode.prev == null && (s == [] ==> dnode == head)
    ensures forall k :: 0 <= k < |s| - 2 ==> unchanged(s[k])
  {
    assert Linked(Cycle(head, s)[|s|], Cycle(head, s)[|s| + 1]);
    assert s != [] ==> Cycle(head, s)[|s|] == s[|s| - 1] && s[..|s| - 1] + s[|s|..] == s[..|s| - 1];
    dnode := head.prev;
    ListDel(dnode, head, s, if s == [] then 0 else |s| - 1);
  }

  method ListEmpty(head: Node, ghost s: seq<Node>) returns (r: bool)
    requires Ring(head, s)
    ensures r <==> s == []
  {
    assert Linked(Cycle(head, s)[0], Cycle(head, s)[1]);
    assert |s| > 0 ==> Cycle(head, s)[1] == s[0];
    r := head.next == head;
  }
}
