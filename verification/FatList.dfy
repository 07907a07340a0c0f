/** The intrusive doubly linked list of the FAT driver.  A list stands for the sequence
    of its nodes; every operation rewires pointers in place and is proved to perform the
    corresponding operation on that sequence, touching only the neighbours involved. */
module FatList {

  class Node {
    var previous: Node?
    var next: Node?

    constructor ()
    {
      previous, next := null, null;
    }
  }

  // ------------------------------------------------------------ sequences of nodes

  ghost predicate Distinct(s: seq<Node>) {
    forall i, j :: 0 <= i < j < |s| ==> s[i] != s[j]
  }

  /** The node at `i`, or null outside the sequence. */
  ghost function At(s: seq<Node>, i: int): Node? {
    if 0 <= i < |s| then s[i] else null
  }

  ghost function IndexOf(s: seq<Node>, n: Node): (i: nat)
    requires n in s
    ensures i < |s| && s[i] == n
  {
    if s[0] == n then 0 else 1 + IndexOf(s[1..], n)
  }

  ghost function Insert(s: seq<Node>, i: nat, n: Node): seq<Node>
    requires i <= |s|
  {
    s[..i] + [n] + s[i..]
  }

  ghost function Delete(s: seq<Node>, i: nat): seq<Node>
    requires i < |s|
  {
    s[..i] + s[i + 1..]
  }

  lemma IndexUnique(s: seq<Node>, n: Node, i: nat)
    requires Distinct(s) && i < |s| && s[i] == n
    ensures IndexOf(s, n) == i
  {
  }

  lemma AtNull(s: seq<Node>, i: int)
    ensures At(s, i) == null <==> !(0 <= i < |s|)
    ensures 0 <= i < |s| ==> At(s, i) == s[i] && At(s, i) in s
  {
  }

  lemma DeleteAt(s: seq<Node>, i: nat, j: int)
    requires i < |s|
    ensures At(Delete(s, i), j) == if j < i then At(s, j) else At(s, j + 1)
  {
  }

  lemma InsertAt(s: seq<Node>, i: nat, n: Node, j: int)
    requires i <= |s|
    ensures At(Insert(s, i, n), j) == if j < i then At(s, j) else if j == i then n else At(s, j - 1)
  {
  }

  lemma DeleteDistinct(s: seq<Node>, i: nat)
    requires Distinct(s) && i < |s|
    ensures |Delete(s, i)| == |s| - 1 && Distinct(Delete(s, i)) && s[i] !in Delete(s, i)
    ensures forall x :: x in Delete(s, i) ==> x in s
  {
  }

  lemma InsertDistinct(s: seq<Node>, i: nat, n: Node)
    requires Distinct(s) && i <= |s| && n !in s
    ensures |Insert(s, i, n)| == |s| + 1 && Distinct(Insert(s, i, n))
    ensures forall x :: x in Insert(s, i, n) ==> x == n || x in s
  {
  }

  // ------------------------------------------------------------ links

  type Links = map<Node, Node?>

  /** Each node's links are its neighbours in the sequence. */
  ghost predicate Linked(s: seq<Node>, prev: Links, next: Links) {
    forall i :: 0 <= i < |s| ==> LinkedAt(s, prev, next, i)
  }

  ghost predicate LinkedAt(s: seq<Node>, prev: Links, next: Links, i: nat)
    requires i < |s|
  {
    s[i] in prev && s[i] in next && prev[s[i]] == At(s, i - 1) && next[s[i]] == At(s, i + 1)
  }

  ghost function Previous(s: seq<Node>): Links
    reads s
  {
    map x | x in s :: x.previous
  }

  ghost function Next(s: seq<Node>): Links
    reads s
  {
    map x | x in s :: x.next
  }

  /** Links that agree on the nodes of a sequence link it alike. */
  lemma LinkedSame(s: seq<Node>, prev: Links, next: Links)
    requires Linked(s, prev, next)
    requires forall x :: x in s ==> x in prev && x.previous == prev[x]
    requires forall x :: x in s ==> x in next && x.next == next[x]
    ensures Linked(s, Previous(s), Next(s))
  {
    forall i | 0 <= i < |s| ensures LinkedAt(s, Previous(s), Next(s), i) {
      assert LinkedAt(s, prev, next, i);
    }
  }

  /** The neighbours of a node of a linked sequence. */
  lemma Neighbours(s: seq<Node>, i: nat)
    requires i < |s| && Linked(s, Previous(s), Next(s))
    ensures s[i].previous == At(s, i - 1) && s[i].next == At(s, i + 1)
  {
    assert LinkedAt(s, Previous(s), Next(s), i);
  }

  /** Set the link of a node, if there is one. */
  ghost function Set(m: Links, n: Node?, to: Node?): Links {
    if n == null then m else m[n := to]
  }

  lemma DeleteLinks(s: seq<Node>, prev: Links, next: Links, i: nat)
    requires Distinct(s) && i < |s| && Linked(s, prev, next)
    ensures Linked(Delete(s, i), Set(prev, At(s, i + 1), At(s, i - 1)), Set(next, At(s, i - 1), At(s, i + 1)))
  {
    var t := Delete(s, i);
    var p, n := Set(prev, At(s, i + 1), At(s, i - 1)), Set(next, At(s, i - 1), At(s, i + 1));
    forall j | 0 <= j < |t| ensures LinkedAt(t, p, n, j) {
      var k := if j < i then j else j + 1;
      assert LinkedAt(s, prev, next, k);
      DeleteAt(s, i, j - 1);
      DeleteAt(s, i, j);
      DeleteAt(s, i, j + 1);
    }
  }

  lemma InsertLinks(s: seq<Node>, prev: Links, next: Links, i: nat, x: Node)
    requires Distinct(s) && i <= |s| && x !in s && Linked(s, prev, next)
    ensures Linked(Insert(s, i, x), Set(prev[x := At(s, i - 1)], At(s, i), x),
                   Set(next[x := At(s, i)], At(s, i - 1), x))
  {
    var t := Insert(s, i, x);
    var p, n := Set(prev[x := At(s, i - 1)], At(s, i), x), Set(next[x := At(s, i)], At(s, i - 1), x);
    forall j | 0 <= j < |t| ensures LinkedAt(t, p, n, j) {
      InsertAt(s, i, x, j - 1);
      InsertAt(s, i, x, j);
      InsertAt(s, i, x, j + 1);
      if j != i {
        assert LinkedAt(s, prev, next, if j < i then j else j - 1);
      }
    }
  }

  /** A sequence has only one way of being linked. */
  lemma LinksDetermined(s: seq<Node>, prev: Links, next: Links, p: Links, n: Links, x: Node)
    requires Linked(s, prev, next) && Linked(s, p, n) && x in s
    ensures x in prev && x in p && x in next && x in n && prev[x] == p[x] && next[x] == n[x]
  {
    var i := IndexOf(s, x);
    assert LinkedAt(s, prev, next, i) && LinkedAt(s, p, n, i);
  }

  /** The writes of an insertion followed by those of the removal leave every link of the list as it was. */
  lemma InsertRemove(s: seq<Node>, prev: Links, next: Links, i: nat, x: Node)
    requires Distinct(s) && i <= |s| && x !in s && Linked(s, prev, next)
    ensures var t := Insert(s, i, x);
            var p, n := Set(prev[x := At(s, i - 1)], At(s, i), x), Set(next[x := At(s, i)], At(s, i - 1), x);
            var p', n' := Set(p, At(t, i + 1), At(t, i - 1)), Set(n, At(t, i - 1), At(t, i + 1));
            && Delete(t, i) == s && Linked(s, p', n')
            && forall y :: y in s ==>
                 y in p' && y in n' && y in prev && y in next && p'[y] == prev[y] && n'[y] == next[y]
  {
    hide Linked, Distinct;
    var t := Insert(s, i, x);
    var p, n := Set(prev[x := At(s, i - 1)], At(s, i), x), Set(next[x := At(s, i)], At(s, i - 1), x);
    var p', n' := Set(p, At(t, i + 1), At(t, i - 1)), Set(n, At(t, i - 1), At(t, i + 1));
    InsertLinks(s, prev, next, i, x);
    InsertDistinct(s, i, x);
    DeleteLinks(t, p, n, i);
    assert Delete(t, i) == s;
    forall y | y in s
      ensures y in p' && y in n' && y in prev && y in next && p'[y] == prev[y] && n'[y] == next[y]
    {
      LinksDetermined(s, p', n', prev, next, y);
    }
  }

  // ------------------------------------------------------------ whole runs

  /** One call on a list. */
  datatype Op =
    | Removing(node: Node)
    | After(node: Node, newNode: Node)
    | Before(node: Node, newNode: Node)
    | First(newNode: Node)
    | Last(newNode: Node)
    | Popping

  /** What a caller owes: existing nodes to remove or insert beside, new nodes to insert. */
  ghost predicate Legal(s: seq<Node>, op: Op) {
    match op
    case Removing(n) => n in s
    case After(n, x) => n in s && x !in s
    case Before(n, x) => n in s && x !in s
    case First(x) => x !in s
    case Last(x) => x !in s
    case Popping => true
  }

  ghost function Effect(s: seq<Node>, op: Op): seq<Node>
    requires Legal(s, op)
  {
    match op
    case Removing(n) => Delete(s, IndexOf(s, n))
    case After(n, x) => Insert(s, IndexOf(s, n) + 1, x)
    case Before(n, x) => Insert(s, IndexOf(s, n), x)
    case First(x) => [x] + s
    case Last(x) => s + [x]
    case Popping => if s == [] then [] else s[1..]
  }

  ghost predicate LegalRun(s: seq<Node>, ops: seq<Op>)
    decreases |ops|
  {
    ops == [] || (Legal(s, ops[0]) && LegalRun(Effect(s, ops[0]), ops[1..]))
  }

  ghost function EffectRun(s: seq<Node>, ops: seq<Op>): seq<Node>
    requires LegalRun(s, ops)
    decreases |ops|
  {
    if ops == [] then s else EffectRun(Effect(s, ops[0]), ops[1..])
  }

  /** The nodes a call mentions. */
  ghost function Mentioned(op: Op): set<Node> {
    match op
    case Removing(n) => {n}
    case After(n, x) => {n, x}
    case Before(n, x) => {n, x}
    case First(x) => {x}
    case Last(x) => {x}
    case Popping => {}
  }

  ghost function MentionedIn(ops: seq<Op>): set<Node> {
    if ops == [] then {} else Mentioned(ops[0]) + MentionedIn(ops[1..])
  }

  lemma {:induction false} MentionedWithin(ops: seq<Op>, i: nat)
    requires i < |ops|
    ensures Mentioned(ops[i]) <= MentionedIn(ops)
  {
    hide Mentioned;
    if i > 0 { MentionedWithin(ops[1..], i - 1); }
  }

  lemma EffectWithin(s: seq<Node>, op: Op)
    requires Legal(s, op)
    ensures forall x :: x in Effect(s, op) ==> x in s || x in Mentioned(op)
  {
  }

  ghost function Only(n: Node?): set<Node> {
    if n == null then {} else {n}
  }

  class List {
    var head: Node?
    var tail: Node?
    /** The nodes in order. */
    ghost var nodes: seq<Node>

    /** `head` and `tail` are the ends and the links of every node are its neighbours. */
    ghost predicate Valid()
      reads this, nodes
    {
      && Distinct(nodes)
      && head == At(nodes, 0) && tail == At(nodes, |nodes| - 1)
      && Linked(nodes, Previous(nodes), Next(nodes))
    }

    /** fat_list_init */
    constructor ()
      ensures Valid() && nodes == []
    {
      head, tail, nodes := null, null, [];
    }

    /** fat_list_remove: the node leaves the sequence; its own links stay as they were. */
    method Remove(node: Node)
      requires Valid() && node in nodes
      modifies this, Only(node.previous)`next, Only(node.next)`previous
      ensures Valid() && nodes == Delete(old(nodes), IndexOf(old(nodes), node))
    {
      hide Linked, LinkedAt, Distinct, Delete, IndexOf, At;
      ghost var s, i: int := nodes, IndexOf(nodes, node);
      ghost var p, n := Previous(s), Next(s);
      Neighbours(s, i);
      AtNull(s, i - 1);
      AtNull(s, i + 1);
      DeleteDistinct(s, i);
      DeleteLinks(s, p, n, i);
      DeleteAt(s, i, 0);
      DeleteAt(s, i, |s| - 2);
      if node.previous == null {
        head := node.next;
      } else {
        node.previous.next := node.next;
      }
      if node.next == null {
        tail := node.previous;
      } else {
        node.next.previous := node.previous;
      }
      nodes := Delete(s, i);
      LinkedSame(nodes, Set(p, At(s, i + 1), At(s, i - 1)), Set(n, At(s, i - 1), At(s, i + 1)));
    }

    /** fat_list_insert_after */
    method InsertAfter(node: Node, newNode: Node)
      requires Valid() && node in nodes && newNode !in nodes
      modifies this, newNode, node`next, Only(node.next)`previous
      ensures Valid() && nodes == Insert(old(nodes), IndexOf(old(nodes), node) + 1, newNode)
    {
      hide Linked, LinkedAt, Distinct, Insert, IndexOf, At;
      ghost var s, i: int := nodes, IndexOf(nodes, node);
      ghost var p, n := Previous(s), Next(s);
      Neighbours(s, i);
      AtNull(s, i - 1);
      AtNull(s, i + 1);
      InsertDistinct(s, i + 1, newNode);
      InsertLinks(s, p, n, i + 1, newNode);
      InsertAt(s, i + 1, newNode, 0);
      InsertAt(s, i + 1, newNode, |s|);
      AtNull(s, i);
      newNode.previous := node;
      newNode.next := node.next;
      if node.next == null {
        tail := newNode;
      } else {
        node.next.previous := newNode;
      }
      node.next := newNode;
      nodes := Insert(s, i + 1, newNode);
      LinkedSame(nodes, Set(p[newNode := At(s, i)], At(s, i + 1), newNode),
                 Set(n[newNode := At(s, i + 1)], At(s, i), newNode));
    }

    /** fat_list_insert_before */
    method InsertBefore(node: Node, newNode: Node)
      requires Valid() && node in nodes && newNode !in nodes
      modifies this, newNode, node`previous, Only(node.previous)`next
      ensures Valid() && nodes == Insert(old(nodes), IndexOf(old(nodes), node), newNode)
    {
      hide Linked, LinkedAt, Distinct, Insert, IndexOf, At;
      ghost var s, i: int := nodes, IndexOf(nodes, node);
      ghost var p, n := Previous(s), Next(s);
      Neighbours(s, i);
      AtNull(s, i - 1);
      InsertDistinct(s, i, newNode);
      InsertLinks(s, p, n, i, newNode);
      InsertAt(s, i, newNode, 0);
      InsertAt(s, i, newNode, |s|);
      AtNull(s, i);
      newNode.previous := node.previous;
      newNode.next := node;
      if node.previous == null {
        head := newNode;
      } else {
        node.previous.next := newNode;
      }
      node.previous := newNode;
      nodes := Insert(s, i, newNode);
      LinkedSame(nodes, Set(p[newNode := At(s, i - 1)], At(s, i), newNode),
                 Set(n[newNode := At(s, i)], At(s, i - 1), newNode));
    }

    /** fat_list_insert_first */
    method InsertFirst(node: Node)
      requires Valid() && node !in nodes
      modifies this, node, Only(head)`previous
      ensures Valid() && nodes == [node] + old(nodes)
    {
      if head == null {
        head := node;
        tail := node;
        node.previous := null;
        node.next := null;
        nodes := [node];
      } else {
        IndexUnique(nodes, head, 0);
        Neighbours(nodes, 0);
        InsertBefore(head, node);
      }
    }

    /** fat_list_insert_last */
    method InsertLast(node: Node)
      requires Valid() && node !in nodes
      modifies this, node, Only(tail)`next
      ensures Valid() && nodes == old(nodes) + [node]
    {
      if tail == null {
        InsertFirst(node);
      } else {
        IndexUnique(nodes, tail, |nodes| - 1);
        Neighbours(nodes, |nodes| - 1);
        InsertAfter(tail, node);
      }
    }

    /** fat_list_is_empty */
    method IsEmpty() returns (empty: bool)
      requires Valid()
      ensures empty <==> nodes == []
    {
      empty := head == null;
    }

    /** fat_list_pop_head */
    method PopHead() returns (node: Node?)
      requires Valid()
      modifies this, Only(if head == null then null else head.next)`previous
      ensures Valid()
      ensures node == At(old(nodes), 0)
      ensures nodes == if old(nodes) == [] then [] else old(nodes)[1..]
    {
      node := head;
      if node != null {
        IndexUnique(nodes, node, 0);
        Neighbours(nodes, 0);
        Remove(node);
      }
    }

    /** fat_list_for_each: visits every node once, in order, and ends. */
    method Traverse() returns (visited: seq<Node>)
      requires Valid()
      ensures visited == nodes
    {
      visited := [];
      var p := head;
      while p != null
        invariant |visited| <= |nodes| && visited == nodes[..|visited|] && p == At(nodes, |visited|)
        decreases |nodes| - |visited|
      {
        Neighbours(nodes, |visited|);
        visited := visited + [p];
        p := p.next;
      }
    }

    /** One call. */
    method Step(op: Op)
      requires Valid() && Legal(nodes, op)
      modifies this, nodes, Mentioned(op)
      ensures Valid() && nodes == Effect(old(nodes), op)
    {
      hide Linked, Distinct, IndexOf;
      LinksWithin(nodes);
      match op
      case Removing(n) => Remove(n);
      case After(n, x) => InsertAfter(n, x);
      case Before(n, x) => InsertBefore(n, x);
      case First(x) => InsertFirst(x);
      case Last(x) => InsertLast(x);
      case Popping => var n := PopHead();
    }

    /** Any run of calls performs the same run on the sequence and touches no other node. */
    method Run(ops: seq<Op>)
      requires Valid() && LegalRun(nodes, ops)
      modifies this, nodes, MentionedIn(ops)
      ensures Valid() && nodes == EffectRun(old(nodes), ops)
    {
      hide Valid, Effect, Mentioned, MentionedIn, Legal;
      var i := 0;
      while i < |ops|
        invariant 0 <= i <= |ops| && Valid() && LegalRun(nodes, ops[i..])
        invariant EffectRun(nodes, ops[i..]) == EffectRun(old(nodes), ops)
        invariant forall x :: x in nodes ==> x in old(nodes) || x in MentionedIn(ops)
      {
        assert ops[i..][0] == ops[i] && ops[i..][1..] == ops[i + 1..];
        EffectWithin(nodes, ops[i]);
        MentionedWithin(ops, i);
        Step(ops[i]);
        i := i + 1;
      }
    }
  }

  /** Links of a linked sequence stay inside it. */
  lemma LinksWithin(s: seq<Node>)
    requires Linked(s, Previous(s), Next(s))
    ensures forall x :: x in s ==> (x.previous == null || x.previous in s) && (x.next == null || x.next in s)
  {
    forall x | x in s ensures (x.previous == null || x.previous in s) && (x.next == null || x.next in s) {
      var i := IndexOf(s, x);
      Neighbours(s, i);
    }
  }
}
