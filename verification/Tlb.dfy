/**
 The three-level translation tree: a 64-bit virtual address is cut into three table
 indices and an offset; tables are created when a page is first translated.
 */
module Tlb {
  import opened Basics

  type Address = Word

  function Page(a: Address): nat { a / 0x1000 }
  function Offset(a: Address): (o: nat) { a % 0x1000 }

  function Pt(a: Address): nat { a / 0x1000 % 0x1000 }
  function Pt1(a: Address): nat { a / 0x100_0000 % 0x1_0000 }
  function Pt2(a: Address): nat { a / 0x100_0000_0000 % 0x100_0000 }

  /** The three indices tell pages apart, and nothing else. */
  lemma IndicesArePage(a: Address, b: Address)
    ensures Pt2(a) == Pt2(b) && Pt1(a) == Pt1(b) && Pt(a) == Pt(b) <==> Page(a) == Page(b)
  {
    PageOfIndices(a);
    PageOfIndices(b);
  }

  lemma PageOfIndices(a: Address)
    ensures Page(a) == (Pt2(a) * 0x1_0000 + Pt1(a)) * 0x1000 + Pt(a)
    ensures Pt(a) == Page(a) % 0x1000
    ensures Pt1(a) == Page(a) / 0x1000 % 0x1_0000
    ensures Pt2(a) == Page(a) / 0x1000_0000
  {
  }

  /** Where a page is mapped to: another virtual address, an offset in an arena of the
      host, or a remote node. */
  datatype Target = Nowhere | Vm(addr: nat) | Host(arena: nat, offset: nat) | Remote(node: nat, addr: nat)

  datatype Level = Data | PtLevel | Pt1Level | Pt2Level

  /** A node owns its children; Null is an empty slot. */
  datatype Node = Null | Node(level: Level, data: Target, children: seq<Node>)

  datatype Entry = Missing | Found(target: Target)

  // ----- the tree as a map from pages -----

  function Child(nodes: seq<Node>, i: nat): Node { if i < |nodes| then nodes[i] else Null }

  function Children(n: Node): seq<Node> { if n.Null? then [] else n.children }

  function Leaf(root: seq<Node>, i2: nat, i1: nat, i0: nat): Node {
    Child(Children(Child(Children(Child(root, i2)), i1)), i0)
  }

  function Lookup(root: seq<Node>, a: Address): Entry {
    var n := Leaf(root, Pt2(a), Pt1(a), Pt(a));
    if n.Null? then Missing else Found(n.data)
  }

  /** A node with children carries the level that a walk expects of it. */
  predicate Leveled(n: Node, level: Level) {
    n.Null? || n.level == level || (level != Data && n.children == [])
  }

  ghost predicate WellFormed(root: seq<Node>) {
    && (forall i2 :: Leveled(Child(root, i2), Pt2Level))
    && (forall i2, i1 :: Leveled(Child(Children(Child(root, i2)), i1), Pt1Level))
    && (forall i2, i1, i0 :: Leveled(Leaf(root, i2, i1, i0), Data))
  }

  function Fresh(): Node { Node(Data, Nowhere, []) }

  function Nulls(n: nat): (s: seq<Node>)
    ensures |s| == n && forall i :: 0 <= i < n ==> s[i] == Null
  {
    seq(n, i => Null)
  }

  /** The slots with index i made to exist and set to n. */
  function Placed(nodes: seq<Node>, i: nat, n: Node): (r: seq<Node>)
    ensures forall j: nat :: Child(r, j) == if j == i then n else Child(nodes, j)
  {
    var grown := if i < |nodes| then nodes else nodes + Nulls(i + 1 - |nodes|);
    grown[i := n]
  }

  class LazyHybridTLB {
    var root: seq<Node>

    constructor ()
      ensures WellFormed(root) && forall a :: Lookup(root, a) == Missing
    {
      root := [Fresh()];
      new;
      assert forall i1 :: Child(Children(Child(root, 0)), i1) == Null;
    }

    /** The page of a gets target, and no other page changes. */
    method Translate(a: Address, target: Target)
      requires WellFormed(root)
      modifies this
      ensures WellFormed(root)
      ensures forall b :: Lookup(root, b) == if Page(b) == Page(a) then Found(target) else old(Lookup(root, b))
    {
      var i2, i1, i0 := Pt2(a), Pt1(a), Pt(a);
      var n2 := Child(root, i2);
      if n2.Null? { n2 := Fresh(); }
      n2 := n2.(level := Pt2Level);
      var n1 := Child(n2.children, i1);
      if n1.Null? { n1 := Fresh(); }
      n1 := n1.(level := Pt1Level);
      var n0 := Child(n1.children, i0);
      if n0.Null? { n0 := Fresh(); }
      n0 := n0.(level := Data, data := target);
      n1 := n1.(children := Placed(n1.children, i0, n0));
      n2 := n2.(children := Placed(n2.children, i1, n1));
      ghost var root0 := root;
      root := Placed(root, i2, n2);
      TreeUpdated(root0, root, i2, i1, i0, n2, n1, n0);
      forall b ensures Lookup(root, b) == if Page(b) == Page(a) then Found(target) else Lookup(root0, b) {
        IndicesArePage(a, b);
      }
    }

    /** The walk of the tree, which checks the level of each node. */
    method GetEntry(a: Address) returns (e: Entry)
      requires WellFormed(root)
      ensures e == Lookup(root, a)
    {
      hide Pt, Pt1, Pt2;
      var i2 := Pt2(a);
      if i2 >= |root| || root[i2].Null? { return Missing; }
      var n2 := root[i2];
      assert n2 == Child(root, i2);
      if n2.level != Pt2Level { return Missing; }
      var i1 := Pt1(a);
      if i1 >= |n2.children| || n2.children[i1].Null? { return Missing; }
      var n1 := n2.children[i1];
      assert n1 == Child(Children(Child(root, i2)), i1);
      if n1.level != Pt1Level { return Missing; }
      var i0 := Pt(a);
      if i0 >= |n1.children| || n1.children[i0].Null? { return Missing; }
      var n0 := n1.children[i0];
      assert n0 == Leaf(root, i2, i1, i0);
      if n0.level != Data { return Missing; }
      return Found(n0.data);
    }

    /** Not a removal: the page then maps to virtual address 0. */
    method ClearEntry(a: Address)
      requires WellFormed(root)
      modifies this
      ensures WellFormed(root)
      ensures forall b :: Lookup(root, b) == if Page(b) == Page(a) then Found(Vm(0)) else old(Lookup(root, b))
    {
      Translate(a, Vm(0));
    }
  }

  /** One path of the tree replaced: every other leaf stays. */
  lemma TreeUpdated(root: seq<Node>, root': seq<Node>, i2: nat, i1: nat, i0: nat, n2: Node, n1: Node, n0: Node)
    requires WellFormed(root)
    requires n2.Node? && n2.level == Pt2Level && n1.Node? && n1.level == Pt1Level && n0.Node? && n0.level == Data
    requires forall j: nat :: Child(root', j) == if j == i2 then n2 else Child(root, j)
    requires forall j: nat :: Child(n2.children, j) == if j == i1 then n1 else Child(Children(Child(root, i2)), j)
    requires forall j: nat ::
      Child(n1.children, j) == if j == i0 then n0 else Child(Children(Child(Children(Child(root, i2)), i1)), j)
    ensures WellFormed(root')
    ensures forall j2: nat, j1: nat, j0: nat ::
      Leaf(root', j2, j1, j0) == if j2 == i2 && j1 == i1 && j0 == i0 then n0 else Leaf(root, j2, j1, j0)
  {
    hide Child;
    forall j2: nat, j1: nat, j0: nat
      ensures Leaf(root', j2, j1, j0) == if j2 == i2 && j1 == i1 && j0 == i0 then n0 else Leaf(root, j2, j1, j0)
    {
    }
  }
}
