/** The exported menu tree of the com.canonical.dbusmenu interface: typed
    layout nodes, addressing of a node by its path below the root, the
    pre-order lookup by id (findSubLayout) and the replacement of one node
    that every in-place mutation amounts to. */
module MenuTree {

  datatype Option<T> = None | Some(value: T)

  /** An unsigned 32-bit integer: the layout revision and event timestamps. */
  newtype uint32 = x: int | 0 <= x < 0x1_0000_0000

  /** The values the core stores in a node's property bag (a D-Bus variant
      holding a boolean, an integer, a string or a list of strings). */
  datatype Value = Bool(b: bool) | Int(i: int) | Str(s: string) | StrList(l: seq<string>)

  /** One menu layout entry: its id, its property bag and its children in
      display order. */
  datatype Node = Node(id: int, props: map<string, Value>, children: seq<Node>)

  /** A path addresses a node of a forest: the index of a tree of the
      forest, then the index among that node's children, and so on. The
      tray's paths address nodes of the root's children, so the root itself
      has no path. */
  type Path = seq<nat>

  predicate IsPath(nodes: seq<Node>, p: Path)
    decreases |p|
  {
    |p| > 0 && p[0] < |nodes| && (|p| == 1 || IsPath(nodes[p[0]].children, p[1..]))
  }

  function Get(nodes: seq<Node>, p: Path): Node
    requires IsPath(nodes, p)
    decreases |p|
  {
    if |p| == 1 then nodes[p[0]] else Get(nodes[p[0]].children, p[1..])
  }

  /** The forest with the node at p replaced by m; what writing through a
      node pointer does to the tree. */
  function Put(nodes: seq<Node>, p: Path, m: Node): (r: seq<Node>)
    requires IsPath(nodes, p)
    decreases |p|
    ensures |r| == |nodes|
    ensures IsPath(r, p) && Get(r, p) == m
  {
    if |p| == 1 then nodes[p[0] := m]
    else nodes[p[0] := nodes[p[0]].(children := Put(nodes[p[0]].children, p[1..], m))]
  }

  /** q comes strictly before p in a pre-order walk: q is a proper ancestor
      of p, or q lies in an earlier sibling subtree of one of p's
      ancestors. */
  predicate Before(q: Path, p: Path)
    decreases |q|
  {
    |q| > 0 && |p| > 0 &&
    (q[0] < p[0] || (q[0] == p[0] && (if |q| == 1 then |p| > 1 else Before(q[1..], p[1..]))))
  }

  /** No node of the forest carries this id. */
  ghost predicate Absent(id: int, nodes: seq<Node>)
  {
    forall q :: IsPath(nodes, q) ==> Get(nodes, q).id != id
  }

  /** findSubLayout: the loop over the children from index i, returning the
      first node with the id, searching each child's subtree (when it has
      children) before moving on to the next child. */
  function FindFrom(id: int, nodes: seq<Node>, i: nat): (r: Option<Path>)
    requires i <= |nodes|
    decreases nodes, |nodes| - i
    ensures r.Some? ==> IsPath(nodes, r.value) && r.value[0] >= i && Get(nodes, r.value).id == id
  {
    if i == |nodes| then None
    else if nodes[i].id == id then Some([i])
    else
      var sub := if |nodes[i].children| > 0 then FindFrom(id, nodes[i].children, 0) else None;
      if sub.Some? then Some([i] + sub.value) else FindFrom(id, nodes, i + 1)
  }

  function FindSub(id: int, nodes: seq<Node>): (r: Option<Path>)
    ensures r.Some? ==> IsPath(nodes, r.value) && Get(nodes, r.value).id == id
  {
    FindFrom(id, nodes, 0)
  }

  // ---------------------------------------------------------------------
  // Paths

  lemma PathCons(nodes: seq<Node>, q: Path)
    requires |q| > 1
    ensures IsPath(nodes, q) <==> q[0] < |nodes| && IsPath(nodes[q[0]].children, q[1..])
    ensures IsPath(nodes, q) ==> Get(nodes, q) == Get(nodes[q[0]].children, q[1..])
  {
  }

  /** The descendants of the node at p are the nodes of its children. */
  lemma {:induction false} GetBelow(nodes: seq<Node>, p: Path, r: Path)
    requires IsPath(nodes, p)
    ensures IsPath(nodes, p + r) <==> (r == [] || IsPath(Get(nodes, p).children, r))
    ensures r != [] && IsPath(nodes, p + r) ==> Get(nodes, p + r) == Get(Get(nodes, p).children, r)
    decreases |p|
  {
    if r == [] {
      assert p + r == p;
    } else if |p| == 1 {
      assert (p + r)[0] == p[0] && (p + r)[1..] == r;
    } else {
      assert (p + r)[0] == p[0] && (p + r)[1..] == p[1..] + r;
      GetBelow(nodes[p[0]].children, p[1..], r);
    }
  }

  /** Every proper prefix of a path is a path, to an ancestor. */
  lemma {:induction false} PrefixIsPath(nodes: seq<Node>, p: Path, q: Path)
    requires IsPath(nodes, p) && |q| > 0 && q <= p
    ensures IsPath(nodes, q)
    decreases |p|
  {
    if |q| > 1 {
      assert q[1..] <= p[1..];
      PrefixIsPath(nodes[p[0]].children, p[1..], q[1..]);
    }
  }

  lemma PrefixTail(q: Path, p: Path)
    requires |q| > 0 && |p| > 0 && q[0] == p[0]
    ensures q <= p <==> q[1..] <= p[1..]
  {
    if q[1..] <= p[1..] {
      assert q == [q[0]] + q[1..] && p == [p[0]] + p[1..];
      assert p[..|q|] == [p[0]] + p[1..][..|q| - 1];
    }
  }

  // ---------------------------------------------------------------------
  // Replacing one node

  /** Nodes off the path to p (neither ancestors nor descendants of p) are
      untouched by Put. */
  lemma {:induction false} PutElsewhere(nodes: seq<Node>, p: Path, m: Node, q: Path)
    requires IsPath(nodes, p)
    requires !(q <= p) && !(p <= q)
    ensures IsPath(Put(nodes, p, m), q) <==> IsPath(nodes, q)
    ensures IsPath(nodes, q) ==> Get(Put(nodes, p, m), q) == Get(nodes, q)
    decreases |p|
  {
    if |q| > 0 && q[0] == p[0] {
      PrefixTail(q, p);
      PrefixTail(p, q);
      PutElsewhere(nodes[p[0]].children, p[1..], m, q[1..]);
      PathCons(nodes, q);
      PathCons(Put(nodes, p, m), q);
    }
  }

  /** The ancestors of p keep their id, their properties and their number of
      children. */
  lemma {:induction false} PutAbove(nodes: seq<Node>, p: Path, m: Node, q: Path)
    requires IsPath(nodes, p) && |q| > 0 && q < p
    ensures IsPath(nodes, q) && IsPath(Put(nodes, p, m), q)
    ensures Get(Put(nodes, p, m), q).id == Get(nodes, q).id
    ensures Get(Put(nodes, p, m), q).props == Get(nodes, q).props
    ensures |Get(Put(nodes, p, m), q).children| == |Get(nodes, q).children|
    decreases |p|
  {
    PrefixIsPath(nodes, p, q);
    if |q| > 1 {
      PrefixTail(q, p);
      PutAbove(nodes[p[0]].children, p[1..], m, q[1..]);
      PathCons(Put(nodes, p, m), q);
    }
  }

  /** Replacing a node by one with the same children changes no other
      node's id or properties. */
  lemma PutOnlyThere(nodes: seq<Node>, p: Path, m: Node, q: Path)
    requires IsPath(nodes, p) && m.children == Get(nodes, p).children
    requires IsPath(nodes, q) && q != p
    ensures IsPath(Put(nodes, p, m), q)
    ensures Get(Put(nodes, p, m), q).id == Get(nodes, q).id
    ensures Get(Put(nodes, p, m), q).props == Get(nodes, q).props
  {
    if q < p {
      PutAbove(nodes, p, m, q);
    } else if p < q {
      var r := q[|p|..];
      assert q == p + r;
      GetBelow(nodes, p, r);
      GetBelow(Put(nodes, p, m), p, r);
    } else {
      PutElsewhere(nodes, p, m, q);
    }
  }

  /** Appending trees to a forest keeps every path of the old forest and
      its node; the only new paths start at the appended trees. */
  lemma GetAppend(nodes: seq<Node>, extra: seq<Node>, q: Path)
    requires |q| > 0 && q[0] < |nodes|
    ensures IsPath(nodes + extra, q) <==> IsPath(nodes, q)
    ensures IsPath(nodes, q) ==> Get(nodes + extra, q) == Get(nodes, q)
  {
    assert (nodes + extra)[q[0]] == nodes[q[0]];
    if |q| > 1 {
      PathCons(nodes, q);
      PathCons(nodes + extra, q);
    }
  }

  /** Writing back the node already at p changes nothing. */
  lemma {:induction false} PutSame(nodes: seq<Node>, p: Path)
    requires IsPath(nodes, p)
    ensures Put(nodes, p, Get(nodes, p)) == nodes
    decreases |p|
  {
    if |p| > 1 {
      PutSame(nodes[p[0]].children, p[1..]);
    }
  }

  /** A second write at the same path overrides the first. */
  lemma {:induction false} PutPut(nodes: seq<Node>, p: Path, m1: Node, m2: Node)
    requires IsPath(nodes, p)
    ensures Put(Put(nodes, p, m1), p, m2) == Put(nodes, p, m2)
    decreases |p|
  {
    if |p| > 1 {
      PutPut(nodes[p[0]].children, p[1..], m1, m2);
    }
  }

  /** Writing at a child of the node at p is writing the node at p with that
      child replaced. */
  lemma {:induction false} PutChild(nodes: seq<Node>, p: Path, k: nat, m: Node)
    requires IsPath(nodes, p) && k < |Get(nodes, p).children|
    ensures IsPath(nodes, p + [k])
    ensures Put(nodes, p + [k], m) ==
            Put(nodes, p, Get(nodes, p).(children := Get(nodes, p).children[k := m]))
    decreases |p|
  {
    GetBelow(nodes, p, [k]);
    if |p| == 1 {
      assert (p + [k])[0] == p[0] && (p + [k])[1..] == [k];
    } else {
      assert (p + [k])[0] == p[0] && (p + [k])[1..] == p[1..] + [k];
      PutChild(nodes[p[0]].children, p[1..], k, m);
    }
  }

  // ---------------------------------------------------------------------
  // Shape: ids and children order, ignoring properties

  ghost predicate SameShape(a: seq<Node>, b: seq<Node>)
    decreases a
  {
    |a| == |b| &&
    forall i :: 0 <= i < |a| ==> a[i].id == b[i].id && SameShape(a[i].children, b[i].children)
  }

  lemma {:induction false} SameShapeRefl(a: seq<Node>)
    ensures SameShape(a, a)
    decreases a
  {
    forall i | 0 <= i < |a| ensures SameShape(a[i].children, a[i].children) {
      SameShapeRefl(a[i].children);
    }
  }

  /** Replacing a node by one with the same id and the same children keeps
      the shape of the whole forest. */
  lemma {:induction false} PutKeepsShape(nodes: seq<Node>, p: Path, m: Node)
    requires IsPath(nodes, p)
    requires m.id == Get(nodes, p).id && m.children == Get(nodes, p).children
    ensures SameShape(Put(nodes, p, m), nodes)
    decreases |p|
  {
    var r := Put(nodes, p, m);
    forall i | 0 <= i < |nodes| ensures r[i].id == nodes[i].id && SameShape(r[i].children, nodes[i].children) {
      if i != p[0] {
        SameShapeRefl(nodes[i].children);
      } else if |p| == 1 {
        SameShapeRefl(nodes[i].children);
      } else {
        PutKeepsShape(nodes[i].children, p[1..], m);
      }
    }
  }

  /** Distinct nodes of the forest carry distinct ids. */
  ghost predicate UniqueIds(nodes: seq<Node>)
  {
    forall p, q :: IsPath(nodes, p) && IsPath(nodes, q) && Get(nodes, p).id == Get(nodes, q).id ==> p == q
  }

  /** Forests of the same shape have the same paths, with the same ids. */
  lemma {:induction false} SameShapePath(a: seq<Node>, b: seq<Node>, q: Path)
    requires SameShape(a, b)
    ensures IsPath(a, q) <==> IsPath(b, q)
    ensures IsPath(a, q) ==> Get(a, q).id == Get(b, q).id
    decreases |q|
  {
    if |q| > 1 && q[0] < |a| {
      PathCons(a, q);
      PathCons(b, q);
      SameShapePath(a[q[0]].children, b[q[0]].children, q[1..]);
    }
  }

  lemma SameShapeUnique(a: seq<Node>, b: seq<Node>)
    requires SameShape(a, b) && UniqueIds(b)
    ensures UniqueIds(a)
  {
    forall p, q | IsPath(a, p) && IsPath(a, q) && Get(a, p).id == Get(a, q).id
      ensures p == q
    {
      SameShapePath(a, b, p);
      SameShapePath(a, b, q);
    }
  }

  /** Appending a childless node keeps the ids distinct exactly when no
      node of the forest already has its id. */
  lemma AppendLeafUnique(nodes: seq<Node>, n: Node)
    requires UniqueIds(nodes) && n.children == []
    ensures UniqueIds(nodes + [n]) <==> Absent(n.id, nodes)
  {
    var r := nodes + [n];
    var last: Path := [|nodes|];
    assert IsPath(r, last) && Get(r, last) == n;
    if Absent(n.id, nodes) {
      forall p, q | IsPath(r, p) && IsPath(r, q) && Get(r, p).id == Get(r, q).id
        ensures p == q
      {
        if p[0] < |nodes| {
          GetAppend(nodes, [n], p);
        } else if |p| > 1 {
          PathCons(r, p);
        }
        if q[0] < |nodes| {
          GetAppend(nodes, [n], q);
        } else if |q| > 1 {
          PathCons(r, q);
        }
      }
    } else {
      var q :| IsPath(nodes, q) && Get(nodes, q).id == n.id;
      GetAppend(nodes, [n], q);
      assert IsPath(r, q) && Get(r, q).id == Get(r, last).id && q != last;
    }
  }

  // ---------------------------------------------------------------------
  // Lookup

  /** FindFrom reports no match exactly when no node from index i on has
      the id. */
  lemma {:induction false} FindFromNone(id: int, nodes: seq<Node>, i: nat)
    requires i <= |nodes|
    ensures FindFrom(id, nodes, i).None? <==>
            forall q :: IsPath(nodes, q) && q[0] >= i ==> Get(nodes, q).id != id
    decreases nodes, |nodes| - i
  {
    if i < |nodes| {
      if nodes[i].id == id {
        assert IsPath(nodes, [i]);
      } else {
        var sub := if |nodes[i].children| > 0 then FindFrom(id, nodes[i].children, 0) else None;
        if sub.Some? {
          PathCons(nodes, [i] + sub.value);
          assert ([i] + sub.value)[1..] == sub.value;
        } else {
          FindFromNone(id, nodes, i + 1);
          if |nodes[i].children| > 0 {
            FindFromNone(id, nodes[i].children, 0);
          }
          if FindFrom(id, nodes, i + 1).None? {
            forall q | IsPath(nodes, q) && q[0] >= i ensures Get(nodes, q).id != id {
              if q[0] == i && |q| > 1 {
                PathCons(nodes, q);
              }
            }
          }
        }
      }
    }
  }

  /** No node that comes before FindFrom's answer in pre-order (from index i
      on) has the id: the answer is the first match. */
  lemma {:induction false} FindFromFirst(id: int, nodes: seq<Node>, i: nat)
    requires i <= |nodes| && FindFrom(id, nodes, i).Some?
    ensures forall q :: IsPath(nodes, q) && q[0] >= i && Before(q, FindFrom(id, nodes, i).value) ==>
                        Get(nodes, q).id != id
    decreases nodes, |nodes| - i
  {
    var p := FindFrom(id, nodes, i).value;
    if nodes[i].id != id {
      var sub := if |nodes[i].children| > 0 then FindFrom(id, nodes[i].children, 0) else None;
      if sub.Some? {
        FindFromFirst(id, nodes[i].children, 0);
        assert p == [i] + sub.value;
        forall q | IsPath(nodes, q) && q[0] >= i && Before(q, p) ensures Get(nodes, q).id != id {
          if |q| > 1 {
            PathCons(nodes, q);
            assert p[1..] == sub.value;
          }
        }
      } else {
        FindFromFirst(id, nodes, i + 1);
        if |nodes[i].children| > 0 {
          FindFromNone(id, nodes[i].children, 0);
        }
        forall q | IsPath(nodes, q) && q[0] >= i && Before(q, p) ensures Get(nodes, q).id != id {
          if q[0] == i && |q| > 1 {
            PathCons(nodes, q);
          }
        }
      }
    }
  }

  /** The lookup below the root, against its declarative meaning: a hit is
      a node with that id and the first such node in pre-order, and there is
      no hit exactly when no node of the forest has the id. */
  lemma FindSubSpec(id: int, nodes: seq<Node>)
    ensures FindSub(id, nodes).Some? ==>
              IsPath(nodes, FindSub(id, nodes).value) &&
              Get(nodes, FindSub(id, nodes).value).id == id
    ensures FindSub(id, nodes).Some? ==>
              forall q :: IsPath(nodes, q) && Before(q, FindSub(id, nodes).value) ==> Get(nodes, q).id != id
    ensures FindSub(id, nodes).None? <==> Absent(id, nodes)
  {
    FindFromNone(id, nodes, 0);
    if FindSub(id, nodes).Some? {
      FindFromFirst(id, nodes, 0);
    }
  }

  /** The lookup sees only ids and the children order, so it gives the same
      answer on any forest of the same shape. */
  lemma {:induction false} FindFromSameShape(id: int, a: seq<Node>, b: seq<Node>, i: nat)
    requires SameShape(a, b) && i <= |a|
    ensures FindFrom(id, a, i) == FindFrom(id, b, i)
    decreases a, |a| - i
  {
    if i < |a| && a[i].id != id {
      if |a[i].children| > 0 {
        FindFromSameShape(id, a[i].children, b[i].children, 0);
      }
      FindFromSameShape(id, a, b, i + 1);
    }
  }

  /** When exactly one node has the id, the lookup finds that node. */
  lemma FindUnique(id: int, nodes: seq<Node>, p: Path)
    requires IsPath(nodes, p) && Get(nodes, p).id == id
    requires forall q :: IsPath(nodes, q) && Get(nodes, q).id == id ==> q == p
    ensures FindSub(id, nodes) == Some(p)
  {
    FindSubSpec(id, nodes);
  }

  /** Pre-order is a total order on distinct paths. */
  lemma {:induction false} BeforeTotal(p: Path, q: Path)
    requires |p| > 0 && |q| > 0 && p != q
    ensures Before(p, q) || Before(q, p)
    decreases |p|
  {
    if p[0] == q[0] && |p| > 1 && |q| > 1 {
      assert p == [p[0]] + p[1..] && q == [q[0]] + q[1..];
      BeforeTotal(p[1..], q[1..]);
    }
  }

  /** A node that comes before p is not p itself nor one of its
      descendants. */
  lemma {:induction false} BeforeNotBelow(q: Path, p: Path)
    requires Before(q, p)
    ensures !(p <= q)
    decreases |q|
  {
    if q[0] == p[0] && |q| > 1 {
      BeforeNotBelow(q[1..], p[1..]);
      PrefixTail(p, q);
    }
  }

  /** Rewriting the node the lookup found, keeping its id, leaves it the
      node the lookup finds: everything before it in pre-order is
      unchanged. */
  lemma FindAfterPut(id: int, nodes: seq<Node>, p: Path, m: Node)
    requires FindSub(id, nodes) == Some(p) && m.id == id
    ensures FindSub(id, Put(nodes, p, m)) == Some(p)
  {
    var r := Put(nodes, p, m);
    FindSubSpec(id, nodes);
    FindSubSpec(id, r);
    assert !Absent(id, r) by {
      assert IsPath(r, p) && Get(r, p).id == id;
    }
    var p2 := FindSub(id, r).value;
    if p2 != p {
      BeforeTotal(p, p2);
      if Before(p2, p) {
        BeforeNotBelow(p2, p);
        if p2 < p {
          PutAbove(nodes, p, m, p2);
        } else {
          PutElsewhere(nodes, p, m, p2);
        }
      }
    }
  }

  /** Appending trees to a forest does not change a hit in the old forest;
      only when the old forest has no hit are the new trees searched. */
  lemma {:induction false} FindFromAppend(id: int, nodes: seq<Node>, extra: seq<Node>, i: nat)
    requires i <= |nodes|
    ensures FindFrom(id, nodes + extra, i) ==
            if FindFrom(id, nodes, i).Some? then FindFrom(id, nodes, i) else FindFrom(id, nodes + extra, |nodes|)
    decreases |nodes| - i
  {
    if i < |nodes| {
      assert (nodes + extra)[i] == nodes[i];
      FindFromAppend(id, nodes, extra, i + 1);
    }
  }
}
