/** What the mutations and queries of the menu store do to and read from the
    tree below the root: the effect of addOrUpdateMenuItem and of
    hideMenuItem / showMenuItem, and the entries GetGroupProperties
    returns, each with the properties the store promises of it. */
module MenuStore {
  import opened MenuTree
  import opened MenuProps

  // ---------------------------------------------------------------------
  // addOrUpdateMenuItem

  /** The parent's node, when the item has a parent and the parent's node
      is in the tree. */
  function ParentPath(root: Node, item: MenuItem): (r: Option<Path>)
    ensures r.Some? ==> item.parent.Some? && IsPath(root.children, r.value) &&
                        Get(root.children, r.value).id == item.parent.value
    ensures r.None? <==> item.parent.None? || Absent(item.parent.value, root.children)
  {
    if item.parent.Some? then
      FindSubSpec(item.parent.value, root.children);
      FindSub(item.parent.value, root.children)
    else None
  }

  /** The node a created item gets: no children, and the properties the item
      writes into an empty bag. */
  function Leaf(item: MenuItem): (r: Node)
    ensures r.id == item.id && r.children == []
    ensures r.props.Keys == ItemKeys
    ensures r.props["label"] == Str(item.title) && r.props["enabled"] == Bool(!item.disabled)
  {
    Node(item.id, ItemProps(item, map[]), [])
  }

  /** Where a created item's node goes: after the last child of its parent's
      node, or after the last child of the root. */
  function NewPath(root: Node, item: MenuItem): (r: Path)
    ensures !IsPath(root.children, r)
    ensures |r| > 1 ==> IsPath(root.children, r[..|r| - 1])
    ensures |r| == 1 <==> ParentPath(root, item).None?
  {
    match ParentPath(root, item)
    case Some(pp) =>
      var k := |Get(root.children, pp).children|;
      GetBelow(root.children, pp, [k]);
      assert (pp + [k])[..|pp|] == pp;
      pp + [k]
    case None => [|root.children|]
  }

  /** The tree after addOrUpdateMenuItem. An item whose id is found has its
      properties rewritten in place; otherwise a new node is attached as the
      last child of the parent's node, which is marked as having a submenu,
      or as the last child of the root when the parent is not in the tree. */
  function Upsert(root: Node, item: MenuItem): (r: Node)
    ensures r.id == root.id && r.props == root.props
    ensures |r.children| >= |root.children|
  {
    match FindSub(item.id, root.children)
    case Some(p) =>
      var n := Get(root.children, p);
      root.(children := Put(root.children, p, n.(props := ItemProps(item, n.props))))
    case None =>
      match ParentPath(root, item)
      case Some(pp) =>
        var parent := Get(root.children, pp);
        root.(children := Put(root.children, pp,
                              parent.(props := parent.props["children-display" := Str("submenu")],
                                      children := parent.children + [Leaf(item)])))
      case None =>
        root.(children := root.children + [Leaf(item)])
  }

  /** Update path: the tree keeps its shape (ids and children order), the
      item's node gets the item's properties over its old ones, and no other
      node's properties change. */
  lemma UpsertUpdate(root: Node, item: MenuItem)
    requires FindSub(item.id, root.children).Some?
    ensures var p := FindSub(item.id, root.children).value;
            var r := Upsert(root, item);
            && r.id == root.id && r.props == root.props
            && SameShape(r.children, root.children)
            && IsPath(r.children, p)
            && Get(r.children, p).props == ItemProps(item, Get(root.children, p).props)
            && forall q :: IsPath(root.children, q) && q != p ==>
                           IsPath(r.children, q) && Get(r.children, q).props == Get(root.children, q).props
  {
    var p := FindSub(item.id, root.children).value;
    var n := Get(root.children, p);
    var m := n.(props := ItemProps(item, n.props));
    PutKeepsShape(root.children, p, m);
    forall q | IsPath(root.children, q) && q != p
      ensures IsPath(Put(root.children, p, m), q) && Get(Put(root.children, p, m), q).props == Get(root.children, q).props
    {
      PutOnlyThere(root.children, p, m, q);
    }
  }

  /** The node of the parent of a created item, after the creation. */
  ghost predicate PromotedParent(root: Node, item: MenuItem, r: Node, pp: Path)
    requires IsPath(root.children, pp)
  {
    var parent := Get(root.children, pp);
    && IsPath(r.children, pp)
    && Get(r.children, pp).id == parent.id
    && Get(r.children, pp).props == parent.props["children-display" := Str("submenu")]
    && Get(r.children, pp).children == parent.children + [Leaf(item)]
  }

  /** Create path: the new node sits at NewPath, as the last child of the
      parent's node (now marked as a submenu) or of the root, and it is the
      node the lookup of the item's id now finds. */
  lemma {:induction false} UpsertCreate(root: Node, item: MenuItem)
    requires FindSub(item.id, root.children).None?
    ensures var r := Upsert(root, item);
            && r.id == root.id && r.props == root.props
            && IsPath(r.children, NewPath(root, item))
            && Get(r.children, NewPath(root, item)) == Leaf(item)
            && FindSub(item.id, r.children) == Some(NewPath(root, item))
            && (ParentPath(root, item).Some? ==> PromotedParent(root, item, r, ParentPath(root, item).value))
            && (ParentPath(root, item).None? ==> r.children == root.children + [Leaf(item)])
  {
    FindSubSpec(item.id, root.children);
    var c := root.children;
    var r := Upsert(root, item);
    var np := NewPath(root, item);
    match ParentPath(root, item)
    case Some(pp) =>
      var parent := Get(c, pp);
      var k := |parent.children|;
      var m := parent.(props := parent.props["children-display" := Str("submenu")],
                       children := parent.children + [Leaf(item)]);
      assert r.children == Put(c, pp, m);
      GetBelow(r.children, pp, [k]);
      forall q | IsPath(r.children, q) && Get(r.children, q).id == item.id ensures q == np {
        if q < pp {
          PutAbove(c, pp, m, q);
        } else if pp < q {
          var rest := q[|pp|..];
          assert q == pp + rest;
          GetBelow(r.children, pp, rest);
          if rest[0] < k {
            GetAppend(parent.children, [Leaf(item)], rest);
            GetBelow(c, pp, rest);
          } else if |rest| > 1 {
            PathCons(m.children, rest);
            assert false;
          } else {
            assert rest == [k];
          }
        } else if q != pp {
          PutElsewhere(c, pp, m, q);
        }
      }
      FindUnique(item.id, r.children, np);
    case None =>
      var k := |c|;
      assert r.children == c + [Leaf(item)];
      assert IsPath(r.children, [k]);
      forall q | IsPath(r.children, q) && Get(r.children, q).id == item.id ensures q == np {
        if q[0] < k {
          GetAppend(c, [Leaf(item)], q);
        } else if |q| > 1 {
          PathCons(r.children, q);
          assert false;
        }
      }
      FindUnique(item.id, r.children, np);
  }

  /** After addOrUpdateMenuItem, on either path, the lookup of the item's id
      finds a node labelled with the item's title and enabled unless the
      item is disabled; on the create path the lookup of the parent's id
      still finds the parent's node, now marked as a submenu. */
  lemma UpsertLookup(root: Node, item: MenuItem)
    ensures var r := Upsert(root, item);
            && FindSub(item.id, r.children).Some?
            && var props := Get(r.children, FindSub(item.id, r.children).value).props;
               && "label" in props && props["label"] == Str(item.title)
               && "enabled" in props && props["enabled"] == Bool(!item.disabled)
    ensures FindSub(item.id, root.children).None? && ParentPath(root, item).Some? ==>
              var r := Upsert(root, item);
              && FindSub(item.parent.value, r.children) == ParentPath(root, item)
              && var props := Get(r.children, ParentPath(root, item).value).props;
                 "children-display" in props && props["children-display"] == Str("submenu")
  {
    var c := root.children;
    match FindSub(item.id, c)
    case Some(p) =>
      var n := Get(c, p);
      FindAfterPut(item.id, c, p, n.(props := ItemProps(item, n.props)));
    case None =>
      UpsertCreate(root, item);
      if ParentPath(root, item).Some? {
        var pp := ParentPath(root, item).value;
        var parent := Get(c, pp);
        FindAfterPut(item.parent.value, c, pp,
                     parent.(props := parent.props["children-display" := Str("submenu")],
                             children := parent.children + [Leaf(item)]));
      }
  }

  /** The steps addOrUpdateMenuItem takes on the create path with a parent:
      mark the parent as a submenu, append an empty node to its children,
      then apply the item to that node; together they give Upsert. */
  lemma CreateUnderParentSteps(root: Node, item: MenuItem, pp: Path)
    requires FindSub(item.id, root.children).None? && ParentPath(root, item) == Some(pp)
    ensures var c := root.children;
            var parent := Get(c, pp);
            var leaf := Node(item.id, map[], []);
            var c1 := Put(c, pp, parent.(props := parent.props["children-display" := Str("submenu")]));
            var promoted := Get(c1, pp);
            var c2 := Put(c1, pp, promoted.(children := promoted.children + [leaf]));
            var path := pp + [|parent.children|];
            && IsPath(c2, path) && Get(c2, path) == leaf
            && root.(children := Put(c2, path, leaf.(props := ItemProps(item, leaf.props)))) == Upsert(root, item)
  {
    var c := root.children;
    var parent := Get(c, pp);
    var leaf := Node(item.id, map[], []);
    var promoted := parent.(props := parent.props["children-display" := Str("submenu")]);
    var c1 := Put(c, pp, promoted);
    var attached := promoted.(children := promoted.children + [leaf]);
    var c2 := Put(c1, pp, attached);
    var k := |parent.children|;
    PutPut(c, pp, promoted, attached);
    GetBelow(c2, pp, [k]);
    PutChild(c2, pp, k, Leaf(item));
    PutPut(c, pp, attached, attached.(children := attached.children[k := Leaf(item)]));
    assert attached.children[k := Leaf(item)] == parent.children + [Leaf(item)];
  }

  /** q lies on the way from the root to the parent's node of the item
      (the parent's node included). */
  ghost predicate OnParentLine(root: Node, item: MenuItem, q: Path)
  {
    ParentPath(root, item).Some? && q <= ParentPath(root, item).value
  }

  /** Create path, everything else: every node already in the tree is still
      there with its id; all but the parent's node keep their properties;
      nodes off the line to the parent are entirely unchanged, children
      included, and those on it keep the number of their children. */
  lemma {:induction false} UpsertCreateElsewhere(root: Node, item: MenuItem, q: Path)
    requires FindSub(item.id, root.children).None?
    requires IsPath(root.children, q)
    ensures var r := Upsert(root, item);
            && IsPath(r.children, q)
            && Get(r.children, q).id == Get(root.children, q).id
            && (ParentPath(root, item) != Some(q) ==> Get(r.children, q).props == Get(root.children, q).props)
            && (ParentPath(root, item) != Some(q) ==>
                  |Get(r.children, q).children| == |Get(root.children, q).children|)
            && (!OnParentLine(root, item, q) ==> Get(r.children, q) == Get(root.children, q))
  {
    var c := root.children;
    var r := Upsert(root, item);
    match ParentPath(root, item)
    case Some(pp) =>
      var parent := Get(c, pp);
      var m := parent.(props := parent.props["children-display" := Str("submenu")],
                       children := parent.children + [Leaf(item)]);
      assert r.children == Put(c, pp, m);
      if q == pp {
      } else if q < pp {
        PutAbove(c, pp, m, q);
      } else if pp < q {
        var rest := q[|pp|..];
        assert q == pp + rest;
        GetBelow(c, pp, rest);
        GetBelow(r.children, pp, rest);
        GetAppend(parent.children, [Leaf(item)], rest);
      } else {
        PutElsewhere(c, pp, m, q);
      }
    case None =>
      assert r.children == c + [Leaf(item)];
      GetAppend(c, [Leaf(item)], q);
  }

  /** Adding or updating the same item a second time leaves the tree as the
      first call left it. */
  lemma {:induction false} UpsertIdempotent(root: Node, item: MenuItem)
    ensures Upsert(Upsert(root, item), item) == Upsert(root, item)
  {
    var r := Upsert(root, item);
    match FindSub(item.id, root.children)
    case Some(p) =>
      var n := Get(root.children, p);
      var m := n.(props := ItemProps(item, n.props));
      PutKeepsShape(root.children, p, m);
      FindFromSameShape(item.id, r.children, root.children, 0);
      ItemPropsOverride(item, item, n.props);
      PutPut(root.children, p, m, m);
    case None =>
      UpsertCreate(root, item);
      var np := NewPath(root, item);
      ItemPropsOverride(item, item, map[]);
      assert Get(r.children, np).(props := ItemProps(item, Get(r.children, np).props)) == Get(r.children, np);
      PutSame(r.children, np);
  }

  /** Create path: every node of the new tree other than the created one
      was already in the old tree at the same path, with the same id. */
  lemma UpsertCreateOrigin(root: Node, item: MenuItem, q: Path)
    requires FindSub(item.id, root.children).None?
    requires IsPath(Upsert(root, item).children, q) && q != NewPath(root, item)
    ensures IsPath(root.children, q)
    ensures Get(Upsert(root, item).children, q).id == Get(root.children, q).id
  {
    var c := root.children;
    var r := Upsert(root, item);
    match ParentPath(root, item)
    case Some(pp) =>
      var parent := Get(c, pp);
      var k := |parent.children|;
      var m := parent.(props := parent.props["children-display" := Str("submenu")],
                       children := parent.children + [Leaf(item)]);
      assert r.children == Put(c, pp, m);
      if q < pp {
        PutAbove(c, pp, m, q);
      } else if pp < q {
        var rest := q[|pp|..];
        assert q == pp + rest;
        GetBelow(r.children, pp, rest);
        if rest[0] < k {
          GetAppend(parent.children, [Leaf(item)], rest);
          GetBelow(c, pp, rest);
        } else if |rest| > 1 {
          PathCons(m.children, rest);
          assert false;
        } else {
          assert false;
        }
      } else if q != pp {
        PutElsewhere(c, pp, m, q);
      }
    case None =>
      assert r.children == c + [Leaf(item)];
      if q[0] < |c| {
        GetAppend(c, [Leaf(item)], q);
      } else if |q| > 1 {
        PathCons(r.children, q);
        assert false;
      } else {
        assert false;
      }
  }

  /** addOrUpdateMenuItem keeps the ids of the tree distinct: an update
      keeps every id where it was, and a creation happens only for an id no
      node has. */
  lemma UpsertKeepsUnique(root: Node, item: MenuItem)
    requires UniqueIds(root.children)
    ensures UniqueIds(Upsert(root, item).children)
  {
    var c := root.children;
    var r := Upsert(root, item);
    if FindSub(item.id, c).Some? {
      UpsertUpdate(root, item);
      SameShapeUnique(r.children, c);
    } else {
      FindSubSpec(item.id, c);
      UpsertCreate(root, item);
      var np := NewPath(root, item);
      forall p, q | IsPath(r.children, p) && IsPath(r.children, q) && Get(r.children, p).id == Get(r.children, q).id
        ensures p == q
      {
        if p != np {
          UpsertCreateOrigin(root, item, p);
        }
        if q != np {
          UpsertCreateOrigin(root, item, q);
        }
      }
    }
  }

  /** addOrUpdateMenuItem removes no node: every id in the tree is still
      there afterwards. */
  lemma UpsertKeepsIds(root: Node, item: MenuItem, id: int)
    requires !Absent(id, root.children)
    ensures !Absent(id, Upsert(root, item).children)
  {
    var c := root.children;
    var q :| IsPath(c, q) && Get(c, q).id == id;
    if FindSub(item.id, c).Some? {
      UpsertUpdate(root, item);
      SameShapePath(Upsert(root, item).children, c, q);
    } else {
      UpsertCreateElsewhere(root, item, q);
    }
  }

  /** The tree after addOrUpdateMenuItem is called for each item in turn. */
  function UpsertAll(root: Node, items: seq<MenuItem>): (r: Node)
    ensures r.id == root.id && r.props == root.props
    ensures |r.children| >= |root.children|
    decreases |items|
  {
    if items == [] then root else UpsertAll(Upsert(root, items[0]), items[1..])
  }

  /** After any sequence of addOrUpdateMenuItem calls on a tree with
      distinct ids, the ids are still distinct, every id that was in the
      tree is still there, and every item's id is in it: each added or
      updated id appears exactly once. */
  lemma {:induction false} UpsertAllPresent(root: Node, items: seq<MenuItem>)
    requires UniqueIds(root.children)
    ensures UniqueIds(UpsertAll(root, items).children)
    ensures forall id :: !Absent(id, root.children) ==> !Absent(id, UpsertAll(root, items).children)
    ensures forall k :: 0 <= k < |items| ==> !Absent(items[k].id, UpsertAll(root, items).children)
    decreases |items|
  {
    if items != [] {
      var r1 := Upsert(root, items[0]);
      UpsertKeepsUnique(root, items[0]);
      UpsertLookup(root, items[0]);
      FindSubSpec(items[0].id, r1.children);
      forall id | !Absent(id, root.children) ensures !Absent(id, r1.children) {
        UpsertKeepsIds(root, items[0], id);
      }
      UpsertAllPresent(r1, items[1..]);
      forall k | 0 <= k < |items| ensures !Absent(items[k].id, UpsertAll(root, items).children) {
        if k > 0 {
          assert items[k] == items[1..][k - 1];
        }
      }
    }
  }

  // ---------------------------------------------------------------------
  // hideMenuItem / showMenuItem

  /** The tree after the found node's visible flag is set; unchanged when
      the id is not found. */
  function WithVisible(root: Node, id: int, visible: bool): (r: Node)
    ensures r.id == root.id && r.props == root.props
    ensures |r.children| == |root.children|
  {
    match FindSub(id, root.children)
    case Some(p) =>
      var n := Get(root.children, p);
      root.(children := Put(root.children, p, n.(props := n.props["visible" := Bool(visible)])))
    case None => root
  }

  /** Setting the visible flag: the found node's flag is the new value and
      its other properties stay; the shape and every other node's properties
      are unchanged, so the node is still the one the lookup finds. */
  lemma WithVisibleSpec(root: Node, id: int, visible: bool)
    ensures var r := WithVisible(root, id, visible);
            && r.id == root.id && r.props == root.props
            && SameShape(r.children, root.children)
            && FindSub(id, r.children) == FindSub(id, root.children)
    ensures FindSub(id, root.children).Some? ==>
              var p := FindSub(id, root.children).value;
              var r := WithVisible(root, id, visible);
              && IsPath(r.children, p)
              && Get(r.children, p).props == Get(root.children, p).props["visible" := Bool(visible)]
              && forall q :: IsPath(root.children, q) && q != p ==>
                             IsPath(r.children, q) && Get(r.children, q).props == Get(root.children, q).props
    ensures FindSub(id, root.children).None? ==> WithVisible(root, id, visible) == root
  {
    var r := WithVisible(root, id, visible);
    if FindSub(id, root.children).Some? {
      var p := FindSub(id, root.children).value;
      var n := Get(root.children, p);
      var m := n.(props := n.props["visible" := Bool(visible)]);
      PutKeepsShape(root.children, p, m);
      forall q | IsPath(root.children, q) && q != p
        ensures IsPath(r.children, q) && Get(r.children, q).props == Get(root.children, q).props
      {
        PutOnlyThere(root.children, p, m, q);
      }
    } else {
      SameShapeRefl(root.children);
    }
    FindFromSameShape(id, r.children, root.children, 0);
  }

  /** The last visibility change wins: hiding and then showing an item gives
      the tree that showing it alone gives. */
  lemma WithVisibleOverride(root: Node, id: int, first: bool, second: bool)
    ensures WithVisible(WithVisible(root, id, first), id, second) == WithVisible(root, id, second)
  {
    WithVisibleSpec(root, id, first);
    if FindSub(id, root.children).Some? {
      var p := FindSub(id, root.children).value;
      var n := Get(root.children, p);
      PutPut(root.children, p, n.(props := n.props["visible" := Bool(first)]),
             n.(props := n.props["visible" := Bool(second)]));
      assert n.props["visible" := Bool(first)]["visible" := Bool(second)] == n.props["visible" := Bool(second)];
    }
  }

  /** Hiding or showing keeps the ids of the tree distinct. */
  lemma WithVisibleKeepsUnique(root: Node, id: int, visible: bool)
    requires UniqueIds(root.children)
    ensures UniqueIds(WithVisible(root, id, visible).children)
  {
    WithVisibleSpec(root, id, visible);
    SameShapeUnique(WithVisible(root, id, visible).children, root.children);
  }

  // ---------------------------------------------------------------------
  // GetGroupProperties

  /** The (id, properties) entries for the ids whose node is found, in the
      order of the ids. */
  function GroupProperties(nodes: seq<Node>, ids: seq<int>): (r: seq<(int, map<string, Value>)>)
    ensures |r| <= |ids|
    ensures forall k :: 0 <= k < |r| ==> r[k].0 in ids
  {
    if ids == [] then []
    else
      var last := ids[|ids| - 1];
      var found := FindSub(last, nodes);
      GroupProperties(nodes, ids[..|ids| - 1]) +
        (if found.Some? then [(Get(nodes, found.value).id, Get(nodes, found.value).props)] else [])
  }

  /** At most one entry per requested id; every entry is a requested id
      that is found, with that node's properties; and every requested id
      that is found has its entry, so unknown ids are exactly the ones
      skipped. */
  lemma {:induction false} GroupPropertiesSpec(nodes: seq<Node>, ids: seq<int>)
    ensures |GroupProperties(nodes, ids)| <= |ids|
    ensures forall k :: 0 <= k < |GroupProperties(nodes, ids)| ==>
              var e := GroupProperties(nodes, ids)[k];
              e.0 in ids && FindSub(e.0, nodes).Some? && e.1 == Get(nodes, FindSub(e.0, nodes).value).props
    ensures forall id :: id in ids && FindSub(id, nodes).Some? ==>
              (id, Get(nodes, FindSub(id, nodes).value).props) in GroupProperties(nodes, ids)
    decreases |ids|
  {
    if ids != [] {
      var init := ids[..|ids| - 1];
      GroupPropertiesSpec(nodes, init);
      assert ids == init + [ids[|ids| - 1]];
      forall id | id in ids && FindSub(id, nodes).Some?
        ensures (id, Get(nodes, FindSub(id, nodes).value).props) in GroupProperties(nodes, ids)
      {
        if id in init {
        } else {
          assert id == ids[|ids| - 1];
        }
      }
    }
  }

  /** The entries for a list of ids are the entries for its first part
      followed by those for the rest: each requested position contributes
      its own entry, a repeated id included. */
  lemma {:induction false} GroupPropertiesAppend(nodes: seq<Node>, a: seq<int>, b: seq<int>)
    ensures GroupProperties(nodes, a + b) == GroupProperties(nodes, a) + GroupProperties(nodes, b)
    decreases |b|
  {
    if b == [] {
      assert a + b == a;
    } else {
      var init := b[..|b| - 1];
      GroupPropertiesAppend(nodes, a, init);
      assert (a + b)[..|a + b| - 1] == a + init;
      assert (a + b)[|a + b| - 1] == b[|b| - 1];
    }
  }
}
