/** The exported menu of the tray: the state behind the
    com.canonical.dbusmenu object (the layout tree, its revision, the link
    to the bus, the registered items and the clicks sent to them), the
    mutations the owning process makes, and the calls a desktop shell makes
    over the bus. */
module DbusMenu {
  import opened MenuTree
  import opened MenuProps
  import opened MenuStore
  import opened MenuEvents

  /** The revision after one refresh: unsigned 32-bit addition of one, which
      wraps to 0 after 2^32 - 1. */
  function NextRevision(v: uint32): (r: uint32)
    ensures r as int == (v as int + 1) % 0x1_0000_0000
  {
    if v == 0xFFFF_FFFF then 0 else v + 1
  }

  class Tray {
    /** The layout tree; the root has id 0 and is never itself looked up. */
    var root: Node
    /** The layout revision reported by GetLayout. */
    var version: uint32
    /** The value of the interface's Version property on the bus. */
    var advertised: uint32
    /** Whether the tray holds a bus connection. */
    var connected: bool
    /** The ids of the owning process's menu items. */
    var registered: set<int>
    /** The clicks sent to the items, oldest first. */
    var clicks: seq<int>

    /** A tray whose menu is the bare root. */
    constructor (connected: bool, registered: set<int>)
      ensures root == Node(0, map[], []) && version == 0 && advertised == 0
      ensures this.connected == connected && this.registered == registered && clicks == []
    {
      root := Node(0, map[], []);
      version := 0;
      advertised := 0;
      this.connected := connected;
      this.registered := registered;
      clicks := [];
    }

    // -------------------------------------------------------------------
    // Lookup

    /** findLayout: the search below the root. A hit is the first node in
        pre-order with the id; there is none exactly when no node below the
        root has it. */
    function FindLayout(id: int): (r: Option<Path>)
      reads this
      ensures r.Some? ==> IsPath(root.children, r.value) && Get(root.children, r.value).id == id
      ensures r.Some? ==> forall q :: IsPath(root.children, q) && Before(q, r.value) ==>
                                      Get(root.children, q).id != id
      ensures r.None? <==> Absent(id, root.children)
    {
      FindSubSpec(id, root.children);
      FindSub(id, root.children)
    }

    // -------------------------------------------------------------------
    // Revision

    /** refresh: with a connection, the revision goes up by one (wrapping)
        and is then written to the Version property, which may fail; the
        failure does not undo the increment. Without a connection nothing
        happens. */
    method Refresh(versionSetOk: bool)
      modifies this`version, this`advertised
      ensures version == if connected then NextRevision(old(version)) else old(version)
      ensures advertised == if connected && versionSetOk then version else old(advertised)
    {
      if connected {
        version := NextRevision(version);
        if versionSetOk {
          advertised := version;
        }
      }
    }

    // -------------------------------------------------------------------
    // Mutations

    /** applyItemToLayout: the node at p gets the item's flags and title
        written over its property bag. */
    method ApplyItemToLayout(item: MenuItem, p: Path)
      requires IsPath(root.children, p)
      modifies this`root
      ensures root == old(root).(children := Put(old(root.children), p,
                                    old(Get(root.children, p)).(props := ItemProps(item, old(Get(root.children, p)).props))))
    {
      var n := Get(root.children, p);
      var props := n.props;
      props := props["enabled" := Bool(!item.disabled)];
      props := props["label" := Str(item.title)];
      if item.checkable {
        props := props["toggle-type" := Str("checkmark")];
        if item.checked {
          props := props["toggle-state" := Int(1)];
        } else {
          props := props["toggle-state" := Int(0)];
        }
      } else {
        props := props["toggle-type" := Str("")];
        props := props["toggle-state" := Int(0)];
      }
      root := root.(children := Put(root.children, p, n.(props := props)));
    }

    /** addOrUpdateMenuItem. A known id has its node's properties rewritten
        and the revision refreshed; a new id gets a node attached under its
        parent's node, which is marked as a submenu, or under the root, and
        the revision is left alone. Either way the lookup of the id then
        finds a node showing the item's title and enabled flag. */
    method AddOrUpdateMenuItem(item: MenuItem, versionSetOk: bool)
      modifies this`root, this`version, this`advertised
      ensures root == Upsert(old(root), item)
      ensures var updated := old(FindLayout(item.id)).Some?;
              version == if updated && connected then NextRevision(old(version)) else old(version)
      ensures var updated := old(FindLayout(item.id)).Some?;
              advertised == if updated && connected && versionSetOk then version else old(advertised)
      ensures GetProperty(item.id, "label") == Some(Str(item.title))
      ensures GetProperty(item.id, "enabled") == Some(Bool(!item.disabled))
      ensures old(FindLayout(item.id)).None? && old(ParentPath(root, item)).Some? ==>
                GetProperty(item.parent.value, "children-display") == Some(Str("submenu"))
    {
      var found := FindLayout(item.id);
      UpsertLookup(root, item);
      if found.Some? {
        ApplyItemToLayout(item, found.value);
        Refresh(versionSetOk);
      } else {
        ghost var r0 := root;
        var leaf := Node(item.id, map[], []);
        var parentPath := if item.parent.Some? then FindLayout(item.parent.value) else None;
        var path: Path;
        if parentPath.Some? {
          var pp := parentPath.value;
          CreateUnderParentSteps(root, item, pp);
          var parent := Get(root.children, pp);
          root := root.(children := Put(root.children, pp,
                                        parent.(props := parent.props["children-display" := Str("submenu")])));
          var promoted := Get(root.children, pp);
          root := root.(children := Put(root.children, pp, promoted.(children := promoted.children + [leaf])));
          path := pp + [|parent.children|];
        } else {
          path := [|root.children|];
          root := root.(children := root.children + [leaf]);
          assert (r0.children + [leaf])[|r0.children| := Leaf(item)] == r0.children + [Leaf(item)];
        }
        ApplyItemToLayout(item, path);
      }
    }

    /** addSeparator: a separator node, with no label and no children, is
        appended under the root, with no check that the id is new and no
        refresh. The lookup of the id still finds an earlier node with it,
        and finds the separator otherwise. */
    method AddSeparator(id: int)
      modifies this`root
      ensures root == old(root).(children := old(root.children) + [Node(id, map["type" := Str("separator")], [])])
      ensures FindLayout(id) == if old(FindLayout(id)).Some? then old(FindLayout(id)) else Some([|old(root.children)|])
      ensures old(UniqueIds(root.children)) ==> (UniqueIds(root.children) <==> old(FindLayout(id)).None?)
    {
      var layout := Node(id, map["type" := Str("separator")], []);
      if UniqueIds(root.children) {
        AppendLeafUnique(root.children, layout);
      }
      root := root.(children := root.children + [layout]);
      FindFromAppend(id, old(root.children), [layout], 0);
      assert FindFrom(id, root.children, |old(root.children)|) == Some([|old(root.children)|]);
    }

    /** hideMenuItem: a found node's visible flag becomes false and the
        revision is refreshed; an unknown id changes nothing. */
    method HideMenuItem(item: MenuItem, versionSetOk: bool)
      modifies this`root, this`version, this`advertised
      ensures root == WithVisible(old(root), item.id, false)
      ensures var found := old(FindLayout(item.id)).Some?;
              version == if found && connected then NextRevision(old(version)) else old(version)
      ensures var found := old(FindLayout(item.id)).Some?;
              advertised == if found && connected && versionSetOk then version else old(advertised)
      ensures old(FindLayout(item.id)).Some? ==> GetProperty(item.id, "visible") == Some(Bool(false))
      ensures old(UniqueIds(root.children)) ==> UniqueIds(root.children)
    {
      SetVisible(item.id, false, versionSetOk);
    }

    /** showMenuItem: a found node's visible flag becomes true and the
        revision is refreshed; an unknown id changes nothing. */
    method ShowMenuItem(item: MenuItem, versionSetOk: bool)
      modifies this`root, this`version, this`advertised
      ensures root == WithVisible(old(root), item.id, true)
      ensures var found := old(FindLayout(item.id)).Some?;
              version == if found && connected then NextRevision(old(version)) else old(version)
      ensures var found := old(FindLayout(item.id)).Some?;
              advertised == if found && connected && versionSetOk then version else old(advertised)
      ensures old(FindLayout(item.id)).Some? ==> GetProperty(item.id, "visible") == Some(Bool(true))
      ensures old(UniqueIds(root.children)) ==> UniqueIds(root.children)
    {
      SetVisible(item.id, true, versionSetOk);
    }

    /** The body shared by hideMenuItem and showMenuItem. */
    method SetVisible(id: int, visible: bool, versionSetOk: bool)
      modifies this`root, this`version, this`advertised
      ensures root == WithVisible(old(root), id, visible)
      ensures var found := old(FindLayout(id)).Some?;
              version == if found && connected then NextRevision(old(version)) else old(version)
      ensures var found := old(FindLayout(id)).Some?;
              advertised == if found && connected && versionSetOk then version else old(advertised)
      ensures old(FindLayout(id)).Some? ==> GetProperty(id, "visible") == Some(Bool(visible))
      ensures old(UniqueIds(root.children)) ==> UniqueIds(root.children)
    {
      WithVisibleSpec(root, id, visible);
      if UniqueIds(root.children) {
        WithVisibleKeepsUnique(root, id, visible);
      }
      var m := FindLayout(id);
      if m.Some? {
        var n := Get(root.children, m.value);
        root := root.(children := Put(root.children, m.value, n.(props := n.props["visible" := Bool(visible)])));
        Refresh(versionSetOk);
      }
    }

    // -------------------------------------------------------------------
    // The com.canonical.dbusmenu calls

    /** GetLayout: the current revision and the whole tree, whatever part,
        depth and properties the caller asked for. */
    function GetLayout(parentId: int, recursionDepth: int, propertyNames: seq<string>): (r: (uint32, Node))
      reads this
      ensures r.0 == version && r.1 == root
    {
      (version, root)
    }

    /** GetGroupProperties: one (id, properties) entry for each requested
        id whose node is found, in the order requested; unknown ids are
        skipped. */
    method GetGroupProperties(ids: seq<int>, propertyNames: seq<string>)
      returns (properties: seq<(int, map<string, Value>)>)
      ensures properties == GroupProperties(root.children, ids)
      ensures |properties| <= |ids|
      ensures forall k :: 0 <= k < |properties| ==>
                properties[k].0 in ids && FindLayout(properties[k].0).Some? &&
                properties[k].1 == Get(root.children, FindLayout(properties[k].0).value).props
    {
      properties := [];
      for k := 0 to |ids|
        invariant properties == GroupProperties(root.children, ids[..k])
      {
        var m := FindLayout(ids[k]);
        if m.Some? {
          var n := Get(root.children, m.value);
          properties := properties + [(n.id, n.props)];
        }
        assert ids[..k + 1][..k] == ids[..k];
      }
      assert ids[..|ids|] == ids;
      GroupPropertiesSpec(root.children, ids);
    }

    /** GetProperty: the stored value when the id is found and its node has
        the property; otherwise the empty value. */
    function GetProperty(id: int, name: string): (v: Option<Value>)
      reads this
      ensures v.Some? <==> FindLayout(id).Some? && name in Get(root.children, FindLayout(id).value).props
      ensures v.Some? ==> v.value == Get(root.children, FindLayout(id).value).props[name]
    {
      match FindLayout(id)
      case Some(p) =>
        var props := Get(root.children, p).props;
        if name in props then Some(props[name]) else None
      case None => None
    }

    /** Event: a "clicked" event on a registered item sends that item one
        click; a click on an unknown item and every other event are
        ignored. */
    method Event(id: int, eventId: string, data: Value, timestamp: uint32)
      modifies this`clicks
      ensures eventId != "clicked" ==> clicks == old(clicks)
      ensures eventId == "clicked" && id in registered ==> clicks == old(clicks) + [id]
      ensures eventId == "clicked" && id !in registered ==> clicks == old(clicks)
      ensures clicks == old(clicks) + Delivered(id, eventId, registered)
    {
      if eventId == "clicked" {
        if id !in registered {
          return;
        }
        clicks := clicks + [id];
      }
    }

    /** EventGroup: the events in order, each handled as Event does, until a
        "clicked" event on an unknown item, where the rest of the batch is
        dropped; no id is ever reported as an error. */
    method EventGroup(events: seq<MenuEvent>) returns (idErrors: seq<int>)
      modifies this`clicks
      ensures clicks == old(clicks) + GroupDelivered(events, registered)
      ensures idErrors == []
    {
      idErrors := [];
      for k := 0 to |events|
        invariant old(clicks) + GroupDelivered(events, registered) == clicks + GroupDelivered(events[k..], registered)
      {
        assert events[k..][0] == events[k] && events[k..][1..] == events[k + 1..];
        var event := events[k];
        if event.eventId == "clicked" {
          if event.id !in registered {
            return;
          }
          clicks := clicks + [event.id];
        }
      }
    }

    /** AboutToShow: never asks the shell to refetch the layout. */
    function AboutToShow(id: int): (needUpdate: bool)
      ensures !needUpdate
    {
      false
    }

    /** AboutToShowGroup: no item needs an update and no id is an error. */
    function AboutToShowGroup(ids: seq<int>): (r: (seq<int>, seq<int>))
      ensures r.0 == [] && r.1 == []
    {
      ([], [])
    }
  }
}
