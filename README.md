# Exported tray menu (com.canonical.dbusmenu) — a Dafny model

This project models the in-memory menu tree that the tray exports over
D-Bus under Canonical's DBusMenu convention, as kept by
`systray_menu_unix.go`. It covers:

- the layout tree: nodes with an id, a property bag and ordered children;
- the lookup by id (`findLayout` / `findSubLayout`): a pre-order search
  below the root;
- the mutations made by the owning process: `addOrUpdateMenuItem`,
  `applyItemToLayout`, `addSeparator`, `hideMenuItem`, `showMenuItem`,
  and `refresh` for the revision;
- the calls a desktop shell makes: `GetLayout`, `GetGroupProperties`,
  `GetProperty`, `Event`, `EventGroup`, `AboutToShow`, `AboutToShowGroup`.

The model has five modules:

- `MenuTree` (menu_tree.dfy). A typed tree
  `Node(id, props: map<string, Value>, children: seq<Node>)`. A node is
  addressed by its path of child indices below the root; the root has no
  path, so the lookup never returns it. A write through one of the Go
  pointers is `Put(children, path, node)`. `Before` is pre-order on paths:
  an ancestor comes first, then earlier sibling subtrees.
- `MenuProps` (menu_props.dfy). The property bag that a menu item writes.
- `MenuStore` (menu_store.dfy). Specification functions for what
  `addOrUpdateMenuItem` (`Upsert`) and hide/show (`WithVisible`) do to the
  tree, and for the entries `GetGroupProperties` returns. Each comes with
  lemmas stating what the store promises.
- `MenuEvents` (menu_events.dfy). Which clicks `Event` and `EventGroup` send.
- `DbusMenu` (tray.dfy). The `Tray` class. Its fields are:
  - `root`: the tree;
  - `version`: the revision, an unsigned 32-bit integer;
  - `advertised`: the value of the bus's `Version` property;
  - `connected`: whether the tray holds a bus connection;
  - `registered`: the ids in the item table;
  - `clicks`: a log of the clicks sent to items.

  Each Go function that changes state is a method with a `modifies` frame.
  Its `ensures` ties the new state to the specification functions.

Inputs from outside the tree are parameters:

- Whether writing the `Version` property succeeds is the parameter
  `versionSetOk`.
- The item table and the connection are fields that outside code assigns.
- The tray's initial state is built elsewhere in the repository. The
  constructor here assumes a bare root with id 0, revision 0 and no clicks.

Some behaviour of the code is easy to misread. The model does what the code
does:

- `GetLayout` ignores its parent id, depth and property names. It always
  returns the current revision and the whole root, and never reports an
  unknown parent.
- `GetGroupProperties` ignores its property-name filter.
- Attaching a child under a parent node that is found sets that parent's
  `children-display` to `submenu` on every attach, not only on the first.
- `EventGroup` stops at the first click on an unregistered id. It always
  returns an empty list of id errors.

## Model

| member | source | states |
|---|---|---|
| `MenuTree.FindFrom` | systray_menu_unix.go:221-237 | a hit is a path, at or after the starting index, to a node carrying the id |
| `MenuTree.FindSub` | systray_menu_unix.go:221-237 | a hit of the search over a slice of children is a path to a node carrying the id |
| `MenuTree.FindFromNone` | systray_menu_unix.go:221-237 | the search from index i finds nothing exactly when no node from that child on (subtrees included) has the id |
| `MenuTree.FindFromFirst` | systray_menu_unix.go:221-237 | no node before the hit in pre-order has the id, so the hit is the first match |
| `MenuTree.FindSubSpec` | systray_menu_unix.go:221-237 | a hit carries the id and is the first match in pre-order; there is no hit exactly when no node below has the id |
| `MenuTree.FindFromSameShape` | systray_menu_unix.go:221-237 | the lookup depends only on ids and children order, not on properties |
| `MenuTree.FindUnique` | systray_menu_unix.go:221-237 | when exactly one node has the id, the lookup returns that node |
| `MenuTree.FindAfterPut` | systray_menu_unix.go:221-237 | rewriting the found node and keeping its id leaves it the node the lookup finds |
| `MenuTree.FindFromAppend` | systray_menu_unix.go:221-237 | appending trees keeps an earlier hit; only without one are the appended trees searched |
| `MenuTree.Put` | systray_menu_unix.go:164-173 | after a write through the found pointer, the addressed node is the new node and the forest keeps its length |
| `MenuTree.PutElsewhere` | systray_menu_unix.go:196-213 | a write through a node pointer leaves every node neither on its root-to-node line nor below it unchanged |
| `MenuTree.AppendLeafUnique` | systray_menu_unix.go:183-194 | when the ids are distinct, appending a childless node such as a separator keeps them distinct exactly when no node already has its id |
| `MenuTree.PutAbove` | systray_menu_unix.go:239-257 | a write through a node pointer leaves the ancestors' ids, properties and child counts unchanged |
| `MenuProps.ItemProps` | systray_menu_unix.go:196-213 | enabled is the negation of disabled and label is the title; a checkable item gets toggle-type "checkmark" and toggle-state 1 or 0 for checked or not; any other item gets toggle-type "" and toggle-state 0; every other key keeps its value |
| `MenuProps.ItemPropsOverride` | systray_menu_unix.go:196-213 | a later application overrides an earlier one, so applying the same item twice is applying it once |
| `MenuStore.ParentPath` | systray_menu_unix.go:162-171 | a parent's node is used exactly when the item has a parent and some node below the root has the parent's id, and it is then a node with that id; otherwise the root takes the new node |
| `MenuStore.Leaf` | systray_menu_unix.go:156-177 | a created node has the item's id and no children; its properties are exactly the keys the item writes, with the title as label and enabled the negation of disabled |
| `MenuStore.NewPath` | systray_menu_unix.go:162-173 | the created node goes to a slot no node occupies yet; it is a new child slot of an existing node, and a top-level slot exactly when no parent's node is found |
| `MenuStore.Upsert` | systray_menu_unix.go:149-181 | the root's own id and properties never change and no top-level node is removed |
| `MenuStore.UpsertUpdate` | systray_menu_unix.go:151-154 | update path: same tree shape, the item's node gets the item's properties over its old ones, and no other node's properties change |
| `MenuStore.UpsertCreate` | systray_menu_unix.go:155-175 | create path: the new node is the last child of the found parent (now marked as a submenu) or of the root, and the lookup of its id finds it |
| `MenuStore.UpsertCreateElsewhere` | systray_menu_unix.go:155-175 | create path: every old node stays with its id; all but the parent keep their properties; nodes off the line to the parent are unchanged, children included |
| `MenuStore.UpsertLookup` | systray_menu_unix.go:149-181 | afterwards the lookup of the id finds a node with the item's label and enabled flag; on create the parent's node is still found and shows children-display "submenu" |
| `MenuStore.UpsertCreateOrigin` | systray_menu_unix.go:155-175 | create path: every node of the new tree other than the created one was already at the same path, with the same id |
| `MenuStore.UpsertKeepsUnique` | systray_menu_unix.go:149-181 | when the layout ids are distinct, as the layout type's comment at :144 calls them, they stay distinct: an update keeps every id where it was and a creation uses an id no node has |
| `MenuStore.UpsertKeepsIds` | systray_menu_unix.go:149-181 | no node is removed: every id present before is present afterwards |
| `MenuStore.UpsertAll` | systray_menu_unix.go:149-181 | a run of addOrUpdateMenuItem calls never changes the root's own id or properties and removes no top-level node |
| `MenuStore.UpsertAllPresent` | systray_menu_unix.go:149-181 | after any run of addOrUpdateMenuItem calls on a tree with distinct ids, the ids are still distinct, earlier ids are still present, and each item's id is present, so each appears exactly once |
| `MenuStore.CreateUnderParentSteps` | systray_menu_unix.go:162-177 | promoting the parent, appending an empty node and then applying the item gives the create-path tree |
| `MenuStore.UpsertIdempotent` | systray_menu_unix.go:149-181 | adding or updating the same item twice leaves the tree as one call does |
| `MenuStore.WithVisible` | systray_menu_unix.go:239-257 | hiding or showing never changes the root's own id or properties or the number of top-level nodes |
| `MenuStore.WithVisibleKeepsUnique` | systray_menu_unix.go:239-257 | hiding or showing keeps distinct ids distinct |
| `MenuStore.WithVisibleSpec` | systray_menu_unix.go:239-257 | the found node's visible flag is set, nothing else about it or any other node changes, and it is still the node found; an unknown id leaves the tree unchanged |
| `MenuStore.WithVisibleOverride` | systray_menu_unix.go:239-257 | the last hide or show wins: showing after hiding gives the tree that showing alone gives |
| `MenuStore.GroupProperties` | systray_menu_unix.go:33-43 | no more entries than requested ids, and every entry's id is one of the requested ids |
| `MenuStore.GroupPropertiesAppend` | systray_menu_unix.go:33-43 | the entries for a list of ids are those for its first part followed by those for the rest: each requested position contributes its own entry, in order, a repeated id included |
| `MenuStore.GroupPropertiesSpec` | systray_menu_unix.go:33-43 | at most one entry per requested position; each entry is a requested, found id with its node's properties; every requested id that is found has an entry |
| `MenuEvents.Delivered` | systray_menu_unix.go:60-71 | one event sends exactly one click, to its own id, when it is "clicked" and the id is registered, and none otherwise |
| `MenuEvents.EachDelivered` | systray_menu_unix.go:59-73 | Event on each event of a batch: no more clicks than events, all to registered ids |
| `MenuEvents.GroupDelivered` | systray_menu_unix.go:82-96 | the clicks EventGroup sends: no more than the events, all to registered ids |
| `MenuEvents.StopIndex` | systray_menu_unix.go:82-95 | the index of the first click on an unregistered id in a batch: no event before it is one, and the event at it is |
| `MenuEvents.GroupDeliveredStops` | systray_menu_unix.go:82-97 | EventGroup handles each event as Event does, up to the first click on an unregistered id, and drops the rest |
| `MenuEvents.GroupDeliveredNoAbort` | systray_menu_unix.go:82-97 | with no click on an unregistered id in the batch, EventGroup delivers what Event does for each event |
| `MenuEvents.GroupDeliveredRegistered` | systray_menu_unix.go:82-97 | clicks go only to registered ids, at most one per event, and form a prefix of the per-event deliveries |
| `DbusMenu.NextRevision` | systray_menu_unix.go:261 | the revision after a bump is the old one plus one, modulo 2^32 |
| `DbusMenu.Tray.constructor` | systray_menu_unix.go:142-147 | the assumed initial state: a bare root layout (id 0, no properties, no children), revision 0, nothing advertised and no clicks; the connection and item table as given |
| `DbusMenu.Tray.FindLayout` | systray_menu_unix.go:215-219 | the search below the root: a hit carries the id and is the first in pre-order; there is none exactly when no node below the root has the id |
| `DbusMenu.Tray.Refresh` | systray_menu_unix.go:259-267 | when connected, the revision goes up by one, wrapping, and the Version property takes it only if the write succeeds; a failed write does not undo the bump; when disconnected nothing changes |
| `DbusMenu.Tray.ApplyItemToLayout` | systray_menu_unix.go:196-213 | the node at the path gets the item's property bag and nothing else in the tree changes |
| `DbusMenu.Tray.AddOrUpdateMenuItem` | systray_menu_unix.go:149-181 | the tree becomes Upsert of the old tree; the revision is refreshed only on the update path; the id then shows the item's label and enabled flag; a created item's parent shows "submenu" |
| `DbusMenu.Tray.AddSeparator` | systray_menu_unix.go:183-194 | exactly one node, with props {"type": "separator"} and no children, is appended under the root; there is no existence check and no refresh; the lookup keeps an earlier node with the same id; distinct ids stay distinct exactly when the id is new |
| `DbusMenu.Tray.HideMenuItem` | systray_menu_unix.go:239-247 | a found node's visible flag becomes false and the revision is refreshed; an unknown id changes nothing; distinct ids stay distinct |
| `DbusMenu.Tray.ShowMenuItem` | systray_menu_unix.go:249-257 | a found node's visible flag becomes true and the revision is refreshed; an unknown id changes nothing; distinct ids stay distinct |
| `DbusMenu.Tray.SetVisible` | systray_menu_unix.go:240-246 | the shared body of hide and show: the tree becomes WithVisible and the revision is refreshed only when the id is found; distinct ids stay distinct |
| `DbusMenu.Tray.GetLayout` | systray_menu_unix.go:21-24 | the current revision and the whole root, whatever the arguments |
| `DbusMenu.Tray.GetGroupProperties` | systray_menu_unix.go:27-45 | the entries for the found ids in input order, unknown ids skipped; no more entries than ids; each entry is the found node's properties |
| `DbusMenu.Tray.GetProperty` | systray_menu_unix.go:48-56 | a value exactly when the id is found and its node has the key, and then the stored value; otherwise the empty value |
| `DbusMenu.Tray.Event` | systray_menu_unix.go:59-73 | non-"clicked" events are ignored; a click on a registered id appends exactly that id; a click on an unregistered id appends nothing |
| `DbusMenu.Tray.EventGroup` | systray_menu_unix.go:76-97 | the clicks appended are GroupDelivered of the batch; the id-error list is empty |
| `DbusMenu.Tray.AboutToShow` | systray_menu_unix.go:100-103 | never asks for an update |
| `DbusMenu.Tray.AboutToShowGroup` | systray_menu_unix.go:106-109 | no updates needed and no id errors |

## Left out

- The D-Bus transport is not modelled.
  - Emitting the LayoutUpdated signal (systray_menu_unix.go:269-277) is left out.
  - Writing the Version property (:262-263) is reduced to the outcome `versionSetOk` and the field `advertised`.
- The property table `createMenuPropSpec` (:111-140) is constant configuration and is left out.
- The read/write locks `menuLock` and `menuItemsLock` and the atomic increment are left out. The model is sequential, so interleavings of readers and writers are not covered.
- The blocking send on `ClickedCh` (:70, :93) is an append to `clicks`. The blocking itself is not modelled.
- `log.Printf` calls and the empty `SetIcon` stub (:16-19) are left out.
- Ids are mathematical integers. The `int32`/`uint32` conversions of ids (:63, :86, :151, :157, :164, :185, :240, :250) and their wrap-around are not modelled.
- `dbus.Variant` is replaced by the typed `Value` and by real child nodes. So is the type assertion at :223, which cannot fail in this model. The `data` argument of events takes a `Value`, not an arbitrary variant.
- Distinct ids are not an invariant of the tray. `addSeparator` (:183-194) appends without checking that the id is new, so it can give two nodes the same id (`AppendLeafUnique` states exactly when). The lookup then finds the earlier one. The model therefore states distinctness as preserved by addOrUpdateMenuItem and hide/show, not as always holding.
- The empty variant returned by `GetProperty` for a missing id or key is `None`.
- The code that builds the tray's initial state and fills the item table is not part of this model. The constructor's chosen initial values stand in for it.
