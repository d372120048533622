/** Click delivery of the Event and EventGroup calls: which ids get a click
    sent to the owning process's item, for one event and for a batch. */
module MenuEvents {
  import opened MenuTree

  /** One entry of an EventGroup batch: the item id, the event name, the
      event's data and its timestamp. */
  datatype MenuEvent = MenuEvent(id: int, eventId: string, data: Value, timestamp: uint32)

  /** The clicks Event sends for one event: one for a "clicked" event on a
      registered item, none otherwise. */
  function Delivered(id: int, eventId: string, registered: set<int>): (r: seq<int>)
    ensures r == [] || r == [id]
    ensures r == [id] <==> eventId == "clicked" && id in registered
  {
    if eventId == "clicked" && id in registered then [id] else []
  }

  /** Event called on each event of a batch in turn. */
  function EachDelivered(events: seq<MenuEvent>, registered: set<int>): (r: seq<int>)
    ensures |r| <= |events|
    ensures forall k :: 0 <= k < |r| ==> r[k] in registered
  {
    if events == [] then []
    else Delivered(events[0].id, events[0].eventId, registered) + EachDelivered(events[1..], registered)
  }

  /** A "clicked" event whose item is not registered; EventGroup returns at
      the first one. */
  predicate Aborts(e: MenuEvent, registered: set<int>)
  {
    e.eventId == "clicked" && e.id !in registered
  }

  /** The clicks EventGroup sends: the events in order, until the first one
      that aborts the batch. */
  function GroupDelivered(events: seq<MenuEvent>, registered: set<int>): (r: seq<int>)
    ensures |r| <= |events|
    ensures forall k :: 0 <= k < |r| ==> r[k] in registered
  {
    if events == [] then []
    else if Aborts(events[0], registered) then []
    else Delivered(events[0].id, events[0].eventId, registered) + GroupDelivered(events[1..], registered)
  }

  /** The index of the first event that aborts the batch, or the batch's
      length when none does. */
  function StopIndex(events: seq<MenuEvent>, registered: set<int>): (k: nat)
    ensures k <= |events|
    ensures forall j :: 0 <= j < k ==> !Aborts(events[j], registered)
    ensures k < |events| ==> Aborts(events[k], registered)
  {
    if events == [] then 0
    else if Aborts(events[0], registered) then 0
    else 1 + StopIndex(events[1..], registered)
  }

  /** EventGroup is Event on each event before the first aborting one; the
      events from there on are dropped. */
  lemma {:induction false} GroupDeliveredStops(events: seq<MenuEvent>, registered: set<int>)
    ensures GroupDelivered(events, registered) ==
            EachDelivered(events[..StopIndex(events, registered)], registered)
  {
    if events != [] && !Aborts(events[0], registered) {
      GroupDeliveredStops(events[1..], registered);
      var k := StopIndex(events, registered);
      assert events[..k][1..] == events[1..][..k - 1];
    }
  }

  /** With no click on an unregistered item in the batch, EventGroup
      delivers what Event does for every event. */
  lemma GroupDeliveredNoAbort(events: seq<MenuEvent>, registered: set<int>)
    requires forall j :: 0 <= j < |events| ==> !Aborts(events[j], registered)
    ensures GroupDelivered(events, registered) == EachDelivered(events, registered)
  {
    GroupDeliveredStops(events, registered);
    assert events[..|events|] == events;
  }

  /** Every click goes to a registered item whose event asked for it, at
      most one per event, in the order of the events. */
  lemma {:induction false} GroupDeliveredRegistered(events: seq<MenuEvent>, registered: set<int>)
    ensures |GroupDelivered(events, registered)| <= |events|
    ensures forall k :: 0 <= k < |GroupDelivered(events, registered)| ==>
              GroupDelivered(events, registered)[k] in registered
    ensures GroupDelivered(events, registered) <= EachDelivered(events, registered)
  {
    if events != [] {
      GroupDeliveredRegistered(events[1..], registered);
      var head := Delivered(events[0].id, events[0].eventId, registered);
      var g := GroupDelivered(events[1..], registered);
      var e := EachDelivered(events[1..], registered);
      if !Aborts(events[0], registered) {
        assert (head + e)[..|head + g|] == head + e[..|g|];
      }
    }
  }
}
