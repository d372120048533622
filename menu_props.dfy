/** The property bag a menu item writes into its layout node
    (applyItemToLayout). */
module MenuProps {
  import opened MenuTree

  /** What the layout needs of a menu item of the owning process: its id,
      the id of its parent item if it has one, its title and its flags. */
  datatype MenuItem = MenuItem(
    id: int,
    parent: Option<int>,
    title: string,
    disabled: bool,
    checkable: bool,
    checked: bool)

  /** The keys applyItemToLayout writes; every other key is left alone. */
  const ItemKeys: set<string> := {"enabled", "label", "toggle-type", "toggle-state"}

  /** The property bag after the item is applied to a node whose bag was
      props. */
  function ItemProps(item: MenuItem, props: map<string, Value>): (r: map<string, Value>)
    ensures r.Keys == props.Keys + ItemKeys
    ensures r["enabled"] == Bool(!item.disabled)
    ensures r["label"] == Str(item.title)
    ensures item.checkable ==>
              r["toggle-type"] == Str("checkmark") && r["toggle-state"] == Int(if item.checked then 1 else 0)
    ensures !item.checkable ==> r["toggle-type"] == Str("") && r["toggle-state"] == Int(0)
    ensures forall k :: k in props && k !in ItemKeys ==> r[k] == props[k]
  {
    var labelled := props["enabled" := Bool(!item.disabled)]["label" := Str(item.title)];
    if item.checkable then
      labelled["toggle-type" := Str("checkmark")]["toggle-state" := Int(if item.checked then 1 else 0)]
    else
      labelled["toggle-type" := Str("")]["toggle-state" := Int(0)]
  }

  /** Applying an item overrides whatever an earlier application wrote, so
      applying the same item twice is the same as applying it once. */
  lemma ItemPropsOverride(a: MenuItem, b: MenuItem, props: map<string, Value>)
    ensures ItemProps(b, ItemProps(a, props)) == ItemProps(b, props)
  {
    var lhs, rhs := ItemProps(b, ItemProps(a, props)), ItemProps(b, props);
    assert lhs.Keys == rhs.Keys;
    forall k | k in lhs ensures lhs[k] == rhs[k] {
      if k !in ItemKeys {
        assert k in props;
      }
    }
  }
}
