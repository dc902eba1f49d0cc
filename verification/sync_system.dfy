/**
 * The synchronised-highlight provider: a registry of items (formulas, text, visualisations,
 * keywords), each naming related items, and a highlight state of one active item, one
 * hovered item and the ids highlighted as related. Every callback is a transition from one
 * provider value to the next; React's batching and stale closures are not modelled.
 */
module SyncSystem {
  import opened Wrappers

  datatype ItemKind = Formula | TextItem | Visualization | Keyword

  datatype SyncItem = SyncItem(
    id: string,
    kind: ItemKind,
    content: string,
    relatedIds: seq<string>,
    section: Option<string>)

  datatype SyncState = SyncState(activeId: Option<string>, hoveredId: Option<string>, relatedIds: seq<string>)

  datatype Provider = Provider(state: SyncState, items: map<string, SyncItem>)

  /** The state with nothing active, hovered or related. */
  const Cleared := SyncState(None, None, [])

  /** JavaScript truthiness of `string | null`: present and non-empty. */
  predicate Truthy(id: Option<string>) {
    id.Some? && id.value != ""
  }

  /** `registerSyncItem`: stores the item under its id, replacing any earlier one. */
  function Register(p: Provider, item: SyncItem): (r: Provider)
    ensures r.state == p.state
    ensures r.items.Keys == p.items.Keys + {item.id}
    ensures r.items[item.id] == item
    ensures forall k :: k in p.items && k != item.id ==> r.items[k] == p.items[k]
  {
    p.(items := p.items[item.id := item])
  }

  /**
   * `unregisterSyncItem`: removes the id; the highlight state is cleared when the id was
   * active or hovered, and kept as it was otherwise.
   */
  function Unregister(p: Provider, id: string): (r: Provider)
    ensures r.items.Keys == p.items.Keys - {id}
    ensures forall k :: k in r.items ==> r.items[k] == p.items[k]
    ensures p.state.activeId == Some(id) || p.state.hoveredId == Some(id) ==> r.state == Cleared
    ensures p.state.activeId != Some(id) && p.state.hoveredId != Some(id) ==> r.state == p.state
  {
    var items := p.items - {id};
    if p.state.activeId == Some(id) || p.state.hoveredId == Some(id) then Provider(Cleared, items)
    else Provider(p.state, items)
  }

  /** `setActiveItem`: a falsy id clears; a registered id becomes active with its relations. */
  function SetActive(p: Provider, id: Option<string>): (r: Provider)
    ensures r.items == p.items
    ensures !Truthy(id) ==> r.state == Cleared
    ensures Truthy(id) && id.value !in p.items ==> r == p
    ensures Truthy(id) && id.value in p.items ==>
      r.state == SyncState(id, None, p.items[id.value].relatedIds)
  {
    if !Truthy(id) then p.(state := Cleared)
    else if id.value in p.items then p.(state := SyncState(id, None, p.items[id.value].relatedIds))
    else p
  }

  /** The relations of the active item, or none when nothing (registered) is active. */
  function ActiveRelations(p: Provider): seq<string> {
    if Truthy(p.state.activeId) && p.state.activeId.value in p.items then p.items[p.state.activeId.value].relatedIds
    else []
  }

  /**
   * `setHoveredItem`: a falsy id ends the hover and restores the active item's relations;
   * a registered id becomes the hovered one with its relations; the active id never changes.
   */
  function SetHovered(p: Provider, id: Option<string>): (r: Provider)
    ensures r.items == p.items && r.state.activeId == p.state.activeId
    ensures !Truthy(id) ==> r.state.hoveredId.None? && r.state.relatedIds == ActiveRelations(p)
    ensures Truthy(id) && id.value !in p.items ==> r == p
    ensures Truthy(id) && id.value in p.items ==>
      r.state.hoveredId == id && r.state.relatedIds == p.items[id.value].relatedIds
  {
    if !Truthy(id) then p.(state := p.state.(hoveredId := None, relatedIds := ActiveRelations(p)))
    else if id.value in p.items then p.(state := p.state.(hoveredId := id, relatedIds := p.items[id.value].relatedIds))
    else p
  }

  /** `clearSyncState`. */
  function Clear(p: Provider): (r: Provider)
    ensures r.items == p.items && r.state.activeId.None? && r.state.hoveredId.None? && r.state.relatedIds == []
  {
    p.(state := Cleared)
  }

  /** `isItemActive`: the id is active, hovered, or among the related ids. */
  predicate IsItemActive(s: SyncState, id: string) {
    s.activeId == Some(id) || s.hoveredId == Some(id) || id in s.relatedIds
  }

  /** The registered items among `ids`, in order. */
  function Registered(items: map<string, SyncItem>, ids: seq<string>): (r: seq<SyncItem>)
    ensures |r| <= |ids|
    ensures forall x :: x in r ==> exists i :: 0 <= i < |ids| && ids[i] in items && items[ids[i]] == x
  {
    if ids == [] then []
    else if ids[0] in items then [items[ids[0]]] + Registered(items, ids[1..])
    else Registered(items, ids[1..])
  }

  /** `getRelatedItems`: the registered items the id's item relates to, or none for an unknown id. */
  function GetRelatedItems(p: Provider, id: string): (r: seq<SyncItem>)
    ensures id !in p.items ==> r == []
    ensures id in p.items ==> |r| <= |p.items[id].relatedIds|
    ensures id in p.items ==> forall j :: 0 <= j < |p.items[id].relatedIds| && p.items[id].relatedIds[j] in p.items ==>
      p.items[p.items[id].relatedIds[j]] in r
  {
    if id in p.items then
      RegisteredComplete(p.items, p.items[id].relatedIds);
      Registered(p.items, p.items[id].relatedIds)
    else []
  }

  /** Every registered id among `ids` contributes its item. */
  lemma {:induction false} RegisteredComplete(items: map<string, SyncItem>, ids: seq<string>)
    ensures forall j :: 0 <= j < |ids| && ids[j] in items ==> items[ids[j]] in Registered(items, ids)
  {
    if ids != [] {
      RegisteredComplete(items, ids[1..]);
      forall j | 0 <= j < |ids| && ids[j] in items
        ensures items[ids[j]] in Registered(items, ids)
      {
        if j > 0 {
          assert ids[j] == ids[1..][j - 1];
        }
      }
    }
  }

  /**
   * The lookup goes id by id: the items of a concatenation are the items of its parts, in
   * order, and a single id gives its item when registered and nothing otherwise. Together
   * these fix the result for every mix of registered and unregistered ids.
   */
  lemma {:induction false} RegisteredAppend(items: map<string, SyncItem>, a: seq<string>, b: seq<string>)
    ensures Registered(items, a + b) == Registered(items, a) + Registered(items, b)
    ensures forall id :: Registered(items, [id]) == if id in items then [items[id]] else []
  {
    if a != [] {
      assert (a + b)[1..] == a[1..] + b;
      RegisteredAppend(items, a[1..], b);
    } else {
      assert a + b == b;
    }
    forall id ensures Registered(items, [id]) == if id in items then [items[id]] else [] {
      assert [id][1..] == [];
    }
  }

  /** When every related id is registered, nothing is dropped and the order is kept. */
  lemma {:induction false} RegisteredAll(items: map<string, SyncItem>, ids: seq<string>)
    requires forall i :: 0 <= i < |ids| ==> ids[i] in items
    ensures |Registered(items, ids)| == |ids|
    ensures forall i :: 0 <= i < |ids| ==> Registered(items, ids)[i] == items[ids[i]]
  {
    if ids != [] {
      RegisteredAll(items, ids[1..]);
    }
  }

  /** Unregistered ids are simply skipped. */
  lemma {:induction false} RegisteredSkips(items: map<string, SyncItem>, ids: seq<string>)
    requires forall i :: 0 <= i < |ids| ==> ids[i] !in items
    ensures Registered(items, ids) == []
  {
    if ids != [] {
      RegisteredSkips(items, ids[1..]);
    }
  }

  /** Registering a new item and unregistering it again gives back the same registry. */
  lemma RegisterUnregister(p: Provider, item: SyncItem)
    requires item.id !in p.items
    requires p.state.activeId != Some(item.id) && p.state.hoveredId != Some(item.id)
    ensures Unregister(Register(p, item), item.id) == p
  {
    assert Unregister(Register(p, item), item.id).items == p.items;
  }

  /** Hovering anything and leaving it again gives back the state activation set up. */
  lemma HoverThenLeave(p: Provider, active: string, hover: Option<string>)
    requires active != "" && active in p.items
    ensures var a := SetActive(p, Some(active));
      SetHovered(SetHovered(a, hover), None) == a
  {
  }

  /**
   * After activating a registered item, exactly that item and the ids it relates to are
   * highlighted; after clearing, nothing is.
   */
  lemma ActivateHighlights(p: Provider, active: string, x: string)
    requires active != "" && active in p.items
    ensures IsItemActive(SetActive(p, Some(active)).state, x) <==> x == active || x in p.items[active].relatedIds
    ensures !IsItemActive(Clear(p).state, x)
  {
  }

  /** While hovering a registered item, the active item stays highlighted alongside the hovered one. */
  lemma HoverKeepsActive(p: Provider, hover: string, x: string)
    requires hover != "" && hover in p.items
    ensures var h := SetHovered(p, Some(hover)).state;
      IsItemActive(h, x) <==> p.state.activeId == Some(x) || x == hover || x in p.items[hover].relatedIds
  {
  }

  // ----- the consistency invariant -----

  /** Items are stored under their own id, and the active and hovered ids are registered. */
  ghost predicate Consistent(p: Provider) {
    && (forall k :: k in p.items ==> p.items[k].id == k)
    && (p.state.activeId.Some? ==> p.state.activeId.value in p.items)
    && (p.state.hoveredId.Some? ==> p.state.hoveredId.value in p.items)
  }

  datatype Action =
    | RegisterItem(item: SyncItem)
    | UnregisterItem(id: string)
    | Activate(target: Option<string>)
    | Hover(target: Option<string>)
    | ClearAll

  function Apply(p: Provider, a: Action): Provider {
    match a
    case RegisterItem(item) => Register(p, item)
    case UnregisterItem(id) => Unregister(p, id)
    case Activate(target) => SetActive(p, target)
    case Hover(target) => SetHovered(p, target)
    case ClearAll => Clear(p)
  }

  function Run(p: Provider, actions: seq<Action>): Provider
    decreases |actions|
  {
    if actions == [] then p else Run(Apply(p, actions[0]), actions[1..])
  }

  /** Each transition keeps the provider consistent. */
  lemma ApplyConsistent(p: Provider, a: Action)
    requires Consistent(p)
    ensures Consistent(Apply(p, a))
  {
  }

  /**
   * From the initial provider any sequence of callbacks keeps the active and hovered ids
   * registered; in particular the related items of the active one can always be looked up.
   */
  lemma {:induction false} RunConsistent(p: Provider, actions: seq<Action>)
    requires Consistent(p)
    ensures Consistent(Run(p, actions))
    decreases |actions|
  {
    if actions != [] {
      ApplyConsistent(p, actions[0]);
      RunConsistent(Apply(p, actions[0]), actions[1..]);
    }
  }

  /** The provider's initial value is consistent. */
  lemma InitialConsistent()
    ensures Consistent(Provider(Cleared, map[]))
  {
  }
}
