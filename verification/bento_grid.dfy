/**
 * The bento grid's item list and view state: selecting, updating and deleting items,
 * the zoom buttons, and the grid span of one item. Item contents (React nodes) are left
 * out; an item is what the handlers read of it.
 */
module BentoGrid {
  import opened Wrappers
  import opened Numbers
  import Sorting

  datatype BentoItem = BentoItem(id: string, title: string, width: Option<int>, height: Option<int>, order: Option<int>)

  // ----- selection -----

  /** `handleItemSelect`: clicking the selected item unselects it, any other item becomes selected. */
  function SelectItem(selected: Option<string>, id: string): (r: Option<string>)
    ensures r == Some(id) <==> selected != Some(id)
    ensures r.Some? ==> r == Some(id)
  {
    if Some(id) == selected then None else Some(id)
  }

  /** Clicking the same item twice restores the selection exactly when that item or nothing was selected. */
  lemma SelectTwice(selected: Option<string>, id: string)
    ensures SelectItem(SelectItem(selected, id), id) == selected <==> selected == Some(id) || selected.None?
  {
  }

  // ----- update -----

  function HasId(id: string): BentoItem -> bool {
    (x: BentoItem) => x.id == id
  }

  /** `handleItemUpdate`: the first item with the same id is replaced; without one nothing changes. */
  function UpdateItem(items: seq<BentoItem>, item: BentoItem): (r: seq<BentoItem>)
    ensures |r| == |items|
  {
    var i := Sorting.FirstIndex(items, HasId(item.id));
    if i < |items| then items[i := item] else items
  }

  /**
   * Only the first item carrying the id is replaced, every other position keeps its item,
   * and an id no item carries leaves the list as it was.
   */
  lemma UpdateItemMeaning(items: seq<BentoItem>, item: BentoItem)
    ensures (forall j :: 0 <= j < |items| ==> items[j].id != item.id) ==> UpdateItem(items, item) == items
    ensures forall i :: 0 <= i < |items| && items[i].id == item.id && (forall j :: 0 <= j < i ==> items[j].id != item.id) ==>
      UpdateItem(items, item)[i] == item
        && forall j :: 0 <= j < |items| && j != i ==> UpdateItem(items, item)[j] == items[j]
  {
    var k := Sorting.FirstIndex(items, HasId(item.id));
    assert forall j :: 0 <= j < k ==> items[j].id != item.id;
    assert k < |items| ==> items[k].id == item.id;
  }

  /** Updating with the item already in place changes nothing; updating twice is updating once. */
  lemma UpdateItemIdempotent(items: seq<BentoItem>, item: BentoItem)
    ensures UpdateItem(UpdateItem(items, item), item) == UpdateItem(items, item)
  {
    var k := Sorting.FirstIndex(items, HasId(item.id));
    var once := UpdateItem(items, item);
    assert forall j :: 0 <= j < k ==> once[j] == items[j];
    var k2 := Sorting.FirstIndex(once, HasId(item.id));
    if k < |items| {
      assert once[k] == item;
      assert k2 == k;
    } else {
      assert once == items;
    }
  }

  // ----- delete -----

  /** The items without the id, in their order. */
  function Without(items: seq<BentoItem>, id: string): (r: seq<BentoItem>)
    ensures |r| <= |items|
    ensures forall x :: x in r <==> x in items && x.id != id
  {
    if items == [] then []
    else (if items[0].id != id then [items[0]] else []) + Without(items[1..], id)
  }

  datatype Grid = Grid(items: seq<BentoItem>, selected: Option<string>)

  /** `handleItemDelete`: every item with the id goes, and so does the selection if it was that id. */
  function DeleteItem(g: Grid, id: string): (r: Grid)
    ensures forall x :: x in r.items <==> x in g.items && x.id != id
    ensures r.selected.None? <==> g.selected.None? || g.selected == Some(id)
    ensures r.selected.Some? ==> r.selected == g.selected
  {
    Grid(Without(g.items, id), if g.selected == Some(id) then None else g.selected)
  }

  /** Deleting removes as many items as carried the id, and a missing id changes nothing. */
  lemma {:induction false} WithoutCount(items: seq<BentoItem>, id: string)
    ensures |Without(items, id)| + CountId(items, id) == |items|
    ensures (forall j :: 0 <= j < |items| ==> items[j].id != id) ==> Without(items, id) == items
  {
    if items != [] {
      WithoutCount(items[1..], id);
    }
  }

  /** Deleting from a concatenation deletes from each part, so the other items keep their order. */
  lemma {:induction false} WithoutAppend(a: seq<BentoItem>, b: seq<BentoItem>, id: string)
    ensures Without(a + b, id) == Without(a, id) + Without(b, id)
  {
    if a == [] {
      assert a + b == b;
    } else {
      assert (a + b)[0] == a[0] && (a + b)[1..] == a[1..] + b;
      WithoutAppend(a[1..], b, id);
    }
  }

  /** A single item survives deletion exactly when its id differs. */
  lemma WithoutSingle(x: BentoItem, id: string)
    ensures Without([x], id) == (if x.id != id then [x] else [])
  {
    assert [x][1..] == [];
  }

  function CountId(items: seq<BentoItem>, id: string): nat {
    if items == [] then 0 else (if items[0].id == id then 1 else 0) + CountId(items[1..], id)
  }

  // ----- zoom -----

  const MinZoom: real := 0.5
  const MaxZoom: real := 2.0
  const ZoomStep: real := 0.1

  datatype ZoomButton = ZoomIn | ZoomOut | ResetZoom


  /** `handleZoomIn`, `handleZoomOut`, `handleResetZoom`; with zooming disabled they do nothing. */
  function Zoom(z: real, enabled: bool, b: ZoomButton): real {
    if !enabled then z
    else match b
      case ZoomIn => MinReal(z + ZoomStep, MaxZoom)
      case ZoomOut => MaxReal(z - ZoomStep, MinZoom)
      case ResetZoom => 1.0
  }

  function Zooms(z: real, enabled: bool, bs: seq<ZoomButton>): real
    decreases |bs|
  {
    if bs == [] then z else Zooms(Zoom(z, enabled, bs[0]), enabled, bs[1..])
  }

  /** From the initial zoom of 1, every sequence of buttons keeps the zoom within [0.5, 2]. */
  lemma {:induction false} ZoomsInRange(z: real, enabled: bool, bs: seq<ZoomButton>)
    requires MinZoom <= z <= MaxZoom
    ensures MinZoom <= Zooms(z, enabled, bs) <= MaxZoom
    ensures enabled && bs != [] && bs[|bs| - 1] == ResetZoom ==> Zooms(z, enabled, bs) == 1.0
    decreases |bs|
  {
    if bs != [] {
      ZoomsInRange(Zoom(z, enabled, bs[0]), enabled, bs[1..]);
      if |bs| == 1 {
        assert Zooms(z, enabled, bs) == Zoom(z, enabled, bs[0]);
      } else {
        assert bs[1..][|bs[1..]| - 1] == bs[|bs| - 1];
      }
    }
  }

  // ----- grid span -----

  datatype ViewMode = GridView | ListView | MasonryView

  datatype GridStyle = GridStyle(columnSpan: int, rowSpan: int, order: Option<int>)

  /** JavaScript truthiness of an optional number: present and not zero. */
  predicate Truthy(n: Option<int>) { n.Some? && n.value != 0 }

  /** `Math.ceil(cols / 4)` for an integer column count. */
  function CeilQuarter(cols: int): (r: int)
    ensures 4 * (r - 1) < cols <= 4 * r
  {
    (cols + 3) / 4
  }

  /**
   * `getGridStyle`: a list row spans every column and one row; in the grid an item spans its
   * own width and height, or a quarter of the columns (rounded up) by two rows when they
   * are missing or zero.
   */
  function GridSpan(item: BentoItem, index: int, cols: int, mode: ViewMode): (s: GridStyle)
    ensures mode == ListView ==> s.columnSpan == cols && s.rowSpan == 1 && s.order.None?
    ensures mode != ListView && !Truthy(item.width) ==> 4 * (s.columnSpan - 1) < cols <= 4 * s.columnSpan
    ensures mode != ListView && Truthy(item.width) ==> s.columnSpan == item.width.value
    ensures mode != ListView ==> s.rowSpan == (if Truthy(item.height) then item.height.value else 2)
    ensures mode != ListView ==> s.order == Some(if Truthy(item.order) then item.order.value else index)
  {
    if mode == ListView then GridStyle(cols, 1, None)
    else GridStyle(
      if Truthy(item.width) then item.width.value else CeilQuarter(cols),
      if Truthy(item.height) then item.height.value else 2,
      Some(if Truthy(item.order) then item.order.value else index))
  }

  /** On the default twelve-column layout an item without a size is three columns by two rows. */
  lemma DefaultSpan(item: BentoItem, index: int)
    requires !Truthy(item.width) && !Truthy(item.height)
    ensures GridSpan(item, index, 12, GridView).columnSpan == 3
    ensures GridSpan(item, index, 12, GridView).rowSpan == 2
  {
  }
}
