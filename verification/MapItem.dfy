// The storage of the ordered map: items that the caller allocates and the map links in place.
module MapItems {
  datatype Color = Red | Black

  // One cl_map_item_t.  Links are never null in the source; an item that is in no map
  // carries arbitrary links, here its own address.
  class MapItem {
    var left: MapItem
    var right: MapItem
    var up: MapItem
    var color: Color
    var key: int
    var next: MapItem
    var prev: MapItem

    constructor ()
      ensures left == right == up == this && next == prev == this && color == Black
    {
      left, right, up, next, prev := this, this, this, this, this;
      color := Black;
      key := 0;
    }
  }

  // The tree half of an item, as a value.
  datatype Cell = Cell(left: MapItem, right: MapItem, up: MapItem, color: Color)

  // The list half of an item, as a value.
  datatype Link = Link(next: MapItem, prev: MapItem)

  type Mem = map<MapItem, Cell>
  type Links = map<MapItem, Link>

  // The tree links of all items of a set, read off the heap.
  ghost function Snap(items: set<MapItem>): (m: Mem)
    reads items`left, items`right, items`up, items`color
    ensures m.Keys == items
  {
    map x | x in items :: Cell(x.left, x.right, x.up, x.color)
  }

  // The list links of all items of a set, read off the heap.
  ghost function SnapLinks(items: set<MapItem>): (m: Links)
    reads items`next, items`prev
    ensures m.Keys == items
  {
    map x | x in items :: Link(x.next, x.prev)
  }
}
