/** The shelf packer of the glyph atlas (src/qsg_atlas_renderer.cpp). */
module GlyphPacker {
  datatype Option<T> = None | Some(value: T)

  datatype Shelf = Shelf(y: int, height: int, x: int)

  datatype Page = Page(shelves: seq<Shelf>, nextY: int)

  datatype Slot = Slot(page: int, x: int, y: int, width: int, height: int)

  /** A slot with the shelf it is on. */
  datatype Packed = Packed(slot: Slot, shelf: nat)

  // ---- Geometry -----------------------------------------------------------------

  /** Shelves lie one above the other inside the page. */
  predicate PageOk(page: Page, width: int, height: int) {
    && 0 <= page.nextY <= height
    && (forall s | 0 <= s < |page.shelves| ::
          var sh := page.shelves[s]; 0 <= sh.y && 0 < sh.height && sh.y + sh.height <= page.nextY && 0 <= sh.x <= width)
    && (forall s, t | 0 <= s < t < |page.shelves| :: page.shelves[s].y + page.shelves[s].height <= page.shelves[t].y)
  }

  /** A slot stands on its shelf with its gutters, left of where the shelf continues. */
  predicate OnShelf(q: Packed, pages: seq<Page>, gutter: int) {
    && 0 <= q.slot.page < |pages| && q.shelf < |pages[q.slot.page].shelves|
    && 0 < q.slot.width && 0 < q.slot.height
    && var sh := pages[q.slot.page].shelves[q.shelf];
      && q.slot.y - gutter == sh.y && q.slot.height + 2 * gutter <= sh.height
      && 0 <= q.slot.x - gutter && q.slot.x + q.slot.width + gutter <= sh.x
  }

  /** Two slots, gutters included, share no pixel. */
  predicate Apart(a: Slot, b: Slot, gutter: int) {
    || a.page != b.page
    || a.x + a.width + gutter <= b.x - gutter || b.x + b.width + gutter <= a.x - gutter
    || a.y + a.height + gutter <= b.y - gutter || b.y + b.height + gutter <= a.y - gutter
  }

  predicate InPage(slot: Slot, gutter: int, width: int, height: int) {
    && 0 < slot.width && 0 < slot.height
    && 0 <= slot.x - gutter && slot.x + slot.width + gutter <= width
    && 0 <= slot.y - gutter && slot.y + slot.height + gutter <= height
  }

  ghost predicate PackedOk(packed: seq<Packed>, pages: seq<Page>, gutter: int) {
    && (forall i | 0 <= i < |packed| :: OnShelf(packed[i], pages, gutter))
    && (forall i, j | 0 <= i < j < |packed| :: Apart(packed[i].slot, packed[j].slot, gutter))
  }

  lemma {:induction false} SlotsAreInPages(packed: seq<Packed>, pages: seq<Page>, gutter: int, width: int, height: int)
    requires PackedOk(packed, pages, gutter) && forall p | 0 <= p < |pages| :: PageOk(pages[p], width, height)
    ensures forall i | 0 <= i < |packed| :: 0 <= packed[i].slot.page < |pages| && InPage(packed[i].slot, gutter, width, height)
  {
  }

  // ---- Areas ----------------------------------------------------------------------

  lemma {:induction false} Times(a: int, b: int, c: int)
    requires a <= b && 0 <= c
    ensures a * c <= b * c && c * a <= c * b
  {
  }

  function ShelvesArea(shelves: seq<Shelf>): int {
    if shelves == [] then 0
    else ShelvesArea(shelves[..|shelves| - 1]) + shelves[|shelves| - 1].height * shelves[|shelves| - 1].x
  }

  function PagesArea(pages: seq<Page>): int {
    if pages == [] then 0 else PagesArea(pages[..|pages| - 1]) + ShelvesArea(pages[|pages| - 1].shelves)
  }

  /** Pixels of all tiles. */
  function UsedArea(packed: seq<Packed>): int {
    if packed == [] then 0
    else UsedArea(packed[..|packed| - 1]) + packed[|packed| - 1].slot.width * packed[|packed| - 1].slot.height
  }

  lemma {:induction false} ShelvesFit(shelves: seq<Shelf>, width: int, nextY: int)
    requires 0 <= width && PageOk(Page(shelves, nextY), width, nextY)
    ensures ShelvesArea(shelves) <= width * nextY
  {
    if shelves == [] {
      Times(0, nextY, width);
    } else {
      var front, last := shelves[..|shelves| - 1], shelves[|shelves| - 1];
      ShelvesFit(front, width, last.y);
      Times(last.x, width, last.height);
      Times(last.y + last.height, nextY, width);
      assert width * (last.y + last.height) == width * last.y + width * last.height;
    }
  }

  lemma {:induction false} PagesFit(pages: seq<Page>, width: int, height: int)
    requires 0 <= width && forall p | 0 <= p < |pages| :: PageOk(pages[p], width, height)
    ensures PagesArea(pages) <= |pages| * (width * height)
  {
    if pages != [] {
      var last := pages[|pages| - 1];
      PagesFit(pages[..|pages| - 1], width, height);
      ShelvesFit(last.shelves, width, last.nextY);
      Times(last.nextY, height, width);
      assert (|pages| - 1) * (width * height) + width * height == |pages| * (width * height);
    }
  }

  lemma {:induction false} ShelvesAreaSet(shelves: seq<Shelf>, s: nat, shelf: Shelf)
    requires s < |shelves|
    ensures ShelvesArea(shelves[s := shelf]) == ShelvesArea(shelves) - shelves[s].height * shelves[s].x + shelf.height * shelf.x
  {
    var last, set_ := |shelves| - 1, shelves[s := shelf];
    if s < last {
      ShelvesAreaSet(shelves[..last], s, shelf);
      assert set_[..last] == shelves[..last][s := shelf];
    } else {
      assert set_[..last] == shelves[..last];
    }
  }

  lemma {:induction false} PagesAreaSet(pages: seq<Page>, p: nat, page: Page)
    requires p < |pages|
    ensures PagesArea(pages[p := page]) == PagesArea(pages) - ShelvesArea(pages[p].shelves) + ShelvesArea(page.shelves)
  {
    var last, set_ := |pages| - 1, pages[p := page];
    if p < last {
      PagesAreaSet(pages[..last], p, page);
      assert set_[..last] == pages[..last][p := page];
    } else {
      assert set_[..last] == pages[..last];
    }
  }

  lemma {:induction false} UsedAreaPush(packed: seq<Packed>, q: Packed)
    ensures UsedArea(packed + [q]) == UsedArea(packed) + q.slot.width * q.slot.height
  {
    assert (packed + [q])[..|packed|] == packed;
  }

  lemma {:induction false} PagesAreaPush(pages: seq<Page>, page: Page)
    ensures PagesArea(pages + [page]) == PagesArea(pages) + ShelvesArea(page.shelves)
  {
    assert (pages + [page])[..|pages|] == pages;
  }

  lemma {:induction false} ShelvesAreaPush(shelves: seq<Shelf>, shelf: Shelf)
    ensures ShelvesArea(shelves + [shelf]) == ShelvesArea(shelves) + shelf.height * shelf.x
  {
    assert (shelves + [shelf])[..|shelves|] == shelves;
  }

  lemma {:induction false} TileArea(width: int, height: int, paddedWidth: int, shelfHeight: int)
    requires 0 < width <= paddedWidth && 0 < height <= shelfHeight
    ensures width * height <= shelfHeight * paddedWidth
  {
    Times(width, paddedWidth, height);
    Times(height, shelfHeight, paddedWidth);
  }

  // ---- Where there is room -----------------------------------------------------------

  predicate ShelfHasRoom(shelf: Shelf, paddedWidth: int, paddedHeight: int, width: int) {
    paddedHeight <= shelf.height && shelf.x + paddedWidth <= width
  }

  predicate PageHasRoom(page: Page, paddedWidth: int, paddedHeight: int, width: int, height: int) {
    || (exists s :: 0 <= s < |page.shelves| && ShelfHasRoom(page.shelves[s], paddedWidth, paddedHeight, width))
    || page.nextY + paddedHeight <= height
  }

  /** Where a tile with its gutters can be placed without touching what a page has: beyond
      what a shelf holds and inside it, or below all shelves. */
  ghost predicate CanStand(page: Page, x: int, y: int, paddedWidth: int, paddedHeight: int, width: int, height: int) {
    && 0 <= x && x + paddedWidth <= width && y + paddedHeight <= height
    && (|| page.nextY <= y
        || exists s :: 0 <= s < |page.shelves| && Beside(page.shelves[s], x, y, paddedHeight))
  }

  predicate Beside(shelf: Shelf, x: int, y: int, paddedHeight: int) {
    shelf.x <= x && shelf.y <= y && y + paddedHeight <= shelf.y + shelf.height
  }

  /** A page has room for a tile exactly when there is a place for it to stand. */
  lemma {:induction false} RoomIsAPlace(page: Page, paddedWidth: int, paddedHeight: int, width: int, height: int)
    requires PageOk(page, width, height) && 0 < paddedWidth <= width && 0 < paddedHeight <= height
    ensures PageHasRoom(page, paddedWidth, paddedHeight, width, height) <==>
      exists x, y :: CanStand(page, x, y, paddedWidth, paddedHeight, width, height)
  {
    if PageHasRoom(page, paddedWidth, paddedHeight, width, height) {
      if s :| 0 <= s < |page.shelves| && ShelfHasRoom(page.shelves[s], paddedWidth, paddedHeight, width) {
        assert Beside(page.shelves[s], page.shelves[s].x, page.shelves[s].y, paddedHeight);
        assert CanStand(page, page.shelves[s].x, page.shelves[s].y, paddedWidth, paddedHeight, width, height);
      } else {
        assert CanStand(page, 0, page.nextY, paddedWidth, paddedHeight, width, height);
      }
    }
    if x, y :| CanStand(page, x, y, paddedWidth, paddedHeight, width, height) {
      if page.nextY > y {
        var s :| 0 <= s < |page.shelves| && Beside(page.shelves[s], x, y, paddedHeight);
        assert ShelfHasRoom(page.shelves[s], paddedWidth, paddedHeight, width);
      }
    }
  }

  /** The first shelf that has room. */
  predicate FirstShelf(page: Page, s: int, paddedWidth: int, paddedHeight: int, width: int) {
    && 0 <= s < |page.shelves| && ShelfHasRoom(page.shelves[s], paddedWidth, paddedHeight, width)
    && forall t | 0 <= t < s :: !ShelfHasRoom(page.shelves[t], paddedWidth, paddedHeight, width)
  }

  class Packer {
    const width: int
    const height: int
    const gutter: nat
    const maxPages: nat
    var pages: seq<Page>

    /** Every slot there has been, with its shelf. */
    ghost var packed: seq<Packed>

    ghost predicate Valid()
      reads this
    {
      && 1 <= maxPages && |pages| <= maxPages
      && (pages != [] ==> 0 < width && 0 < height)
      && (forall p | 0 <= p < |pages| :: PageOk(pages[p], width, height))
      && PackedOk(packed, pages, gutter)
      && UsedArea(packed) <= PagesArea(pages)
    }

    constructor (width: int, height: int, gutter: int, maxPages: int)
      ensures Valid() && pages == [] && packed == []
      ensures this.width == width && this.height == height
      ensures this.gutter == (if gutter > 0 then gutter else 0) && this.maxPages == if maxPages > 1 then maxPages else 1
    {
      this.width, this.height := width, height;
      this.gutter := if gutter > 0 then gutter else 0;
      this.maxPages := if maxPages > 1 then maxPages else 1;
      pages, packed := [], [];
    }

    /** A packer in the same state. */
    constructor Copy(other: Packer)
      requires other.Valid()
      ensures Valid() && pages == other.pages && packed == other.packed
      ensures width == other.width && height == other.height && gutter == other.gutter && maxPages == other.maxPages
    {
      width, height, gutter, maxPages := other.width, other.height, other.gutter, other.maxPages;
      pages, packed := other.pages, other.packed;
    }

    /** Whether a tile finds room on some page, a new one included. */
    predicate Packable(pages: seq<Page>, tileWidth: int, tileHeight: int) {
      var paddedWidth, paddedHeight := tileWidth + gutter * 2, tileHeight + gutter * 2;
      && 0 < tileWidth && 0 < tileHeight && 0 < width && 0 < height
      && paddedWidth <= width && paddedHeight <= height
      && (|pages| < maxPages
          || exists p :: 0 <= p < |pages| && PageHasRoom(pages[p], paddedWidth, paddedHeight, width, height))
    }

    /** How a page changes when it takes a tile: the first shelf with room grows, or without
        one a shelf as high as the tile with its gutters is added. */
    ghost predicate Taken(before: Page, after: Page, slot: Slot) {
      var paddedWidth, paddedHeight := slot.width + gutter * 2, slot.height + gutter * 2;
      && (forall s | FirstShelf(before, s, paddedWidth, paddedHeight, width) ::
            && slot.x == before.shelves[s].x + gutter && slot.y == before.shelves[s].y + gutter
            && after == before.(shelves := before.shelves[s := before.shelves[s].(x := before.shelves[s].x + paddedWidth)]))
      && ((forall s | 0 <= s < |before.shelves| :: !ShelfHasRoom(before.shelves[s], paddedWidth, paddedHeight, width)) ==>
            && slot.x == gutter && slot.y == before.nextY + gutter
            && after == Page(before.shelves + [Shelf(before.nextY, paddedHeight, paddedWidth)], before.nextY + paddedHeight))
    }

    lemma {:induction false} TakesFirstShelf(before: Page, s: nat, slot: Slot)
      requires FirstShelf(before, s, slot.width + gutter * 2, slot.height + gutter * 2, width)
      requires slot.x == before.shelves[s].x + gutter && slot.y == before.shelves[s].y + gutter
      ensures var grown := before.shelves[s].(x := before.shelves[s].x + slot.width + gutter * 2);
              Taken(before, before.(shelves := before.shelves[s := grown]), slot)
    {
      var paddedWidth, paddedHeight := slot.width + gutter * 2, slot.height + gutter * 2;
      forall other | FirstShelf(before, other, paddedWidth, paddedHeight, width)
        ensures other == s
      {
      }
    }

    lemma {:induction false} TakesNewShelf(before: Page, slot: Slot)
      requires forall s | 0 <= s < |before.shelves| ::
        !ShelfHasRoom(before.shelves[s], slot.width + gutter * 2, slot.height + gutter * 2, width)
      requires slot.x == gutter && slot.y == before.nextY + gutter
      ensures Taken(before, Page(before.shelves + [Shelf(before.nextY, slot.height + gutter * 2, slot.width + gutter * 2)],
                                 before.nextY + slot.height + gutter * 2), slot)
    {
    }

    /** Packs a tile apart from every tile packed before, or changes nothing. */
    method Pack(tileWidth: int, tileHeight: int) returns (slot: Option<Slot>)
      requires Valid()
      modifies this
      ensures Valid()
      ensures slot.Some? <==> Packable(old(pages), tileWidth, tileHeight)
      ensures slot.None? ==> pages == old(pages) && packed == old(packed)
      ensures slot.Some? ==>
        && |packed| == |old(packed)| + 1 && packed[..|old(packed)|] == old(packed) && packed[|old(packed)|].slot == slot.value
        && slot.value.width == tileWidth && slot.value.height == tileHeight
        && 0 <= slot.value.page < |pages| && InPage(slot.value, gutter, width, height)
      ensures |old(pages)| <= |pages| <= |old(pages)| + 1
      ensures slot.Some? ==> forall p | 0 <= p < |old(pages)| && p < slot.value.page ::
        !PageHasRoom(old(pages)[p], tileWidth + gutter * 2, tileHeight + gutter * 2, width, height)
      ensures slot.Some? ==> (|pages| > |old(pages)| <==> slot.value.page == |old(pages)|)
      ensures slot.Some? ==> forall p | 0 <= p < |old(pages)| && p != slot.value.page :: pages[p] == old(pages)[p]
      ensures slot.Some? && slot.value.page < |old(pages)| ==>
        Taken(old(pages)[slot.value.page], pages[slot.value.page], slot.value)
      ensures slot.Some? && slot.value.page == |old(pages)| ==> Taken(Page([], 0), pages[slot.value.page], slot.value)
    {
      hide UsedArea, PagesArea, ShelvesArea, PackedOk, PageOk;
      if tileWidth <= 0 || tileHeight <= 0 || width <= 0 || height <= 0 {
        return None;
      }
      var paddedWidth, paddedHeight := tileWidth + gutter * 2, tileHeight + gutter * 2;
      if paddedWidth > width || paddedHeight > height {
        return None;
      }
      var page := 0;
      while page < |pages|
        invariant 0 <= page <= |pages| && Valid() && pages == old(pages) && packed == old(packed)
        invariant forall p | 0 <= p < page :: !PageHasRoom(pages[p], paddedWidth, paddedHeight, width, height)
      {
        slot := PackInPage(page, paddedWidth, paddedHeight, tileWidth, tileHeight);
        if slot.Some? {
          return;
        }
        page := page + 1;
      }
      if |pages| >= maxPages {
        return None;
      }
      PagesAreaPush(pages, Page([], 0));
      AddedPageKeeps(packed, pages, gutter, width, height);
      NewPageHasRoom(paddedWidth, paddedHeight, width, height);
      pages := pages + [Page([], 0)];
      slot := PackInPage(|pages| - 1, paddedWidth, paddedHeight, tileWidth, tileHeight);
    }

    method PackInPage(index: nat, paddedWidth: int, paddedHeight: int, tileWidth: int,
          tileHeight: int) returns (slot: Option<Slot>)
      requires Valid() && index < |pages| && 0 < tileWidth && 0 < tileHeight
      requires paddedWidth == tileWidth + gutter * 2 <= width && paddedHeight == tileHeight + gutter * 2 <= height
      modifies this
      ensures Valid() && |pages| == |old(pages)|
      ensures slot.Some? <==> PageHasRoom(old(pages[index]), paddedWidth, paddedHeight, width, height)
      ensures slot.None? ==> pages == old(pages) && packed == old(packed)
      ensures slot.Some? ==>
        && |packed| == |old(packed)| + 1 && packed[..|old(packed)|] == old(packed) && packed[|old(packed)|].slot == slot.value
        && slot.value.page == index && slot.value.width == tileWidth && slot.value.height == tileHeight
        && InPage(slot.value, gutter, width, height)
      ensures slot.Some? ==> pages == old(pages)[index := pages[index]] && Taken(old(pages)[index], pages[index], slot.value)
    {
      hide UsedArea, PagesArea, ShelvesArea, Taken;
      var page := pages[index];
      var s := 0;
      while s < |page.shelves|
        invariant 0 <= s <= |page.shelves|
        invariant forall t | 0 <= t < s :: !ShelfHasRoom(page.shelves[t], paddedWidth, paddedHeight, width)
      {
        var shelf := page.shelves[s];
        if ShelfHasRoom(shelf, paddedWidth, paddedHeight, width) {
          slot := Some(Slot(index, shelf.x + gutter, shelf.y + gutter, tileWidth, tileHeight));
          var moved := shelf.(x := shelf.x + paddedWidth);
          ExtendedShelfKeeps(packed, pages, gutter, width, height, index, s, moved, slot.value);
          TakesFirstShelf(page, s, slot.value);
          page := page.(shelves := page.shelves[s := moved]);
          pages := pages[index := page];
          packed := packed + [Packed(slot.value, s)];
          return;
        }
        s := s + 1;
      }
      if page.nextY + paddedHeight > height {
        return None;
      }
      var shelf := Shelf(page.nextY, paddedHeight, paddedWidth);
      slot := Some(Slot(index, gutter, shelf.y + gutter, tileWidth, tileHeight));
      NewShelfKeeps(packed, pages, gutter, width, height, index, shelf, slot.value);
      TakesNewShelf(page, slot.value);
      pages := pages[index := Page(page.shelves + [shelf], page.nextY + paddedHeight)];
      packed := packed + [Packed(slot.value, |page.shelves|)];
    }
  }

  // ---- Each way to place a tile keeps everything apart ---------------------------------

  lemma {:induction false} AddedPageKeeps(packed: seq<Packed>, pages: seq<Page>, gutter: int, width: int, height: int)
    requires PackedOk(packed, pages, gutter) && 0 < height
    ensures PackedOk(packed, pages + [Page([], 0)], gutter) && PageOk(Page([], 0), width, height)
    ensures ShelvesArea(Page([], 0).shelves) == 0
  {
  }

  lemma {:induction false} NewPageHasRoom(paddedWidth: int, paddedHeight: int, width: int, height: int)
    requires paddedHeight <= height
    ensures PageHasRoom(Page([], 0), paddedWidth, paddedHeight, width, height)
  {
  }

  lemma {:induction false} ExtendedShelfKeeps(packed: seq<Packed>, pages: seq<Page>, gutter: nat, width: int, height: int,
                           index: nat, s: nat, moved: Shelf, slot: Slot)
    requires PackedOk(packed, pages, gutter) && index < |pages| && s < |pages[index].shelves|
    requires forall p | 0 <= p < |pages| :: PageOk(pages[p], width, height)
    requires UsedArea(packed) <= PagesArea(pages)
    requires 0 < slot.width && 0 < slot.height
    requires var shelf, paddedWidth := pages[index].shelves[s], slot.width + gutter * 2;
             && slot.height + gutter * 2 <= shelf.height && shelf.x + paddedWidth <= width
             && moved == shelf.(x := shelf.x + paddedWidth)
             && slot == Slot(index, shelf.x + gutter, shelf.y + gutter, slot.width, slot.height)
    ensures var page := pages[index].(shelves := pages[index].shelves[s := moved]);
            && PageOk(page, width, height)
            && PackedOk(packed + [Packed(slot, s)], pages[index := page], gutter)
            && UsedArea(packed + [Packed(slot, s)]) <= PagesArea(pages[index := page])
            && InPage(slot, gutter, width, height)
  {
    hide UsedArea, PagesArea, ShelvesArea;
    var shelf := pages[index].shelves[s];
    var page := pages[index].(shelves := pages[index].shelves[s := moved]);
    var after := pages[index := page];
    forall i | 0 <= i < |packed|
      ensures OnShelf(packed[i], after, gutter) && Apart(packed[i].slot, slot, gutter)
    {
      assert OnShelf(packed[i], pages, gutter);
      if packed[i].slot.page == index && packed[i].shelf != s {
        OtherShelf(pages[index], width, height, packed[i], s, gutter);
      }
    }
    assert OnShelf(Packed(slot, s), after, gutter);
    ShelvesAreaSet(pages[index].shelves, s, moved);
    PagesAreaSet(pages, index, page);
    UsedAreaPush(packed, Packed(slot, s));
    TileArea(slot.width, slot.height, slot.width + gutter * 2, shelf.height);
    WidenedArea(shelf.height, shelf.x, slot.width + gutter * 2);
  }

  lemma {:induction false} WidenedArea(height: int, x: int, more: int)
    ensures height * (x + more) == height * x + height * more
  {
  }

  /** A slot on another shelf of the page lies above or below this one. */
  lemma {:induction false} OtherShelf(page: Page, width: int, height: int, q: Packed, s: nat, gutter: nat)
    requires PageOk(page, width, height) && s < |page.shelves| && q.shelf < |page.shelves| && q.shelf != s
    requires var sh := page.shelves[q.shelf]; q.slot.y - gutter == sh.y && q.slot.height + 2 * gutter <= sh.height
    ensures q.slot.y + q.slot.height + gutter <= page.shelves[s].y || page.shelves[s].y + page.shelves[s].height <= q.slot.y - gutter
  {
  }

  lemma {:induction false} NewShelfKeeps(packed: seq<Packed>, pages: seq<Page>, gutter: nat, width: int, height: int,
                      index: nat, shelf: Shelf, slot: Slot)
    requires PackedOk(packed, pages, gutter) && index < |pages|
    requires forall p | 0 <= p < |pages| :: PageOk(pages[p], width, height)
    requires UsedArea(packed) <= PagesArea(pages)
    requires 0 < slot.width && 0 < slot.height && slot.width + gutter * 2 <= width
    requires pages[index].nextY + slot.height + gutter * 2 <= height
    requires shelf == Shelf(pages[index].nextY, slot.height + gutter * 2, slot.width + gutter * 2)
    requires slot == Slot(index, gutter, shelf.y + gutter, slot.width, slot.height)
    ensures var page := Page(pages[index].shelves + [shelf], shelf.y + shelf.height);
            var q := Packed(slot, |pages[index].shelves|);
            && PageOk(page, width, height)
            && PackedOk(packed + [q], pages[index := page], gutter)
            && UsedArea(packed + [q]) <= PagesArea(pages[index := page])
            && InPage(slot, gutter, width, height)
  {
    hide UsedArea, PagesArea, ShelvesArea;
    var page := Page(pages[index].shelves + [shelf], shelf.y + shelf.height);
    var q := Packed(slot, |pages[index].shelves|);
    var after := pages[index := page];
    forall i | 0 <= i < |packed|
      ensures OnShelf(packed[i], after, gutter) && Apart(packed[i].slot, slot, gutter)
    {
      assert OnShelf(packed[i], pages, gutter);
    }
    assert OnShelf(q, after, gutter);
    ShelvesAreaPush(pages[index].shelves, shelf);
    PagesAreaSet(pages, index, page);
    UsedAreaPush(packed, q);
    TileArea(slot.width, slot.height, shelf.x, shelf.height);
  }
}
