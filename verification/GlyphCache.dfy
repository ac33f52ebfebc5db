/** The copy-on-write glyph cache (src/qsg_atlas_renderer.cpp): packed pages that
    stand for a map from keys to glyphs, tiles with their offsets. */
module GlyphCache {
  import opened GlyphPacker
  import opened GlyphBudget
  import opened RasterIndex

  /** An RGBA bitmap; its rows start `bytesPerLine` apart. */
  datatype Tile = Tile(width: int, height: int, bytesPerLine: int, bytes: seq<nat>, coverageKind: int, lcdOrder: int) {
    predicate Valid() {
      0 < width && 0 < height && width * 4 <= bytesPerLine && bytesPerLine * height <= |bytes|
    }
  }

  /** What a key stands for: its tile, and where that is drawn relative to the cell. */
  datatype Glyph = Glyph(tile: Tile, offsetX: int, offsetY: int)

  datatype Entry = Entry(slot: Slot, offsetX: int, offsetY: int, coverageKind: int, lcdOrder: int)

  // ---- Tiles in pages -------------------------------------------------------------

  /** Whether byte column `px` of row `py` belongs to a slot. */
  predicate Inside(slot: Slot, px: int, py: int) {
    slot.x * 4 <= px < slot.x * 4 + slot.width * 4 && slot.y <= py < slot.y + slot.height
  }

  /** The page shows the tile at the slot. */
  ghost predicate Shows(page: seq<nat>, stride: nat, slot: Slot, tile: Tile)
    requires tile.bytesPerLine >= 0
  {
    forall px, py | Inside(slot, px, py) ::
      At(page, stride, px, py) == At(tile.bytes, tile.bytesPerLine, px - slot.x * 4, py - slot.y)
  }

  /** What copying one row of a tile does to a page. */
  lemma {:induction false} CopiedRow(before: seq<nat>, after: seq<nat>, stride: nat, height: nat, x: nat, y: nat, row: seq<nat>)
    requires |before| == stride * height && x + |row| <= stride && y < height
    requires 0 <= y * stride + x && y * stride + x + |row| <= |before|
    requires after == before[..y * stride + x] + row + before[y * stride + x + |row|..]
    ensures |after| == |before|
    ensures forall px: int, py: int | 0 <= px < stride && 0 <= py < height ::
      At(after, stride, px, py) == if py == y && x <= px < x + |row| then row[px - x] else At(before, stride, px, py)
  {
    forall px: int, py: int | 0 <= px < stride && 0 <= py < height
      ensures At(after, stride, px, py) == if py == y && x <= px < x + |row| then row[px - x] else At(before, stride, px, py)
    {
      RunIsInOneRow(stride, x, y, |row|, px, py);
      InsideBuffer(stride, height, px, py, 1);
    }
  }

  lemma {:induction false} TileRow(tile: Tile, row: nat)
    requires tile.Valid() && row < tile.height
    ensures 0 <= row * tile.bytesPerLine && row * tile.bytesPerLine + tile.width * 4 <= |tile.bytes|
    ensures forall k | 0 <= k < tile.width * 4 ::
      tile.bytes[row * tile.bytesPerLine..row * tile.bytesPerLine + tile.width * 4][k] == At(tile.bytes, tile.bytesPerLine, k, row)
  {
    InsideBuffer(tile.bytesPerLine, tile.height, 0, row, tile.width * 4);
    assert tile.bytesPerLine * tile.height <= |tile.bytes|;
  }

  method CopyTileToSlot(page: seq<nat>, pageWidth: nat, pageHeight: nat, slot: Slot, tile: Tile) returns (copied: seq<nat>)
    requires tile.Valid() && InPage(slot, 1, pageWidth, pageHeight)
    requires slot.width == tile.width && slot.height == tile.height
    requires |page| == pageWidth * 4 * pageHeight
    ensures |copied| == |page| && Shows(copied, pageWidth * 4, slot, tile)
    ensures forall px: int, py: int | 0 <= px < pageWidth * 4 && 0 <= py < pageHeight && !Inside(slot, px, py) ::
      At(copied, pageWidth * 4, px, py) == At(page, pageWidth * 4, px, py)
  {
    hide At;
    var stride := pageWidth * 4;
    copied := page;
    var y := 0;
    while y < tile.height
      invariant 0 <= y <= tile.height && |copied| == |page|
      invariant forall px: int, py: int | 0 <= px < stride && 0 <= py < pageHeight ::
        At(copied, stride, px, py) ==
          if Inside(slot, px, py) && py < slot.y + y then At(tile.bytes, tile.bytesPerLine, px - slot.x * 4, py - slot.y)
          else At(page, stride, px, py)
    {
      TileRow(tile, y);
      InsideBuffer(stride, pageHeight, slot.x * 4, slot.y + y, tile.width * 4);
      var source := tile.bytes[y * tile.bytesPerLine..y * tile.bytesPerLine + tile.width * 4];
      var destination := (slot.y + y) * stride + slot.x * 4;
      ghost var before := copied;
      copied := copied[..destination] + source + copied[destination + |source|..];
      CopiedRow(before, copied, stride, pageHeight, slot.x * 4, slot.y + y, source);
      y := y + 1;
    }
  }

  // ---- The cache stands for a map ---------------------------------------------------

  ghost predicate IsPacked(slot: Slot, packed: seq<Packed>) {
    exists i :: 0 <= i < |packed| && packed[i].slot == slot
  }

  ghost predicate EntryShows(e: Entry, glyph: Glyph, packed: seq<Packed>, pages: seq<seq<nat>>, width: nat) {
    var tile := glyph.tile;
    && e.offsetX == glyph.offsetX && e.offsetY == glyph.offsetY
    && tile.Valid() && e.slot.width == tile.width && e.slot.height == tile.height
    && e.coverageKind == tile.coverageKind && e.lcdOrder == tile.lcdOrder
    && IsPacked(e.slot, packed) && 0 <= e.slot.page < |pages|
    && Shows(pages[e.slot.page], width * 4, e.slot, tile)
  }

  /** Every key's entry shows that key's glyph, and no two keys share a slot. */
  ghost predicate Agrees<K(!new)>(entries: map<K, Entry>, glyphs: map<K, Glyph>, packed: seq<Packed>, pages: seq<seq<nat>>,
        width: nat) {
    && entries.Keys == glyphs.Keys
    && (forall k | k in entries :: EntryShows(entries[k], glyphs[k], packed, pages, width))
    && (forall k, l | k in entries && l in entries && k != l :: Apart(entries[k].slot, entries[l].slot, 1))
  }

  lemma {:induction false} OtherSlotStillShows(before: seq<nat>, after: seq<nat>, width: nat, height: nat, slot: Slot,
        tile: Tile, added: Slot)
    requires tile.bytesPerLine >= 0 && InPage(slot, 1, width, height) && Apart(slot, added, 1) && slot.page == added.page
    requires Shows(before, width * 4, slot, tile)
    requires forall px: int, py: int | 0 <= px < width * 4 && 0 <= py < height && !Inside(added, px, py) ::
      At(after, width * 4, px, py) == At(before, width * 4, px, py)
    ensures Shows(after, width * 4, slot, tile)
  {
    forall px, py | Inside(slot, px, py)
      ensures At(after, width * 4, px, py) == At(tile.bytes, tile.bytesPerLine, px - slot.x * 4, py - slot.y)
    {
      assert !Inside(added, px, py);
      assert At(after, width * 4, px, py) == At(before, width * 4, px, py);
    }
  }

  lemma {:induction false} OldIsApart(packed: seq<Packed>, q: Packed, shelves: seq<Page>, width: nat, height: nat, i: nat)
    requires PackedOk(packed + [q], shelves, 1) && (forall p | 0 <= p < |shelves| :: PageOk(shelves[p], width, height))
    requires i < |packed|
    ensures Apart(packed[i].slot, q.slot, 1) && InPage(packed[i].slot, 1, width, height)
  {
    hide PageOk;
    var all := packed + [q];
    assert all[i] == packed[i] && all[|packed|] == q;
    SlotsAreInPages(all, shelves, 1, width, height);
    assert InPage(all[i].slot, 1, width, height);
  }

  /** A tile copied to a new slot leaves every other key's tile alone. */
  lemma {:induction false} InsertAgrees<K(!new)>(entries: map<K, Entry>, glyphs: map<K, Glyph>, packed: seq<Packed>,
        pages: seq<seq<nat>>,
                              shelves: seq<Page>, width: nat, height: nat, key: K, e: Entry, glyph: Glyph, q: Packed, copied: seq<nat>)
    requires Agrees(entries, glyphs, packed, pages, width) && key !in entries
    requires PackedOk(packed + [q], shelves, 1) && (forall p | 0 <= p < |shelves| :: PageOk(shelves[p], width, height))
    requires q.slot == e.slot && 0 <= e.slot.page < |pages|
    requires EntryShows(e, glyph, packed + [q], pages[e.slot.page := copied], width)
    requires forall px: int, py: int | 0 <= px < width * 4 && 0 <= py < height && !Inside(e.slot, px, py) ::
      At(copied, width * 4, px, py) == At(pages[e.slot.page], width * 4, px, py)
    ensures Agrees(entries[key := e], glyphs[key := glyph], packed + [q], pages[e.slot.page := copied], width)
  {
    hide Shows, PackedOk, PageOk;
    var all, after := packed + [q], pages[e.slot.page := copied];
    forall k | k in entries
      ensures EntryShows(entries[k], glyphs[k], all, after, width) && Apart(entries[k].slot, e.slot, 1)
    {
      assert EntryShows(entries[k], glyphs[k], packed, pages, width);
      var i :| 0 <= i < |packed| && packed[i].slot == entries[k].slot;
      OldIsApart(packed, q, shelves, width, height, i);
      assert all[i] == packed[i];
      if entries[k].slot.page == e.slot.page {
        OtherSlotStillShows(pages[e.slot.page], copied, width, height, entries[k].slot, glyphs[k].tile, e.slot);
      }
    }
  }

  lemma {:induction false} MorePagesAgree<K(!new)>(entries: map<K, Entry>, glyphs: map<K, Glyph>, packed: seq<Packed>,
        pages: seq<seq<nat>>, width: nat, page: seq<nat>)
    requires Agrees(entries, glyphs, packed, pages, width)
    ensures Agrees(entries, glyphs, packed, pages + [page], width)
  {
    forall k | k in entries
      ensures EntryShows(entries[k], glyphs[k], packed, pages + [page], width)
    {
      assert EntryShows(entries[k], glyphs[k], packed, pages, width);
    }
  }

  // ---- Storage ---------------------------------------------------------------------

  /** What caches share: `useCount` of them refer to it. */
  class Storage<K(==,!new)> {
    const packer: Packer
    var entries: map<K, Entry>
    var pages: seq<seq<nat>>
    var useCount: nat

    /** The first glyph inserted under each key. */
    ghost var glyphs: map<K, Glyph>

    ghost predicate Valid()
      reads this`entries, this`pages, this`glyphs, packer
    {
      && packer.Valid() && packer.gutter == 1
      && |pages| == |packer.pages|
      && (forall p | 0 <= p < |pages| :: |pages[p]| == PageSize())
      && Agrees(entries, glyphs, packer.packed, pages, Width())
    }

    function Width(): nat {
      if packer.width > 0 then packer.width else 0
    }

    function Height(): nat {
      if packer.height > 0 then packer.height else 0
    }

    function PageSize(): nat {
      Width() * 4 * Height()
    }

    constructor (width: int, height: int, pageBudget: int)
      ensures Valid() && fresh(packer) && entries == map[] && glyphs == map[] && pages == [] && useCount == 1
      ensures packer.width == width && packer.height == height && packer.packed == []
      ensures packer.maxPages == if pageBudget > 1 then pageBudget else 1
    {
      packer := new Packer(width, height, 1, pageBudget);
      entries, glyphs, pages, useCount := map[], map[], [], 1;
    }

    /** A deep copy for one cache. */
    constructor Copy(other: Storage<K>)
      requires other.Valid()
      ensures Valid() && fresh(packer) && useCount == 1
      ensures entries == other.entries && glyphs == other.glyphs && pages == other.pages
      ensures packer.pages == other.packer.pages && packer.packed == other.packer.packed
      ensures packer.width == other.packer.width && packer.height == other.packer.height
      ensures packer.maxPages == other.packer.maxPages
    {
      packer := new Packer.Copy(other.packer);
      entries, glyphs, pages, useCount := other.entries, other.glyphs, other.pages, 1;
    }

    /** Packs and stores a tile under a new key, or leaves the entries as they are. */
    method Insert(key: K, tile: Tile, offsetX: int, offsetY: int) returns (stored: Option<Entry>)
      requires Valid() && key !in entries && tile.Valid()
      modifies this`entries, this`pages, this`glyphs, packer
      ensures Valid()
      ensures stored.Some? <==> packer.Packable(old(packer.pages), tile.width, tile.height)
      ensures stored.Some? ==> entries == old(entries)[key := stored.value] && glyphs == old(glyphs)[key := Glyph(tile, offsetX, offsetY)]
      ensures stored.Some? ==> |packer.packed| == |old(packer.packed)| + 1 && packer.packed[..|old(packer.packed)|] == old(packer.packed)
      ensures stored.Some? ==> packer.packed[|old(packer.packed)|].slot == stored.value.slot
      ensures stored.Some? ==> stored.value.slot.width == tile.width && stored.value.slot.height == tile.height
      ensures stored.Some? ==> stored.value.offsetX == offsetX && stored.value.offsetY == offsetY
      ensures stored.None? ==> entries == old(entries) && glyphs == old(glyphs) && pages == old(pages)
      ensures stored.None? ==> packer.pages == old(packer.pages) && packer.packed == old(packer.packed)
    {
      hide Agrees, PackedOk, Shows, UsedArea, PagesArea;
      ghost var before := packer.packed;
      var slot := packer.Pack(tile.width, tile.height);
      if slot.None? {
        return None;
      }
      ghost var q := packer.packed[|before|];
      assert packer.packed == before + [q];
      JustPacked(before, q);
      while |pages| < |packer.pages|
        invariant |old(pages)| <= |pages| <= |packer.pages|
        invariant forall p | 0 <= p < |pages| :: |pages[p]| == PageSize()
        invariant Agrees(entries, glyphs, before, pages, Width())
        modifies this`pages
      {
        MorePagesAgree(entries, glyphs, before, pages, Width(), seq(PageSize(), _ => 0));
        pages := pages + [seq(PageSize(), _ => 0)];
      }
      var e := Entry(slot.value, offsetX, offsetY, tile.coverageKind, tile.lcdOrder);
      var copied := CopyTileToSlot(pages[e.slot.page], Width(), Height(), e.slot, tile);
      ghost var glyph := Glyph(tile, offsetX, offsetY);
      assert EntryShows(e, glyph, before + [q], pages[e.slot.page := copied], Width());
      InsertAgrees(entries, glyphs, before, pages, packer.pages, Width(), Height(), key, e, glyph, q, copied);
      pages := pages[e.slot.page := copied];
      entries := entries[key := e];
      glyphs := glyphs[key := glyph];
      stored := Some(e);
    }
  }

  lemma {:induction false} JustPacked(packed: seq<Packed>, q: Packed)
    ensures IsPacked(q.slot, packed + [q])
  {
    assert (packed + [q])[|packed|] == q;
  }
}
