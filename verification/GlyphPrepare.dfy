/** Caches that share storage, and the prepare transaction over two of them
    (src/qsg_atlas_renderer.cpp). */
module GlyphPrepare {
  import opened GlyphPacker
  import opened GlyphBudget
  import opened GlyphCache

  /** Everything a storage holds. */
  datatype Snapshot<K(!new)> = Snapshot(entries: map<K, Entry>, glyphs: map<K, Glyph>, pages: seq<seq<nat>>,
                                        shelves: seq<Page>, packed: seq<Packed>)

  class Cache<K(==,!new)> {
    var storage: Storage<K>
    var epoch: nat
    var pageWidth: int
    var pageHeight: int
    var pageBudget: int
    var usedBytes: nat

    ghost predicate Valid()
      reads this, storage, storage.packer
    {
      && storage.Valid()
      && pageWidth == storage.packer.width && pageHeight == storage.packer.height
      && storage.packer.maxPages == (if pageBudget > 1 then pageBudget else 1)
      && usedBytes == 4 * UsedArea(storage.packer.packed)
    }

    ghost function Holds(): Snapshot<K>
      reads this, storage, storage.packer
    {
      Snapshot(storage.entries, storage.glyphs, storage.pages, storage.packer.pages, storage.packer.packed)
    }

    /** The map the cache stands for. */
    ghost function View(): map<K, Glyph>
      reads this, storage
    {
      storage.glyphs
    }

    constructor (pageWidth: int, pageHeight: int)
      ensures Valid() && View() == map[] && fresh(storage) && fresh(storage.packer) && storage.useCount == 1
      ensures this.pageWidth == pageWidth && this.pageHeight == pageHeight && pageBudget == storage.packer.maxPages == 4
    {
      var empty := new Storage<K>(pageWidth, pageHeight, 4);
      storage := empty;
      this.pageWidth, this.pageHeight, pageBudget := pageWidth, pageHeight, 4;
      epoch, usedBytes := 0, 0;
    }

    /** Page memory in use and the most there can be. */
    method Stats() returns (allocatedBytes: nat, budgetBytes: nat)
      requires Valid()
      ensures usedBytes <= allocatedBytes <= budgetBytes
      ensures budgetBytes == storage.packer.maxPages * TileBytes(pageWidth, pageHeight)
      ensures allocatedBytes == |storage.pages| * TileBytes(pageWidth, pageHeight)
    {
      var pageBytes := TileBytes(pageWidth, pageHeight);
      TileBytesPositive(pageWidth, pageHeight);
      PagesFit(storage.packer.pages, storage.Width(), storage.Height());
      PageBytes(|storage.packer.pages|, storage.Width(), storage.Height());
      var budget := if pageBudget > 1 then pageBudget else 1;
      Times(|storage.packer.pages|, budget, pageBytes);
      Times(0, |storage.packer.pages|, pageBytes);
      allocatedBytes, budgetBytes := |storage.packer.pages| * pageBytes, budget * pageBytes;
    }

    /** A cache that shares its storage takes a copy of its own. */
    method DetachStorageForWrite()
      requires Valid() && 1 <= storage.useCount
      modifies this`storage, storage`useCount
      ensures Valid() && Holds() == old(Holds()) && storage.useCount == 1
      ensures old(storage.useCount) == 1 ==> storage == old(storage)
      ensures old(storage.useCount) > 1 ==>
        fresh(storage) && fresh(storage.packer) && old(storage).useCount == old(storage.useCount) - 1
      ensures epoch == old(epoch)
    {
      if storage.useCount > 1 {
        var copy := new Storage<K>.Copy(storage);
        storage.useCount := storage.useCount - 1;
        storage := copy;
      }
    }

    method Find(key: K) returns (entry: Option<Entry>)
      requires Valid()
      ensures entry.Some? <==> key in View()
      ensures entry.Some? ==> EntryShows(entry.value, View()[key], storage.packer.packed, storage.pages, storage.Width())
    {
      entry := if key in storage.entries then Some(storage.entries[key]) else None;
    }

    /** The first glyph inserted under a key stays, its offset included; a shared storage is not written. */
    method InsertOrGet(key: K, tile: Tile, offsetX: int, offsetY: int) returns (entry: Option<Entry>)
      requires Valid() && 1 <= storage.useCount && tile.Valid()
      modifies this`storage, this`usedBytes, storage, storage.packer
      ensures Valid() && epoch == old(epoch)
      ensures old(key in View()) ==> entry.Some? && Holds() == old(Holds()) && storage == old(storage)
      ensures old(key in View()) ==> storage.useCount == old(storage.useCount)
      ensures old(key !in View()) ==> View() == if entry.Some? then old(View())[key := Glyph(tile, offsetX, offsetY)] else old(View())
      ensures old(key !in View()) ==> storage.useCount == 1
      ensures entry.Some? ==> EntryShows(entry.value, View()[key], storage.packer.packed, storage.pages, storage.Width())
      ensures entry.None? ==> Holds() == old(Holds())
      ensures old(key !in View()) && old(storage.useCount) == 1 ==> storage == old(storage)
      ensures old(key !in View()) && old(storage.useCount) > 1 ==>
        && fresh(storage) && fresh(storage.packer)
        && unchanged(old(storage)`entries, old(storage)`glyphs, old(storage)`pages, old(storage.packer))
        && old(storage).useCount == old(storage.useCount) - 1
    {
      hide UsedArea, Agrees, EntryShows, Packer.Valid, PackedOk, PagesArea, Shows;
      AgreesAt(storage.entries, storage.glyphs, storage.packer.packed, storage.pages, storage.Width(), key);
      if key in storage.entries {
        return Some(storage.entries[key]);
      }
      DetachStorageForWrite();
      ghost var before := storage.packer.packed;
      entry := storage.Insert(key, tile, offsetX, offsetY);
      if entry.Some? {
        assert storage.packer.packed == before + [storage.packer.packed[|before|]];
        UsedAreaPush(before, storage.packer.packed[|before|]);
        usedBytes := usedBytes + TileBytes(tile.width, tile.height);
        AgreesAt(storage.entries, storage.glyphs, storage.packer.packed, storage.pages, storage.Width(), key);
      }
    }

    /** Lets go of the storage and starts an empty one. */
    method StartOver(pageWidth: int, pageHeight: int, pageBudget: int)
      requires 1 <= storage.useCount
      modifies this, storage`useCount
      ensures Valid() && View() == map[] && fresh(storage) && fresh(storage.packer) && storage.useCount == 1
      ensures old(storage).useCount == old(storage.useCount) - 1
      ensures this.pageWidth == pageWidth && this.pageHeight == pageHeight && this.pageBudget == pageBudget
      ensures epoch == old(epoch)
    {
      storage.useCount := storage.useCount - 1;
      var empty := new Storage<K>(pageWidth, pageHeight, pageBudget);
      storage := empty;
      this.pageWidth, this.pageHeight, this.pageBudget := pageWidth, pageHeight, pageBudget;
      usedBytes := 0;
    }

    method Configure(pageWidth: int, pageHeight: int, pageBudget: int) returns (ok: bool)
      requires Valid() && 1 <= storage.useCount
      modifies this, storage`useCount
      ensures Valid() && epoch == old(epoch)
      ensures ok <==> 0 < pageWidth && 0 < pageHeight && 0 < pageBudget
      ensures ok ==> this.pageWidth == pageWidth && this.pageHeight == pageHeight && storage.packer.maxPages == pageBudget
      ensures !ok || (old(this.pageWidth) == pageWidth && old(this.pageHeight) == pageHeight
                      && old(storage.packer.maxPages) == pageBudget) ==>
        storage == old(storage) && storage.useCount == old(storage.useCount) && Holds() == old(Holds())
      ensures ok && !(old(this.pageWidth) == pageWidth && old(this.pageHeight) == pageHeight
                      && old(storage.packer.maxPages) == pageBudget) ==>
        && View() == map[] && fresh(storage) && fresh(storage.packer) && storage.useCount == 1
        && old(storage).useCount == old(storage.useCount) - 1
    {
      if pageWidth <= 0 || pageHeight <= 0 || pageBudget <= 0 {
        return false;
      }
      if this.pageWidth == pageWidth && this.pageHeight == pageHeight && storage.packer.maxPages == pageBudget {
        return true;
      }
      StartOver(pageWidth, pageHeight, pageBudget);
      ok := true;
    }

    method SetEpoch(epoch: nat)
      requires Valid() && 1 <= storage.useCount
      modifies this, storage`useCount
      ensures Valid() && this.epoch == epoch
      ensures pageWidth == old(pageWidth) && pageHeight == old(pageHeight) && storage.packer.maxPages == old(storage.packer.maxPages)
      ensures old(this.epoch) == epoch ==>
        storage == old(storage) && storage.useCount == old(storage.useCount) && Holds() == old(Holds())
      ensures old(this.epoch) != epoch ==>
        && View() == map[] && fresh(storage) && fresh(storage.packer) && storage.useCount == 1
        && old(storage).useCount == old(storage.useCount) - 1
    {
      if this.epoch == epoch {
        return;
      }
      this.epoch := epoch;
      StartOver(pageWidth, pageHeight, pageBudget);
    }

    method Reset()
      requires Valid() && 1 <= storage.useCount
      modifies this, storage`useCount
      ensures Valid() && View() == map[] && fresh(storage) && fresh(storage.packer) && storage.useCount == 1
      ensures old(storage).useCount == old(storage.useCount) - 1
    {
      StartOver(pageWidth, pageHeight, pageBudget);
    }

    /** Shares another cache's storage. */
    method Assign(other: Cache<K>)
      requires Valid() && other.Valid() && this != other && 1 <= storage.useCount && 1 <= other.storage.useCount
      modifies this, storage`useCount, other.storage`useCount
      ensures Valid() && other.Valid() && storage == other.storage == old(other.storage)
      ensures Holds() == other.Holds() == old(other.Holds())
      ensures epoch == other.epoch && pageWidth == other.pageWidth && pageHeight == other.pageHeight
      ensures old(storage) == old(other.storage) ==> storage.useCount == old(storage.useCount)
      ensures old(storage) != old(other.storage) ==>
        storage.useCount == old(other.storage.useCount) + 1 && old(storage).useCount == old(storage.useCount) - 1
    {
      if storage != other.storage {
        storage.useCount := storage.useCount - 1;
        storage := other.storage;
        storage.useCount := storage.useCount + 1;
      }
      epoch, pageWidth, pageHeight := other.epoch, other.pageWidth, other.pageHeight;
      pageBudget, usedBytes := other.pageBudget, other.usedBytes;
    }
  }

  lemma {:induction false} AgreesAt<K(!new)>(entries: map<K, Entry>, glyphs: map<K, Glyph>, packed: seq<Packed>,
        pages: seq<seq<nat>>, width: nat, key: K)
    requires Agrees(entries, glyphs, packed, pages, width)
    ensures key in entries <==> key in glyphs
    ensures key in entries ==> EntryShows(entries[key], glyphs[key], packed, pages, width)
  {
  }

  lemma {:induction false} TileBytesPositive(width: int, height: int)
    ensures TileBytes(width, height) >= 0
  {
    if width > 0 && height > 0 {
      Times(0, height, width);
    }
  }

  /** The committed cache and the one a prepare works on. */
  class Prepare<K(==,!new)> {
    var committed: Cache<K>
    var working: Cache<K>

    ghost predicate Valid()
      reads this, committed, committed.storage, committed.storage.packer, working, working.storage, working.storage.packer
    {
      && committed != working && committed.Valid() && working.Valid()
      && (if committed.storage == working.storage then committed.storage.useCount == 2
          else
            && committed.storage.useCount == 1 && working.storage.useCount == 1
            && committed.storage.packer != working.storage.packer)
    }

    constructor ()
      ensures Valid() && committed.View() == map[] && working.View() == map[]
      ensures committed.pageWidth == committed.pageHeight == working.pageWidth == working.pageHeight == 256
    {
      var a := new Cache<K>(256, 256);
      var b := new Cache<K>(256, 256);
      committed, working := a, b;
    }

    /** Starts from what is committed; a new epoch or page layout starts empty. */
    method Begin(epoch: nat, pageWidth: int, pageHeight: int, pageBudget: int)
      requires Valid()
      modifies working, working.storage`useCount, committed.storage`useCount
      ensures Valid() && committed.Holds() == old(committed.Holds()) && committed == old(committed) && working == old(working)
      ensures working.View() ==
        if epoch == old(committed.epoch)
           && (pageWidth <= 0 || pageHeight <= 0 || pageBudget <= 0
               || (pageWidth == old(committed.pageWidth) && pageHeight == old(committed.pageHeight)
                   && pageBudget == old(committed.storage.packer.maxPages)))
        then committed.View() else map[]
    {
      hide UsedArea, Agrees, Packer.Valid, Storage.Valid;
      working.Assign(committed);
      working.SetEpoch(epoch);
      var _ := working.Configure(pageWidth, pageHeight, pageBudget);
    }

    /** An insertion during a prepare never shows in the committed cache. */
    method Insert(key: K, tile: Tile, offsetX: int, offsetY: int) returns (entry: Option<Entry>)
      requires Valid() && tile.Valid()
      modifies working, working.storage, working.storage.packer
      ensures Valid() && committed == old(committed) && working == old(working)
      ensures committed.Holds() == old(committed.Holds())
      ensures entry.None? ==> working.View() == old(working.View()) && key !in working.View()
      ensures entry.Some? ==>
        && working.View() ==
             (if key in old(working.View()) then old(working.View()) else old(working.View())[key := Glyph(tile, offsetX, offsetY)])
        && EntryShows(entry.value, working.View()[key], working.storage.packer.packed, working.storage.pages, working.storage.Width())
    {
      hide UsedArea, Agrees, Packer.Valid, Storage.Valid, EntryShows;
      entry := working.InsertOrGet(key, tile, offsetX, offsetY);
    }

    method Commit()
      requires Valid()
      modifies this, committed, committed.storage`useCount
      ensures Valid() && committed.Holds() == old(working.Holds()) && working.View() == map[]
    {
      committed, working := working, committed;
      working.Reset();
    }

    method Discard()
      requires Valid()
      modifies working, working.storage`useCount
      ensures Valid() && committed == old(committed) && working == old(working)
      ensures committed.Holds() == old(committed.Holds()) && working.View() == map[]
    {
      working.Reset();
    }
  }
}
