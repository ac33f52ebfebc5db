/** Page size and page budget of the glyph atlas (src/qsg_atlas_renderer.cpp). */
module GlyphBudget {
  import opened GlyphPacker

  const CANVAS_MAX_CELLS := 32768
  const BYTES_PER_CANVAS_CELL := 2 * 1024
  const CACHE_BYTE_LIMIT := CANVAS_MAX_CELLS * BYTES_PER_CANVAS_CELL
  const MIN_PAGE_EXTENT := 256

  function TileBytes(width: int, height: int): int {
    if width <= 0 || height <= 0 then 0 else width * height * 4
  }

  predicate IsPowerOfTwo(n: nat) {
    n == 1 || (n > 1 && n % 2 == 0 && IsPowerOfTwo(n / 2))
  }

  /** Between a power of two and its double there is none. */
  lemma {:induction false} NoneBetween(p: nat, n: nat)
    requires IsPowerOfTwo(p) && p < n < 2 * p
    ensures !IsPowerOfTwo(n)
  {
    if p > 1 && n % 2 == 0 {
      NoneBetween(p / 2, n / 2);
    }
  }

  /** The least power of two that is large enough, or the maximum itself when every such
      power exceeds it. */
  ghost predicate IsPageExtent(required: int, maximum: int, extent: nat) {
    && 0 < required <= extent <= maximum
    && (|| (IsPowerOfTwo(extent) && extent < 2 * required)
        || (extent == maximum && forall p: nat | required <= p <= maximum :: !IsPowerOfTwo(p)))
  }

  lemma {:induction false} PageExtentIsUnique(required: int, maximum: int, a: nat, b: nat)
    requires IsPageExtent(required, maximum, a) && IsPageExtent(required, maximum, b)
    ensures a == b
  {
    if IsPowerOfTwo(a) && IsPowerOfTwo(b) {
      if a < b {
        NoneBetween(a, b);
      } else if b < a {
        NoneBetween(b, a);
      }
    }
  }

  method PowerOfTwoExtent(required: int, maximum: int) returns (extent: nat)
    ensures required <= 0 || maximum <= 0 || required > maximum <==> extent == 0
    ensures extent != 0 ==> IsPageExtent(required, maximum, extent)
  {
    if required <= 0 || maximum <= 0 || required > maximum {
      return 0;
    }
    extent := 1;
    while extent < required
      invariant 1 <= extent <= maximum && IsPowerOfTwo(extent) && extent < 2 * required
    {
      if extent > maximum / 2 {
        forall p: nat | required <= p <= maximum
          ensures !IsPowerOfTwo(p)
        {
          NoneBetween(extent, p);
        }
        return maximum;
      }
      extent := extent * 2;
    }
  }

  /** The largest page that fits the byte limit, itself a power of two. */
  const LARGEST_EXTENT := 4096

  lemma {:induction false} LargestFits(extent: nat)
    ensures TileBytes(extent, extent) <= CACHE_BYTE_LIMIT <==> extent <= LARGEST_EXTENT
    ensures IsPowerOfTwo(LARGEST_EXTENT)
  {
    assert TileBytes(LARGEST_EXTENT, LARGEST_EXTENT) == CACHE_BYTE_LIMIT;
    if extent <= LARGEST_EXTENT {
      Times(extent, LARGEST_EXTENT, extent);
      Times(extent, LARGEST_EXTENT, LARGEST_EXTENT);
    } else {
      Times(LARGEST_EXTENT + 1, extent, extent);
      Times(LARGEST_EXTENT + 1, extent, LARGEST_EXTENT + 1);
    }
  }

  /** A page fits the byte limit exactly when what it must hold does. */
  lemma {:induction false} PageFits(required: int, maximum: int, extent: nat)
    requires IsPageExtent(required, maximum, extent)
    ensures TileBytes(extent, extent) <= CACHE_BYTE_LIMIT <==> required <= LARGEST_EXTENT
  {
    LargestFits(extent);
    if LARGEST_EXTENT < extent < 2 * LARGEST_EXTENT {
      NoneBetween(LARGEST_EXTENT, extent);
    }
  }

  function RequiredExtent(requiredExtent: int): int {
    if requiredExtent > MIN_PAGE_EXTENT then requiredExtent else MIN_PAGE_EXTENT
  }

  datatype Configuration = Configuration(extent: nat, pageBudget: nat)

  /** Square pages of the one extent that suits, as many as the byte limit and the device
      allow; there are none exactly when the device has no room for one, or one would be
      too large for the byte limit. */
  method RuntimeConfiguration(requiredExtent: int, textureExtentLimit: int, textureArrayLimit: int)
    returns (configuration: Option<Configuration>)
    ensures configuration.Some? ==>
      var c := configuration.value;
      && IsPageExtent(RequiredExtent(requiredExtent), textureExtentLimit, c.extent)
      && 1 <= c.pageBudget <= textureArrayLimit
      && c.pageBudget * TileBytes(c.extent, c.extent) <= CACHE_BYTE_LIMIT
      && (c.pageBudget == textureArrayLimit || (c.pageBudget + 1) * TileBytes(c.extent, c.extent) > CACHE_BYTE_LIMIT)
    ensures configuration.None? <==>
      || textureArrayLimit <= 0
      || RequiredExtent(requiredExtent) > textureExtentLimit
      || RequiredExtent(requiredExtent) > LARGEST_EXTENT
  {
    if textureExtentLimit <= 0 || textureArrayLimit <= 0 {
      return None;
    }
    var required := RequiredExtent(requiredExtent);
    var extent := PowerOfTwoExtent(required, textureExtentLimit);
    if extent <= 0 {
      return None;
    }
    var pageBytes := TileBytes(extent, extent);
    PositiveSquare(extent);
    PageFits(required, textureExtentLimit, extent);
    if pageBytes == 0 || pageBytes > CACHE_BYTE_LIMIT {
      return None;
    }
    var memoryPageLimit := CACHE_BYTE_LIMIT / pageBytes;
    var pageBudget := if memoryPageLimit < textureArrayLimit then memoryPageLimit else textureArrayLimit;
    Quotients(CACHE_BYTE_LIMIT, pageBytes, pageBudget);
    configuration := Some(Configuration(extent, pageBudget));
  }

  lemma {:induction false} PositiveSquare(extent: nat)
    requires extent > 0
    ensures TileBytes(extent, extent) > 0
  {
    Times(1, extent, extent);
  }

  lemma {:induction false} Quotients(limit: nat, bytes: nat, budget: nat)
    requires 0 < bytes <= limit && budget <= limit / bytes
    ensures 1 <= limit / bytes && budget * bytes <= limit && (limit / bytes + 1) * bytes > limit
  {
    var q := limit / bytes;
    assert limit == q * bytes + limit % bytes;
    Times(budget, q, bytes);
    if q < 1 {
      Times(q, 0, bytes);
    }
  }

  /** Pages within the budget stay under the byte limit, and tiles within the pages. */
  lemma {:induction false} BytesWithinLimit(packed: seq<Packed>, pages: seq<Page>, c: Configuration)
    requires forall p | 0 <= p < |pages| :: PageOk(pages[p], c.extent, c.extent)
    requires UsedArea(packed) <= PagesArea(pages) && |pages| <= c.pageBudget
    requires c.pageBudget * TileBytes(c.extent, c.extent) <= CACHE_BYTE_LIMIT
    ensures UsedArea(packed) * 4 <= |pages| * TileBytes(c.extent, c.extent) <= c.pageBudget * TileBytes(c.extent, c.extent)
              <= CACHE_BYTE_LIMIT
  {
    PagesFit(pages, c.extent, c.extent);
    PageBytes(|pages|, c.extent, c.extent);
    if c.extent > 0 {
      PositiveSquare(c.extent);
    }
    Times(|pages|, c.pageBudget, TileBytes(c.extent, c.extent));
  }

  lemma {:induction false} PageBytes(count: nat, width: nat, height: nat)
    ensures count * TileBytes(width, height) == count * (width * height) * 4
  {
    if width > 0 && height > 0 {
      assert count * (width * height * 4) == count * (width * height) * 4;
    } else {
      assert width * height == 0;
    }
  }
}
