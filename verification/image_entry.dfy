/**
 * One image of a folder and its thumbnail (src/image_entry.rs): the size the
 * thumbnail is scaled to, and the load step that consults the cache before
 * decoding. Decoding and resizing are library calls, given here as an oracle.
 */
module ImageEntries {
  import opened Wrappers
  import opened Config
  import opened Cache

  /** An image path and its thumbnail, once loaded. */
  datatype ImageEntry = ImageEntry(imagePath: string, image: Option<Texture>)

  /**
   * `calculate_size`: the longer axis becomes `to` and the shorter one is
   * scaled by the same factor, rounded down (u32 floor division). A square
   * takes the second branch. The Rust code panics when it divides by zero
   * or when a product overflows u32; those inputs are excluded.
   */
  function CalculateSize(width: u32, height: u32, to: u32): (r: (u32, u32))
    requires width > height ==> height * to <= U32Max
    requires width <= height ==> height > 0 && width * to <= U32Max
    ensures width > height ==> r.0 == to && r.1 * width <= height * to < (r.1 + 1) * width
    ensures width <= height ==> r.1 == to && r.0 * height <= width * to < (r.0 + 1) * height
  {
    if width > height then
      FloorDivision(height * to, width);
      (to, (height * to) / width)
    else
      FloorDivision(width * to, height);
      ((width * to) / height, to)
  }

  /** Floor division brackets the dividend between two consecutive multiples of the divisor. */
  lemma FloorDivision(n: nat, d: nat)
    requires d > 0
    ensures n / d <= n
    ensures (n / d) * d <= n < (n / d + 1) * d
  {
    var q, m := n / d, n % d;
    assert n == q * d + m && 0 <= m < d;
    assert (q + 1) * d == q * d + d;
    MulMonotone(1, d, q);
  }

  /** Neither side of the thumbnail exceeds the box. */
  lemma {:induction false} ThumbnailFitsBox(width: u32, height: u32, to: u32)
    requires width > height ==> height * to <= U32Max
    requires width <= height ==> height > 0 && width * to <= U32Max
    ensures CalculateSize(width, height, to).0 <= to
    ensures CalculateSize(width, height, to).1 <= to
  {
    var r := CalculateSize(width, height, to);
    if width > height {
      assert height * to <= width * to by { MulMonotone(height, width, to); }
      assert r.1 * width <= width * to;
      ScaledBound(r.1, to, width);
    } else {
      assert width * to <= height * to by { MulMonotone(width, height, to); }
      assert r.0 * height <= height * to;
      ScaledBound(r.0, to, height);
    }
  }

  lemma MulMonotone(a: nat, b: nat, c: nat)
    requires a <= b
    ensures a * c <= b * c
  {
  }

  lemma ScaledBound(x: nat, to: nat, d: nat)
    requires d > 0 && x * d <= to * d
    ensures x <= to
  {
    if x > to {
      MulMonotone(to + 1, x, d);
      assert false;
    }
  }

  /** Three sample sizes: landscape, portrait and square. */
  lemma CalculateSizeExamples()
    ensures CalculateSize(1600, 900, 200) == (200, 112)
    ensures CalculateSize(900, 1600, 200) == (112, 200)
    ensures CalculateSize(200, 200, 200) == (200, 200)
  {
  }

  /** How `load_image` went: the thumbnail was already there, came from the cache, or was decoded. */
  datatype LoadPath = AlreadyLoaded | CacheHit | Decoded

  /**
   * `load_image`. The entry (Rust's `&mut self`) is passed in and the updated
   * entry returned; `decode` stands for `load_and_resize_image`, None for a
   * failed open or decode. A failed decode is swallowed: the image stays
   * unloaded and the call still succeeds.
   */
  method LoadImage(entry: ImageEntry, config: AppConfig, cache: ImageCache, decode: (string, u32) -> Option<Texture>)
    returns (loaded: ImageEntry, path: LoadPath)
    modifies cache
    ensures loaded.imagePath == entry.imagePath
    ensures entry.image.Some? ==> path == AlreadyLoaded && loaded == entry && cache.entries == old(cache.entries)
    ensures entry.image.None? && old(cache.Get(entry.imagePath)).Some? ==>
      path == CacheHit && loaded.image == old(cache.Get(entry.imagePath)) && cache.entries == old(cache.entries)
    ensures entry.image.None? && old(cache.Get(entry.imagePath)).None? ==>
      path == Decoded && loaded.image == decode(entry.imagePath, config.thumbnailSize)
    ensures path == Decoded && loaded.image.None? ==> cache.entries == old(cache.entries)
    ensures path == Decoded && loaded.image.Some? ==>
      exists victim :: ValidVictim(old(cache.entries), cache.limit, victim) &&
        cache.entries == AfterInsert(old(cache.entries), victim, entry.imagePath, loaded.image.value)
    ensures 1 <= cache.limit && old(|cache.entries|) <= cache.limit ==> |cache.entries| <= cache.limit
  {
    if entry.image.Some? {
      return entry, AlreadyLoaded;
    }
    var cacheHit := cache.Get(entry.imagePath);
    if cacheHit.Some? {
      return entry.(image := cacheHit), CacheHit;
    }
    loaded, path := entry, Decoded;
    var texture := decode(entry.imagePath, config.thumbnailSize);
    if texture.Some? {
      loaded := entry.(image := texture);
      ghost var victim := cache.Insert(entry.imagePath, texture.value);
    }
  }
}
