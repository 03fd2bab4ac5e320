/**
 * The bounded thumbnail cache (src/image_cache.rs): a map from image path to
 * texture with an entry limit. When the map holds `limit` or more entries,
 * `insert` first removes one arbitrary key -- whichever the hash map yields
 * first -- even when the key being inserted is already present.
 */
module Cache {
  import opened Wrappers

  /** A decoded, resized RGBA8 pixel buffer (the GDK texture the cache stores). */
  datatype Texture = Texture(width: nat, height: nat, rgba: seq<bv8>)

  /** The limit the application creates its one cache with (src/main.rs:37). */
  const AppCacheLimit: nat := 500

  /**
   * What `insert` may evict from `m`: nothing while the map is below the limit
   * or empty; otherwise exactly one key that is present, any of them.
   */
  ghost predicate ValidVictim(m: map<string, Texture>, limit: nat, victim: Option<string>) {
    if |m| < limit || |m| == 0 then victim == None
    else victim.Some? && victim.value in m
  }

  /** The map after evicting `victim` (if any) and then storing `value` under `path`. */
  function AfterInsert(m: map<string, Texture>, victim: Option<string>, path: string, value: Texture): map<string, Texture> {
    (if victim.Some? then m - {victim.value} else m)[path := value]
  }

  /** The inserted value is what a lookup of its key finds afterwards. */
  lemma InsertThenGet(m: map<string, Texture>, limit: nat, victim: Option<string>, path: string, value: Texture)
    requires ValidVictim(m, limit, victim)
    ensures path in AfterInsert(m, victim, path, value)
    ensures AfterInsert(m, victim, path, value)[path] == value
  {
  }

  /** Below the limit nothing is evicted: every other entry survives unchanged. */
  lemma {:induction false} InsertBelowLimit(m: map<string, Texture>, limit: nat, victim: Option<string>, path: string, value: Texture)
    requires ValidVictim(m, limit, victim)
    requires |m| < limit
    ensures victim == None
    ensures var m' := AfterInsert(m, victim, path, value);
      m'.Keys == m.Keys + {path} &&
      (forall k :: k in m && k != path ==> m'[k] == m[k]) &&
      |m'| == if path in m then |m| else |m| + 1
  {
    var m' := AfterInsert(m, victim, path, value);
    if path in m {
      assert m'.Keys == m.Keys;
    } else {
      assert m'.Keys == m.Keys + {path};
      assert |m'.Keys| == |m.Keys| + 1;
    }
  }

  /**
   * At or above the limit, a non-empty map loses exactly one key before the
   * insertion. That key may differ from `path` even when `path` is present,
   * so the size then drops by one.
   */
  lemma {:induction false} InsertAtLimit(m: map<string, Texture>, limit: nat, victim: Option<string>, path: string, value: Texture)
    requires ValidVictim(m, limit, victim)
    requires |m| >= limit && |m| > 0
    ensures victim.Some? && victim.value in m
    ensures var m' := AfterInsert(m, victim, path, value);
      m'.Keys == m.Keys - {victim.value} + {path} &&
      (forall k :: k in m && k != path && k != victim.value ==> m'[k] == m[k]) &&
      |m'| == if path in m && path != victim.value then |m| - 1 else |m|
  {
    var v := victim.value;
    var m' := AfterInsert(m, victim, path, value);
    var removed := m - {v};
    assert removed.Keys == m.Keys - {v};
    assert |removed.Keys| == |m.Keys| - 1;
    if path in m && path != v {
      assert m'.Keys == removed.Keys;
    } else {
      assert path !in removed.Keys;
      assert m'.Keys == removed.Keys + {path};
      assert |m'.Keys| == |removed.Keys| + 1;
    }
  }

  /** With a limit of at least one, an insertion never takes the cache past its limit. */
  lemma {:induction false} InsertKeepsBound(m: map<string, Texture>, limit: nat, victim: Option<string>, path: string, value: Texture)
    requires ValidVictim(m, limit, victim)
    requires 1 <= limit && |m| <= limit
    ensures |AfterInsert(m, victim, path, value)| <= limit
  {
    if |m| < limit {
      InsertBelowLimit(m, limit, victim, path, value);
    } else {
      InsertAtLimit(m, limit, victim, path, value);
    }
  }

  /** The application's cache, created with limit 500, never holds more than 500 textures. */
  lemma AppCacheKeepsBound(m: map<string, Texture>, victim: Option<string>, path: string, value: Texture)
    requires ValidVictim(m, AppCacheLimit, victim) && |m| <= AppCacheLimit
    ensures |AfterInsert(m, victim, path, value)| <= AppCacheLimit
  {
    InsertKeepsBound(m, AppCacheLimit, victim, path, value);
  }

  /** With a limit of zero the bound cannot hold: inserting into the empty cache leaves one entry. */
  lemma ZeroLimitOverflows(path: string, value: Texture)
    ensures ValidVictim(map[], 0, None)
    ensures |AfterInsert(map[], None, path, value)| == 1
  {
    assert AfterInsert(map[], None, path, value).Keys == {path};
  }

  /**
   * Re-inserting a key that is already present into a full cache can shrink
   * it: with two entries and limit two, evicting the other key leaves one.
   */
  lemma ReinsertCanShrink(t: Texture)
    ensures var m := map["a" := t, "b" := t];
      ValidVictim(m, 2, Some("b")) && "a" in m &&
      |AfterInsert(m, Some("b"), "a", t)| == |m| - 1
  {
    var m := map["a" := t, "b" := t];
    assert m.Keys == {"a", "b"};
    assert |m| == 2;
    assert AfterInsert(m, Some("b"), "a", t).Keys == {"a"};
  }

  class ImageCache {
    var entries: map<string, Texture>
    const limit: nat

    /** `ImageCache::new(limit)`: an empty cache with that limit. */
    constructor (limit: nat)
      ensures entries == map[] && this.limit == limit
    {
      this.entries := map[];
      this.limit := limit;
    }

    /** `get`: the texture stored under `path`, if any; the cache is not changed. */
    function Get(path: string): (r: Option<Texture>)
      reads this
      ensures r.Some? <==> path in entries
      ensures r.Some? ==> entries[path] == r.value
    {
      if path in entries then Some(entries[path]) else None
    }

    /**
     * `insert`: evicts one arbitrary key when the map is at or above the
     * limit (reported in the ghost out-parameter), then stores the value.
     */
    method Insert(path: string, value: Texture) returns (ghost victim: Option<string>)
      modifies this
      ensures ValidVictim(old(entries), limit, victim)
      ensures entries == AfterInsert(old(entries), victim, path, value)
      ensures Get(path) == Some(value)
      ensures 1 <= limit && old(|entries|) <= limit ==> |entries| <= limit
    {
      victim := None;
      if |entries| >= limit {
        if entries != map[] {
          var first :| first in entries;
          entries := entries - {first};
          victim := Some(first);
        }
      }
      entries := entries[path := value];
      if 1 <= limit && old(|entries|) <= limit {
        InsertKeepsBound(old(entries), limit, victim, path, value);
      }
    }

    /** `_remove`: takes out the entry for `path` and returns its previous value. */
    method Remove(path: string) returns (previous: Option<Texture>)
      modifies this
      ensures previous == old(Get(path))
      ensures entries == old(entries) - {path}
      ensures Get(path) == None
    {
      previous := Get(path);
      entries := entries - {path};
    }
  }
}
