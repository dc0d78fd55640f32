/**
 * The `@lru_cache(maxsize=2)` in front of `load_image`: at most two results, keyed by the path
 * alone, the least recently used one evicted first. A failed load returns `None` rather than
 * raising, so `None` is cached like any picture; the screen size is not part of the key, so a
 * cached picture keeps the size it was scaled to.
 *
 * Entries are kept in order of use, least recent first, as CPython's linked list is.
 */
module LoadCache {
  import opened Wrappers
  import opened ImageLoad

  /** `maxsize=2` */
  const MaxSize: nat := 2

  datatype Entry<V> = Entry(key: string, value: V)

  predicate DistinctKeys<V>(es: seq<Entry<V>>) {
    forall i, j :: 0 <= i < j < |es| ==> es[i].key != es[j].key
  }

  /** What the cache can hold: at most `MaxSize` entries, one per key. */
  predicate WellFormed<V>(es: seq<Entry<V>>) {
    |es| <= MaxSize && DistinctKeys(es)
  }

  predicate Cached<V>(es: seq<Entry<V>>, key: string) {
    exists i :: 0 <= i < |es| && es[i].key == key
  }

  /** The position of `key`, or -1 when it is not cached. */
  function Find<V>(es: seq<Entry<V>>, key: string): (i: int)
    ensures -1 <= i < |es|
    ensures i >= 0 ==> es[i].key == key
    ensures i < 0 <==> !Cached(es, key)
  {
    if es == [] then -1
    else if es[|es| - 1].key == key then |es| - 1
    else Find(es[..|es| - 1], key)
  }

  /** A hit: entry `i` becomes the most recently used. */
  function Touch<V>(es: seq<Entry<V>>, i: nat): (r: seq<Entry<V>>)
    requires i < |es|
  {
    es[..i] + es[i + 1..] + [es[i]]
  }

  /** A miss: the new result is stored, evicting the least recently used entry when full. */
  function Insert<V>(es: seq<Entry<V>>, key: string, value: V): (r: seq<Entry<V>>) {
    (if |es| >= MaxSize then es[1..] else es) + [Entry(key, value)]
  }

  /**
   * One call through the cache: the new entries and the value returned. `load` is what the
   * wrapped function returns, and is only used on a miss.
   */
  function Access<V>(es: seq<Entry<V>>, key: string, load: V): (r: (seq<Entry<V>>, V))
    ensures Cached(es, key) ==> r.1 == es[Find(es, key)].value
    ensures !Cached(es, key) ==> r.1 == load
    ensures |r.0| > 0 && r.0[|r.0| - 1] == Entry(key, r.1)
  {
    var i := Find(es, key);
    if i >= 0 then (Touch(es, i), es[i].value) else (Insert(es, key, load), load)
  }

  /** A cached key has one entry, so the value found is the value cached. */
  lemma CachedValue<V>(es: seq<Entry<V>>, i: int)
    requires DistinctKeys(es) && 0 <= i < |es|
    ensures Find(es, es[i].key) == i
  {
    var j := Find(es, es[i].key);
  }

  /** Every call keeps the cache within two entries with one entry per key. */
  lemma AccessWellFormed<V>(es: seq<Entry<V>>, key: string, load: V)
    requires WellFormed(es)
    ensures WellFormed(Access(es, key, load).0)
  {
    var r := Access(es, key, load).0;
    var i := Find(es, key);
    if i >= 0 {
      forall a, b | 0 <= a < b < |r|
        ensures r[a].key != r[b].key
      {
        var ia := if a < i then a else a + 1;
        var ib := if b < i then b else if b < |r| - 1 then b + 1 else i;
        assert r[a] == es[ia] && r[b] == es[ib] && ia != ib;
      }
    } else {
      var kept := if |es| >= MaxSize then es[1..] else es;
      assert r == kept + [Entry(key, load)];
      forall a, b | 0 <= a < b < |r|
        ensures r[a].key != r[b].key
      {
        var off := if |es| >= MaxSize then 1 else 0;
        assert r[a] == es[a + off];
      }
    }
  }

  /** A hit keeps the same entries, only reordered: nothing is loaded, nothing evicted. */
  lemma AccessHitKeeps<V>(es: seq<Entry<V>>, key: string, load: V)
    requires Cached(es, key)
    ensures forall e :: e in Access(es, key, load).0 <==> e in es
    ensures |Access(es, key, load).0| == |es|
  {
    var i := Find(es, key);
    assert es == es[..i] + [es[i]] + es[i + 1..];
  }

  /**
   * A miss stores the loaded value and evicts exactly the least recently used entry when the
   * cache is full, and nothing when it is not.
   */
  lemma AccessMissEvicts<V>(es: seq<Entry<V>>, key: string, load: V)
    requires WellFormed(es) && !Cached(es, key)
    ensures var r := Access(es, key, load).0;
            && (|es| < MaxSize ==> |r| == |es| + 1)
            && (|es| == MaxSize ==> |r| == MaxSize && !Cached(r, es[0].key))
            && (forall e :: e in r <==> e == Entry(key, load) || (e in es && (|es| < MaxSize || e != es[0])))
  {
    var r := Access(es, key, load).0;
    if |es| == MaxSize {
      assert r == [es[1], Entry(key, load)];
      assert es == [es[0], es[1]];
    }
  }

  /** After a call the cache holds old entries and the one just used, nothing else. */
  lemma AccessSubset<V>(es: seq<Entry<V>>, key: string, load: V)
    ensures forall e :: e in Access(es, key, load).0 ==> e in es || e == Entry(key, Access(es, key, load).1)
  {
    if Cached(es, key) {
      AccessHitKeeps(es, key, load);
    } else {
      var kept := if |es| >= MaxSize then es[1..] else es;
      assert Access(es, key, load).0 == kept + [Entry(key, load)];
    }
  }

  /** A second call for the same key returns the first call's value, whatever the load yields now. */
  lemma AccessAgain<V>(es: seq<Entry<V>>, key: string, first: V, second: V)
    requires WellFormed(es)
    ensures var (r1, v1) := Access(es, key, first);
            Access(r1, key, second).1 == v1
  {
    var r1 := Access(es, key, first).0;
    AccessWellFormed(es, key, first);
    CachedValue(r1, |r1| - 1);
  }

  /** The two most recently used distinct keys are both cached. */
  lemma LastTwoCached<V>(es: seq<Entry<V>>, a: string, x: V, b: string, y: V)
    requires WellFormed(es) && a != b
    ensures var r1 := Access(es, a, x).0;
            var r2 := Access(r1, b, y).0;
            Cached(r2, a) && Cached(r2, b)
  {
    var r1 := Access(es, a, x).0;
    AccessWellFormed(es, a, x);
    var r2 := Access(r1, b, y).0;
    assert r1[|r1| - 1].key == a;
    if Cached(r1, b) {
      var i := Find(r1, b);
      assert i != |r1| - 1;
      assert r2[|r2| - 2] == r1[|r1| - 1];
    } else if |r1| >= MaxSize {
      assert r2[0] == r1[1] && r1[1] == r1[|r1| - 1];
    } else {
      assert r2[|r2| - 2] == r1[|r1| - 1];
    }
    assert r2[|r2| - 1].key == b;
  }

  /** Showing A, B, A, C from an empty cache leaves A and C cached: B was the least recently used. */
  lemma AlternationScenario<V>(a: string, b: string, c: string, va: V, vb: V, vc: V)
    requires a != b && b != c && a != c
    ensures var r1 := Access([], a, va).0;
            var r2 := Access(r1, b, vb).0;
            var r3 := Access(r2, a, va).0;
            var r4 := Access(r3, c, vc).0;
            r4 == [Entry(a, va), Entry(c, vc)] && !Cached(r4, b)
  {
    var r1 := Access([], a, va).0;
    assert r1 == [Entry(a, va)];
    var r2 := Access(r1, b, vb).0;
    assert r2 == [Entry(a, va), Entry(b, vb)];
    var r3 := Access(r2, a, va).0;
    assert Find(r2, a) == 0;
    assert r3 == [Entry(b, vb), Entry(a, va)];
    var r4 := Access(r3, c, vc).0;
    assert !Cached(r3, c);
    assert r4 == [Entry(a, va), Entry(c, vc)];
  }

  /** The pictures held by some entries. */
  function SurfacesOf(es: seq<Entry<Option<Surface>>>): set<Surface> {
    set i | 0 <= i < |es| && es[i].value.Some? :: es[i].value.value
  }

  /** After a call the cache holds no picture it did not hold before, except the one returned. */
  lemma AccessSurfaces(es: seq<Entry<Option<Surface>>>, key: string, load: Option<Surface>)
    ensures var (r, v) := Access(es, key, load);
            SurfacesOf(r) <= SurfacesOf(es) + (if v.Some? then {v.value} else {})
  {
    var (r, v) := Access(es, key, load);
    AccessSubset(es, key, load);
    forall s | s in SurfacesOf(r)
      ensures s in SurfacesOf(es) + (if v.Some? then {v.value} else {})
    {
      var i :| 0 <= i < |r| && r[i].value.Some? && r[i].value.value == s;
      assert r[i] in r;
      if r[i] in es {
        var j :| 0 <= j < |es| && es[j] == r[i];
      }
    }
  }

  /** The cache object: the decorated `load_image` with its stored results. */
  class Cache {
    var entries: seq<Entry<Option<Surface>>>

    predicate Valid()
      reads this
    {
      WellFormed(entries)
    }

    /** The pictures the cache holds; the slideshow changes their alpha in place. */
    function Surfaces(): set<Surface>
      reads this
    {
      SurfacesOf(entries)
    }

    constructor ()
      ensures Valid() && entries == []
    {
      entries := [];
    }

    /**
     * `load_image(path)` with the current screen size. On a miss the file is decoded (`decoded`
     * is what decoding it yields) and a new surface is made when loading succeeds; on a hit the
     * cached surface, or the cached `None`, is returned as it is.
     */
    method Get(path: string, decoded: Option<Decoded>, screen: Size) returns (img: Option<Surface>)
      requires Valid()
      modifies this
      ensures Valid()
      ensures (entries, img) == Access(old(entries), path, img)
      ensures Cached(old(entries), path) ==> img == old(entries)[Find(old(entries), path)].value
      ensures !Cached(old(entries), path) ==>
                && (img.Some? <==> LoadImage(decoded, screen).Some?)
                && (img.Some? ==> fresh(img.value) && img.value.size == LoadImage(decoded, screen).value
                                  && img.value.alpha == None)
      ensures img.Some? ==> img.value in Surfaces()
      ensures img.Some? ==> img.value in old(Surfaces()) || fresh(img.value)
      ensures Surfaces() <= old(Surfaces()) + (if img.Some? then {img.value} else {})
    {
      var i := Find(entries, path);
      if i >= 0 {
        img := entries[i].value;
        entries := Touch(entries, i);
        AccessHitKeeps(old(entries), path, img);
        assert old(entries)[i] in entries;
      } else {
        var loaded := LoadImage(decoded, screen);
        if loaded.Some? {
          var s := new Surface(loaded.value);
          img := Some(s);
        } else {
          img := None;
        }
        entries := Insert(entries, path, img);
      }
      AccessWellFormed(old(entries), path, img);
      AccessSurfaces(old(entries), path, img);
      assert entries[|entries| - 1] == Entry(path, img);
    }
  }
}
