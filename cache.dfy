/**
 * The parse cache of `load_sections`: the module globals `SECTION_CACHE`
 * and `CACHE_MTIME`, held by one object, and the mtime rule that decides
 * when the store is parsed again.
 */
module Cache {
  import opened Opt
  import opened Parser

  class SectionCache {
    /** `SECTION_CACHE`: `None` until the first parse. */
    var cache: Option<seq<Section>>
    /** `CACHE_MTIME`: the modification time seen by the last parse. */
    var mtime: int

    /** The state at import time: `SECTION_CACHE = None`, `CACHE_MTIME = 0`. */
    constructor ()
      ensures cache == None && mtime == 0
    {
      cache := None;
      mtime := 0;
    }

    /**
     * `load_sections`. `stat` is what `os.path.getmtime` returns (`None` when
     * it raises `OSError`); `read` is the text of the file (`None` when
     * opening or reading it raises). The result is the list returned, or
     * `None` when that exception propagates to the caller.
     */
    method Load(stat: Option<int>, read: Option<string>) returns (r: Option<seq<Section>>)
      modifies this
      // The file cannot be stat'ed: an empty list, and the cache is left alone.
      ensures stat.None? ==> r == Some([]) && cache == old(cache) && mtime == old(mtime)
      // Same mtime as the cached parse: the cached sections, nothing re-read.
      ensures stat.Some? && old(cache).Some? && stat.value == old(mtime) ==>
                r == old(cache) && cache == old(cache) && mtime == old(mtime)
      // Otherwise the new mtime is recorded and the text is parsed afresh;
      // a failed read leaves the cache emptied under the new mtime.
      ensures stat.Some? && (old(cache).None? || stat.value != old(mtime)) ==>
                && mtime == stat.value
                && (read.Some? ==> cache == Some(Parse(read.value)) && r == cache)
                && (read.None? ==> cache == Some([]) && r == None)
    {
      if stat.None? {
        return Some([]);
      }
      var now := stat.value;
      if cache.None? || now != mtime {
        cache := Some([]);
        mtime := now;
        if read.None? {
          return None;
        }
        var parts := ScanParts(read.value);
        var secs := CollectSections(parts);
        cache := Some(secs);
      }
      r := cache;
    }
  }

  /**
   * Three requests against one fresh cache: the first parses `first`; the
   * second, under the same mtime, still serves `first` although the file now
   * holds `second`; the third, under a new mtime, parses `second`.
   */
  method StaleUntilMtimeChanges(first: string, second: string, t1: int, t2: int)
    returns (r1: Option<seq<Section>>, r2: Option<seq<Section>>, r3: Option<seq<Section>>)
    requires t1 != t2
    ensures r1 == Some(Parse(first)) && r2 == Some(Parse(first)) && r3 == Some(Parse(second))
  {
    var c := new SectionCache();
    r1 := c.Load(Some(t1), Some(first));
    r2 := c.Load(Some(t1), Some(second));
    r3 := c.Load(Some(t2), Some(second));
  }
}
