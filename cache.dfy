/**
 * The template cache `templates_cache.json`: whether it is fresh enough to
 * use, what loading it does to the two template lists, what saving it writes,
 * and the start-up choice between the cache and a fresh `nuclei -tl`.
 * Times are whole seconds.
 */
module Cache {
  import opened Wrappers

  /** `cache_expiry_hours * 3600`. */
  const ExpiryHours: int := 24
  const ExpirySeconds: int := ExpiryHours * 3600

  /**
   * A JSON object read from the cache file. `timestamp` is `None` when the
   * key is missing or its value is not a usable ISO time; a list is `None`
   * when its key is missing.
   */
  datatype Contents = Contents(timestamp: Option<int>, templates: Option<seq<string>>, custom: Option<seq<string>>)

  /** The cache file as a read finds it. */
  datatype CacheFile =
    | Missing               // no file
    | Unreadable            // the file cannot be read, or is not a JSON object
    | Stored(contents: Contents)

  /**
   * `is_cache_valid`: the file exists, parses, and its timestamp is less than
   * 24 hours old.
   */
  predicate IsCacheValid(file: CacheFile, now: int) {
    file.Stored? && file.contents.timestamp.Some? && now - file.contents.timestamp.value < ExpirySeconds
  }

  /** What `load_templates_from_cache` did to `self.templates` and `self.custom_templates`. */
  datatype LoadOutcome =
    | ReadFailed                                               // lists untouched, returns False
    | TimestampFailed(templates: seq<string>, custom: seq<string>)  // lists overwritten, then returns False
    | Loaded(templates: seq<string>, custom: seq<string>)      // lists overwritten, returns True

  /**
   * `load_templates_from_cache`. Both lists are assigned (a missing key gives
   * `[]`) before the timestamp is parsed, so a bad timestamp leaves them
   * overwritten although the load reports failure. The load succeeds on
   * exactly the files that `is_cache_valid` accepts at some moment: the two
   * agree on everything but the age.
   */
  function LoadTemplatesFromCache(file: CacheFile): (r: LoadOutcome)
    ensures r.Loaded? <==> exists t :: IsCacheValid(file, t)
    ensures r.ReadFailed? <==> !file.Stored?
    ensures r.Loaded? <==> file.Stored? && file.contents.timestamp.Some?
    ensures !r.ReadFailed? ==>
              r.templates == file.contents.templates.GetOr([]) && r.custom == file.contents.custom.GetOr([])
  {
    assert file.Stored? && file.contents.timestamp.Some? ==> IsCacheValid(file, file.contents.timestamp.value);
    match file
    case Stored(c) =>
      var templates := c.templates.GetOr([]);
      var custom := c.custom.GetOr([]);
      if c.timestamp.None? then TimestampFailed(templates, custom) else Loaded(templates, custom)
    case _ => ReadFailed
  }

  /** How the write of `save_templates_to_cache` went. */
  datatype Write =
    | OpenFailed  // `open(..., 'w')` raised: the file was not touched
    | DumpFailed  // `json.dump` raised after `open` had truncated the file
    | Written

  /**
   * `save_templates_to_cache` at time `now`. A write that fails before the
   * file is opened leaves it as it was; one that fails during the dump
   * leaves an empty or cut-off JSON document, which no later read accepts.
   * A complete write stores a cache that is valid and loads both lists.
   */
  function SaveTemplatesToCache(file: CacheFile, write: Write, now: int,
                                templates: seq<string>, custom: seq<string>): (r: CacheFile)
    ensures write.OpenFailed? ==> r == file
    ensures write.DumpFailed? ==> LoadTemplatesFromCache(r) == ReadFailed && forall t :: !IsCacheValid(r, t)
    ensures write.Written? ==> IsCacheValid(r, now) && LoadTemplatesFromCache(r) == Loaded(templates, custom)
  {
    match write
    case OpenFailed => file
    case DumpFailed => Unreadable
    case Written => Stored(Contents(Some(now), Some(templates), Some(custom)))
  }

  /** How start-up fills the template lists. */
  datatype Startup =
    | FromCache(templates: seq<string>, custom: seq<string>)
    | Regenerate(overwritten: Option<(seq<string>, seq<string>)>)  // run `nuclei -tl`; the lists a failed load left behind

  /**
   * `load_template_list_from_cache`. The file is read twice, once by the
   * validity check and once by the load: `checked` and `loaded` are what
   * each read finds. When both find the same file, the cache is used
   * exactly when it is valid; lists overwritten by a failed load can only
   * be left behind when the file changed between the two reads.
   */
  function LoadTemplateListFromCache(checked: CacheFile, loaded: CacheFile, now: int): (r: Startup)
    ensures checked == loaded ==> (r.FromCache? <==> IsCacheValid(checked, now))
    ensures r.Regenerate? && r.overwritten.Some? ==> checked != loaded
    ensures r.FromCache? <==> IsCacheValid(checked, now) && loaded.Stored? && loaded.contents.timestamp.Some?
    ensures r.FromCache? ==>
              r.templates == loaded.contents.templates.GetOr([]) && r.custom == loaded.contents.custom.GetOr([])
  {
    if IsCacheValid(checked, now) then
      match LoadTemplatesFromCache(loaded)
      case Loaded(t, c) => FromCache(t, c)
      case TimestampFailed(t, c) => Regenerate(Some((t, c)))
      case ReadFailed => Regenerate(None)
    else Regenerate(None)
  }

  /**
   * When both reads find the same file, the cache is used exactly when it is
   * valid, it then supplies the stored lists, and a failed attempt never
   * leaves overwritten lists behind.
   */
  lemma StartupSameFile(file: CacheFile, now: int)
    ensures LoadTemplateListFromCache(file, file, now).FromCache? <==> IsCacheValid(file, now)
    ensures IsCacheValid(file, now) ==>
              LoadTemplateListFromCache(file, file, now)
              == FromCache(file.contents.templates.GetOr([]), file.contents.custom.GetOr([]))
    ensures !IsCacheValid(file, now) ==> LoadTemplateListFromCache(file, file, now) == Regenerate(None)
  {
  }

  /** An age of exactly 24 hours is already too old. */
  lemma ExpiresAtExactly24Hours(c: Contents, saved: int)
    requires c.timestamp == Some(saved)
    ensures !IsCacheValid(Stored(c), saved + 24 * 3600)
    ensures IsCacheValid(Stored(c), saved + 24 * 3600 - 1)
  {
  }

  /**
   * A cache that is valid now was valid at every earlier moment, including
   * moments before its own timestamp (a time in the future counts as fresh).
   */
  lemma ValidEarlier(file: CacheFile, earlier: int, now: int)
    requires earlier <= now && IsCacheValid(file, now)
    ensures IsCacheValid(file, earlier)
  {
  }

  /**
   * Saving then loading gives back the two lists, and the saved cache stays
   * valid for less than 24 hours after the save.
   */
  lemma SaveLoadRoundTrip(file: CacheFile, saved: int, later: int,
                                             templates: seq<string>, custom: seq<string>)
    ensures var f := SaveTemplatesToCache(file, Written, saved, templates, custom);
            && LoadTemplatesFromCache(f) == Loaded(templates, custom)
            && (IsCacheValid(f, later) <==> later - saved < ExpirySeconds)
  {
  }

  /**
   * A save that fails before opening keeps a valid cache usable at start-up;
   * one that fails during the dump destroys it, so start-up regenerates.
   */
  lemma SaveFailureAtStartup(file: CacheFile, saved: int, now: int,
                             templates: seq<string>, custom: seq<string>)
    requires IsCacheValid(file, now)
    ensures var kept := SaveTemplatesToCache(file, OpenFailed, saved, templates, custom);
            LoadTemplateListFromCache(kept, kept, now).FromCache?
    ensures var lost := SaveTemplatesToCache(file, DumpFailed, saved, templates, custom);
            LoadTemplateListFromCache(lost, lost, now) == Regenerate(None)
  {
  }

  /** The example of a cache saved one hour ago: valid, and the load returns the stored lists. */
  lemma OneHourOld(templates: seq<string>, custom: seq<string>, now: int)
    ensures var f := Stored(Contents(Some(now - 3600), Some(templates), Some(custom)));
            IsCacheValid(f, now) && LoadTemplateListFromCache(f, f, now) == FromCache(templates, custom)
  {
  }
}
