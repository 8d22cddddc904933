/**
 * The table-of-contents configuration: whether a page shows a table of
 * contents, decided from per-directory settings by the same longest-prefix
 * rule as the sidebar (without the sidebar's special home key).
 */
module Toc {
  import opened Wrappers
  import opened Strings
  import opened PathPrefix

  /** The heading levels a table of contents covers; either may be left unset. */
  datatype TocConfig = TocConfig(minHeadingLevel: Option<int>, maxHeadingLevel: Option<int>)

  /** A directory's setting: `true` (default levels) or an explicit configuration. */
  datatype TocSetting = Enabled | Levels(config: TocConfig)

  /** The answer for a page: `false`, or the configuration to use. */
  datatype TocResult = Disabled | Config(config: TocConfig)

  /** `{}`: the configuration with no levels set. */
  const DefaultConfig := TocConfig(None, None)

  /** `setting === true ? {} : setting`. */
  function Resolve(setting: TocSetting): (c: TocConfig)
    ensures setting.Levels? ==> c == setting.config
    ensures setting.Enabled? ==> c == DefaultConfig
  {
    match setting
    case Enabled => DefaultConfig
    case Levels(config) => config
  }

  /** `tocEnabledDirectories`: the design handbook has a table of contents with default levels. */
  const TocEnabledDirectories: map<string, TocSetting> := map["/design-handbook" := Enabled]

  /** The answer for `pathname` under the directory settings `dirs`. */
  ghost function TocFor(dirs: map<string, TocSetting>, pathname: string): TocResult
  {
    var path := StripTrailingSlash(pathname);
    if path in dirs then Config(Resolve(dirs[path]))
    else
      var best := BestPrefix(dirs.Keys, path);
      if best != "" then Config(Resolve(dirs[best])) else Disabled
  }

  /**
   * `getTocConfigForPath`: drop one trailing slash, use the exact entry if
   * there is one, else the entry of the longest key the path starts with,
   * converting `true` to `{}`; with no such key, `false`. The entries are
   * visited in an unspecified order.
   */
  method GetTocConfigForPath(dirs: map<string, TocSetting>, pathname: string) returns (r: TocResult)
    ensures r == TocFor(dirs, pathname)
  {
    var path := StripTrailingSlash(pathname);
    if path in dirs {
      var config := dirs[path];
      return Config(if config == Enabled then DefaultConfig else config.config);
    }
    var bestMatch := "";
    var bestConfig: Option<TocSetting> := None;
    var remaining := dirs.Keys;
    ghost var seen: set<string> := {};
    while remaining != {}
      invariant remaining + seen == dirs.Keys
      invariant IsBest(seen, path, bestMatch)
      invariant bestMatch != "" ==> bestConfig == Some(dirs[bestMatch])
      decreases |remaining|
    {
      var key :| key in remaining;
      BestStep(seen, path, bestMatch, key);
      if StartsWith(path, key) && |key| > |bestMatch| {
        bestMatch := key;
        bestConfig := Some(dirs[key]);
      }
      remaining := remaining - {key};
      seen := seen + {key};
    }
    BestUnique(dirs.Keys, path, bestMatch, BestPrefix(dirs.Keys, path));
    if bestMatch != "" && bestConfig.Some? {
      var config := bestConfig.value;
      return Config(if config == Enabled then DefaultConfig else config.config);
    }
    r := Disabled;
  }

  /** A configured directory itself, with or without a trailing slash, gets its own setting resolved. */
  lemma TocExact(dirs: map<string, TocSetting>, pathname: string, key: string)
    requires key in dirs
    requires pathname == key + "/" || (pathname == key && !EndsWithSlash(key))
    ensures TocFor(dirs, pathname) == Config(Resolve(dirs[key]))
  {
    if pathname == key + "/" {
      assert StripTrailingSlash(pathname) == key;
    }
  }

  /**
   * Without an exact entry, the longest key the normalised path starts with
   * decides, matched by characters rather than path segments.
   */
  lemma TocLongestPrefix(dirs: map<string, TocSetting>, pathname: string, key: string)
    requires StripTrailingSlash(pathname) !in dirs
    requires key in dirs && key != ""
    requires StartsWith(StripTrailingSlash(pathname), key)
    requires forall k :: k in dirs && StartsWith(StripTrailingSlash(pathname), k) ==> |k| <= |key|
    ensures TocFor(dirs, pathname) == Config(Resolve(dirs[key]))
  {
    BestPrefixIs(dirs.Keys, StripTrailingSlash(pathname), key);
  }

  /** A page under no configured directory has no table of contents. */
  lemma TocNoPrefix(dirs: map<string, TocSetting>, pathname: string)
    requires forall k :: k in dirs && k != "" ==> !StartsWith(StripTrailingSlash(pathname), k)
    requires "" !in dirs || StripTrailingSlash(pathname) != ""
    ensures TocFor(dirs, pathname) == Disabled
  {
    var path := StripTrailingSlash(pathname);
    if path in dirs {
      assert StartsWith(path, path);
    }
    BestPrefixNone(dirs.Keys, path);
  }

  /** The answer is `false` only for pages under no configured directory. */
  lemma TocDisabledIffUnconfigured(dirs: map<string, TocSetting>, pathname: string)
    ensures TocFor(dirs, pathname) == Disabled <==>
      StripTrailingSlash(pathname) !in dirs && forall k :: !Candidate(dirs.Keys, StripTrailingSlash(pathname), k)
  {
    var path := StripTrailingSlash(pathname);
    if path !in dirs && BestPrefix(dirs.Keys, path) == "" {
      assert IsBest(dirs.Keys, path, "");
    }
  }

  /** A path without a trailing slash and the same path with one get the same answer. */
  lemma TocTrailingSlash(dirs: map<string, TocSetting>, p: string)
    requires !EndsWithSlash(p)
    ensures TocFor(dirs, p + "/") == TocFor(dirs, p)
  {
    assert StripTrailingSlash(p + "/") == p;
  }

  /** Every page of the design handbook gets the default table of contents. */
  lemma HandbookPages(rest: string)
    ensures TocFor(TocEnabledDirectories, "/design-handbook" + rest) == Config(DefaultConfig)
  {
    var pathname := "/design-handbook" + rest;
    var path := StripTrailingSlash(pathname);
    if path == "/design-handbook" {
    } else {
      assert pathname[..16] == "/design-handbook";
      assert |path| >= 16;
      assert path[..16] == "/design-handbook";
      TocLongestPrefix(TocEnabledDirectories, pathname, "/design-handbook");
    }
  }

  /** A page outside the design handbook has no table of contents. */
  lemma OtherPages(pathname: string)
    requires !StartsWith(StripTrailingSlash(pathname), "/design-handbook")
    ensures TocFor(TocEnabledDirectories, pathname) == Disabled
  {
    TocNoPrefix(TocEnabledDirectories, pathname);
  }
}
