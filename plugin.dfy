/**
 * The plugin instance that `gulpCSSHashes(options)` creates: its resolved
 * configuration, its memo table of hashed URLs shared by every stylesheet it
 * processes, and the two operations `hashifyUrl` and `replaceUrls` as
 * methods that update that table. The files opened and the warnings printed
 * are kept as logs so that the contracts can say which reads and which
 * console lines a call causes.
 */
module Plugin {
  import opened Wrappers
  import opened Strings
  import opened Options
  import opened Hashing
  import opened Rewrite
  import Scanner

  class CssHashes {
    /** The option defaults, resolved once when the plugin is created. */
    const config: Config
    /** The memo table from stripped URL to hashed URL. */
    var cache: map<string, string>
    /** The URLs whose files were opened, in order. */
    ghost var openedUrls: seq<string>
    /** The warnings printed to the console, in order. */
    var log: seq<string>

    /** `gulpCSSHashes(options)`: the defaults resolved, an empty memo table. */
    constructor(opts: PluginOptions)
      ensures config == MakeConfig(opts)
      ensures cache == map[] && openedUrls == [] && log == []
    {
      config := MakeConfig(opts);
      cache := map[];
      openedUrls := [];
      log := [];
    }

    /**
     * `hashifyUrl(match)` run to completion: a cache hit is answered without
     * opening a file; otherwise the file is opened, a digest is cached and
     * returned as the hashed URL, a missing file is skipped with a warning or
     * rejected, and any other read error is rejected.
     */
    method HashifyUrl(ref: Reference, fs: FileSystem) returns (r: Result<HashResult, Error>)
      modifies this
      ensures var h := Hashify(ref, old(cache), config, fs);
        r == h.result && cache == h.cache && openedUrls == old(openedUrls) + Entries(h.openedUrl) && log == old(log) + Entries(h.warning)
      ensures Url(ref) in old(cache) ==>
        r == Ok(HashResult(ref.group1, Some(old(cache)[Url(ref)]))) && unchanged(this)
      ensures Url(ref) !in old(cache) ==> openedUrls == old(openedUrls) + [Url(ref)]
      ensures Url(ref) !in old(cache) ==>
        match fs.read(AssetPath(config, fs, Url(ref)))
        case Digest(hex) =>
          var hashed := HashedUrl(Url(ref), hex);
          r == Ok(HashResult(ref.group1, Some(hashed))) && cache == old(cache)[Url(ref) := hashed] && log == old(log)
        case NotFound =>
          cache == old(cache) &&
          if config.allowMissingFiles then
            r == Ok(HashResult(ref.group1, None)) && log == old(log) + [MissingMessage(Url(ref))]
          else
            r == Err(MissingFile(MissingMessage(Url(ref)))) && log == old(log)
        case Failed(code) => r == Err(ReadError(code)) && cache == old(cache) && log == old(log)
    {
      var url := StripSpaces(ref.group2);
      if url in cache {
        r := Ok(HashResult(ref.group1, Some(cache[url])));
        return;
      }
      openedUrls := openedUrls + [url];
      match fs.read(AssetPath(config, fs, url))
      case Digest(hex) =>
        var hashed := HashedUrl(url, hex);
        cache := cache[url := hashed];
        r := Ok(HashResult(ref.group1, Some(hashed)));
      case NotFound =>
        var message := MissingMessage(url);
        if config.allowMissingFiles {
          log := log + [message];
          r := Ok(HashResult(ref.group1, None));
        } else {
          r := Err(MissingFile(message));
        }
      case Failed(code) =>
        r := Err(ReadError(code));
    }

    /**
     * The scan loop of `replaceUrls(css)`: `exec` from `lastIndex` 0 until
     * it finds nothing, hashing every accepted match in scan order.
     */
    method HashUrls(css: string, fs: FileSystem) returns (results: seq<Result<HashResult, Error>>)
      modifies this
      ensures Batch(results, cache, openedUrls, log) ==
        HashAll(References(css, config.hashableExtensions), Batch([], old(cache), old(openedUrls), old(log)), config, fs)
    {
      var exts := config.hashableExtensions;
      ghost var goal := HashAll(References(css, exts), Batch([], cache, openedUrls, log), config, fs);
      results := [];
      var lastIndex: nat := 0;
      var found := Scanner.Exec(css, lastIndex);
      while found.Some?
        invariant lastIndex <= |css|
        invariant found == Scanner.Exec(css, lastIndex)
        invariant HashAll(ReferencesFrom(css, lastIndex, exts), Batch(results, cache, openedUrls, log), config, fs) == goal
        decreases |css| - lastIndex
      {
        var m := found.value;
        var ref := RefOf(css, m);
        if Accepted(ref, exts) {
          HashAllFromAccepted(css, lastIndex, exts, Batch(results, cache, openedUrls, log), config, fs);
          var result := HashifyUrl(ref, fs);
          results := results + [result];
        } else {
          ReferencesFromRejected(css, lastIndex, exts);
        }
        lastIndex := m.end;
        found := Scanner.Exec(css, lastIndex);
      }
      ReferencesFromStep(css, lastIndex, exts);
    }

    /** The `then` callback of `replaceUrls`: each hashed URL replaces the first occurrence of its group 1. */
    method Substitute(css: string, hs: seq<HashResult>) returns (out: string)
      ensures out == FoldFirst(css, hs)
    {
      out := css;
      var i := 0;
      while i < |hs|
        invariant 0 <= i <= |hs|
        invariant FoldFirst(out, hs[i..]) == FoldFirst(css, hs)
      {
        assert hs[i..][1..] == hs[i + 1..];
        if hs[i].hashedUrl.Some? {
          out := ReplaceFirst(out, hs[i].originalUrl, hs[i].hashedUrl.value);
        }
        i := i + 1;
      }
    }

    /**
     * `replaceUrls(css)`: hash every accepted reference, then, when every
     * result resolves, substitute the hashed URLs; the first rejection in
     * scan order rejects the whole stylesheet. The memo table is sound while
     * the files do not change: then it stays sound, and the output is that
     * of a fresh plugin.
     */
    method ReplaceUrls(css: string, fs: FileSystem) returns (r: Result<string, Error>)
      modifies this
      ensures var o := Rewrite.Rewrite(css, old(cache), config, fs);
        r == o.output && cache == o.cache && openedUrls == old(openedUrls) + o.openedUrls && log == old(log) + o.warnings
      ensures forall k :: k in old(cache) ==> k in cache && cache[k] == old(cache)[k]
      ensures CacheSound(old(cache), config, fs) ==>
        CacheSound(cache, config, fs) && r == Rewrite.Rewrite(css, map[], config, fs).output
    {
      var results := HashUrls(css, fs);
      HashAllAfterLogs(References(css, config.hashableExtensions), Batch([], old(cache), [], []), old(openedUrls), old(log), config, fs);
      match Collect(results) {
        case Err(e) =>
          r := Err(e);
        case Ok(hs) =>
          var out := Substitute(css, hs);
          r := Ok(out);
      }
      if CacheSound(old(cache), config, fs) {
        RewriteIsFresh(css, old(cache), config, fs);
        RewriteCacheIndependent(css, old(cache), config, fs);
      }
    }
  }
}
