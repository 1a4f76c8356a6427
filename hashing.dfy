/**
 * One reference through the hasher (`hashifyUrl`): the memo-table lookup,
 * the file read, the hashed URL and the missing-file policy. The file
 * system is abstract: `join` stands for `path.join`, and `read` for opening
 * the file as a stream and digesting its bytes with MD5 (the lower-case hex
 * digest on success, or the error the stream reports).
 */
module Hashing {
  import opened Wrappers
  import opened Strings
  import opened Options
  import Scanner

  /** What reading a file yields: its hex digest, ENOENT, or any other error code. */
  datatype ReadOutcome = Digest(hex: string) | NotFound | Failed(code: string)

  datatype FileSystem = FileSystem(join: (string, string) -> string, read: string -> ReadOutcome)

  /** The two ways a hashing operation rejects. */
  datatype Error = MissingFile(message: string) | ReadError(code: string)

  /** One scanner match as `hashifyUrl` receives it: its span and groups 1 and 2. */
  datatype Reference = Reference(span: Scanner.Match, group1: string, group2: string)

  /** `{originalUrl, hashedUrl}`; `hashedUrl` is absent for a skipped missing file. */
  datatype HashResult = HashResult(originalUrl: string, hashedUrl: Option<string>)

  /** What one hashing operation yields, with the URL whose file it opened and the warning it logged. */
  datatype Hashed = Hashed(
    result: Result<HashResult, Error>,
    cache: map<string, string>,
    openedUrl: Option<string>,
    warning: Option<string>)

  /** The cache key and the URL written into the output: group 2 without spaces. */
  function Url(ref: Reference): (url: string)
    ensures ' ' !in url
  {
    StripSpaces(ref.group2)
  }

  /** `assetPath(url)`: the configured base directory joined with the URL. */
  function AssetPath(cfg: Config, fs: FileSystem, url: string): string
  {
    fs.join(cfg.assetsPath, url)
  }

  /** `url('<url>?v=<hex>')`. */
  function HashedUrl(url: string, hex: string): (r: string)
    ensures |r| == |url| + |hex| + 10
    ensures r[..5] == "url('" && r[|r| - 2..] == "')"
    ensures r[5..5 + |url|] == url && r[5 + |url|..8 + |url|] == "?v=" && r[8 + |url|..|r| - 2] == hex
  {
    "url('" + url + "?v=" + hex + "')"
  }

  function MissingMessage(url: string): (message: string)
    ensures |message| == |url| + 54
    ensures message[..5] == "File " && message[5..5 + |url|] == url
    ensures message[5 + |url|..] == " is referenced in a stylesheet but does not exist"
  {
    "File " + url + " is referenced in a stylesheet but does not exist"
  }

  /**
   * `hashifyUrl(match)` run to completion. A cached URL is answered from the
   * cache without opening its file. Otherwise the file is opened: a digest
   * gives the hashed URL, which is also cached; ENOENT gives a result without
   * a hashed URL (and a warning) when missing files are allowed and an error
   * otherwise; any other error is an error. Only a digest writes the cache.
   */
  function Hashify(ref: Reference, cache: map<string, string>, cfg: Config, fs: FileSystem): (h: Hashed)
    ensures forall k :: k in cache ==> k in h.cache && h.cache[k] == cache[k]
    ensures h.cache.Keys <= cache.Keys + {Url(ref)}
    ensures h.openedUrl.Some? <==> Url(ref) !in cache
    ensures h.openedUrl.Some? ==> h.openedUrl.value == Url(ref)
    ensures h.warning.Some? ==> cfg.allowMissingFiles && fs.read(AssetPath(cfg, fs, Url(ref))).NotFound?
    ensures h.result.Ok? ==> h.result.value.originalUrl == ref.group1
    ensures h.result.Ok? && h.result.value.hashedUrl.Some? ==>
      Url(ref) in h.cache && h.cache[Url(ref)] == h.result.value.hashedUrl.value
    ensures h.result.Ok? && h.result.value.hashedUrl.None? ==> h.cache == cache
    ensures h.result.Err? ==> h.cache == cache
  {
    var url := Url(ref);
    if url in cache then
      Hashed(Ok(HashResult(ref.group1, Some(cache[url]))), cache, None, None)
    else
      match fs.read(AssetPath(cfg, fs, url))
      case Digest(hex) =>
        var hashed := HashedUrl(url, hex);
        Hashed(Ok(HashResult(ref.group1, Some(hashed))), cache[url := hashed], Some(url), None)
      case NotFound =>
        if cfg.allowMissingFiles then
          Hashed(Ok(HashResult(ref.group1, None)), cache, Some(url), Some(MissingMessage(url)))
        else
          Hashed(Err(MissingFile(MissingMessage(url))), cache, Some(url), None)
      case Failed(code) =>
        Hashed(Err(ReadError(code)), cache, Some(url), None)
  }

  /**
   * The memo table is sound: every key is a stripped URL whose file has a
   * digest, and the cached value is that URL hashed with that digest.
   */
  ghost predicate CacheSound(cache: map<string, string>, cfg: Config, fs: FileSystem)
  {
    forall k :: k in cache ==>
      && ' ' !in k
      && fs.read(AssetPath(cfg, fs, k)).Digest?
      && cache[k] == HashedUrl(k, fs.read(AssetPath(cfg, fs, k)).hex)
  }

  /** A read outcome that rejects the whole rewrite under the configuration. */
  predicate IsFatal(outcome: ReadOutcome, allowMissingFiles: bool)
  {
    outcome.Failed? || (outcome.NotFound? && !allowMissingFiles)
  }

  /**
   * What hashing a reference yields when nothing is cached, stated by the
   * file's read outcome alone.
   */
  function Fresh(ref: Reference, cfg: Config, fs: FileSystem): Result<HashResult, Error>
  {
    match fs.read(AssetPath(cfg, fs, Url(ref)))
    case Digest(hex) => Ok(HashResult(ref.group1, Some(HashedUrl(Url(ref), hex))))
    case NotFound =>
      if cfg.allowMissingFiles then Ok(HashResult(ref.group1, None))
      else Err(MissingFile(MissingMessage(Url(ref))))
    case Failed(code) => Err(ReadError(code))
  }

  /** Hashing keeps the memo table sound. */
  lemma HashifyKeepsCacheSound(ref: Reference, cache: map<string, string>, cfg: Config, fs: FileSystem)
    requires CacheSound(cache, cfg, fs)
    ensures CacheSound(Hashify(ref, cache, cfg, fs).cache, cfg, fs)
  {
  }

  /**
   * With a sound memo table, a cache hit returns exactly what a fresh read
   * would: the memo table never changes a result.
   */
  lemma HashifyIsFresh(ref: Reference, cache: map<string, string>, cfg: Config, fs: FileSystem)
    requires CacheSound(cache, cfg, fs)
    ensures Hashify(ref, cache, cfg, fs).result == Fresh(ref, cfg, fs)
  {
  }

  /** The error policy: a fresh hashing fails exactly when its file read is fatal. */
  lemma FreshFailsIffFatal(ref: Reference, cfg: Config, fs: FileSystem)
    ensures Fresh(ref, cfg, fs).Err? <==> IsFatal(fs.read(AssetPath(cfg, fs, Url(ref))), cfg.allowMissingFiles)
  {
  }
}
