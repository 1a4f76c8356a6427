/**
 * The plugin's configuration (with the defaults it falls back on) and the
 * filter that decides which scanned references are sent to hashing.
 */
module Options {
  import opened Wrappers
  import opened Strings

  /** The extensions hashed when no `hashableExtensions` option is given. */
  const DefaultExtensions: seq<string> := ["png", "gif", "jpg", "jpeg", "svg", "woff", "woff2", "otf", "eot", "ttf"]

  /** The assets directory used when `assetsPath` is absent or empty. */
  const DefaultAssetsPath: string := "www"

  /** The options object as the caller passes it; `None` is an absent property. */
  datatype PluginOptions = PluginOptions(
    hashableExtensions: Option<seq<string>>,
    assetsPath: Option<string>,
    allowMissingFiles: Option<bool>)

  /** The configuration fixed when the plugin is created. */
  datatype Config = Config(hashableExtensions: seq<string>, assetsPath: string, allowMissingFiles: bool)

  /**
   * Resolving the options: an absent list means the default list (any list
   * given, even an empty one, is kept); an absent or empty `assetsPath` means
   * `www`; an absent `allowMissingFiles` means false.
   */
  function MakeConfig(opts: PluginOptions): (c: Config)
    ensures c.assetsPath != ""
    ensures opts.hashableExtensions.None? ==> c.hashableExtensions == DefaultExtensions
    ensures opts.hashableExtensions.Some? ==> c.hashableExtensions == opts.hashableExtensions.value
    ensures c.assetsPath == DefaultAssetsPath <==> opts.assetsPath.None? || opts.assetsPath.value in {"", DefaultAssetsPath}
    ensures opts.assetsPath.Some? && opts.assetsPath.value != "" ==> c.assetsPath == opts.assetsPath.value
    ensures c.allowMissingFiles <==> opts.allowMissingFiles == Some(true)
  {
    Config(
      match opts.hashableExtensions { case Some(exts) => exts case None => DefaultExtensions },
      match opts.assetsPath { case Some(p) => if p != "" then p else DefaultAssetsPath case None => DefaultAssetsPath },
      match opts.allowMissingFiles { case Some(b) => b case None => false })
  }

  /** With no options at all, every setting takes its default. */
  lemma DefaultConfig()
    ensures MakeConfig(PluginOptions(None, None, None)) == Config(DefaultExtensions, "www", false)
  {
  }

  /**
   * `url.substr(url.lastIndexOf('.') + 1).toLowerCase()`: the lower-cased text
   * after the last `.`, or the whole lower-cased URL when it has no `.`.
   */
  function Extension(url: string): (ext: string)
    ensures '.' !in ext
    ensures '.' !in url ==> ext == Lower(url)
    ensures '.' in url ==> exists k :: 0 <= k < |url| && url[k] == '.' && '.' !in url[k + 1..] && ext == Lower(url[k + 1..])
  {
    var k := LastIndexOf(url, '.');
    var ext := Lower(url[k + 1..]);
    assert '.' !in url[k + 1..];
    assert forall i :: 0 <= i < |ext| ==> ext[i] != '.';
    ext
  }

  /** The filter of the scan loop: not a data URI, not a fragment, and an allow-listed extension. */
  predicate Accepts(url: string, exts: seq<string>)
  {
    IndexOf(url, "data:") != 0 && IndexOf(url, "#") != 0 && Extension(url) in exts
  }

  /** The filter in prefix terms: both directions. */
  lemma AcceptsIff(url: string, exts: seq<string>)
    ensures Accepts(url, exts) <==> !("data:" <= url) && !("#" <= url) && Extension(url) in exts
  {
    IndexOfZeroIffPrefix(url, "data:");
    IndexOfZeroIffPrefix(url, "#");
  }

  /** A data URI is never hashed, whatever the allow-list holds. */
  lemma DataUriRejected(url: string, exts: seq<string>)
    requires "data:" <= url
    ensures !Accepts(url, exts)
  {
    IndexOfZeroIffPrefix(url, "data:");
  }

  /** An in-document fragment is never hashed, whatever the allow-list holds. */
  lemma FragmentRejected(url: string, exts: seq<string>)
    requires "#" <= url
    ensures !Accepts(url, exts)
  {
    IndexOfZeroIffPrefix(url, "#");
  }

  /** The extension test ignores the case of ASCII letters. */
  lemma ExtensionIgnoresCase(url: string)
    ensures Extension(Lower(url)) == Extension(url)
  {
    var k := LastIndexOf(url, '.');
    LowerKeepsLastDot(url);
    LowerSuffix(url, k + 1);
    LowerIdempotent(url[k + 1..]);
    calc {
      Extension(Lower(url));
      Lower(Lower(url)[k + 1..]);
      Lower(Lower(url[k + 1..]));
      Lower(url[k + 1..]);
      Extension(url);
    }
  }

  /** An upper-case extension from the default allow-list is hashed: `img/a.PNG` passes the default filter. */
  lemma UpperCaseExtensionAccepted(url: string)
    requires url == "img/a.PNG"
    ensures Accepts(url, DefaultExtensions)
  {
    assert url[5] == '.' && url[6] == 'P' && url[7] == 'N' && url[8] == 'G';
    LastIndexOfIs(url, '.', 5);
    var ext := Extension(url);
    assert ext == Lower(url[6..]);
    assert url[6..][0] == 'P' && url[6..][1] == 'N' && url[6..][2] == 'G';
    assert |ext| == 3 && ext[0] == 'p' && ext[1] == 'n' && ext[2] == 'g';
    ThreeChars(ext, "png");
    assert DefaultExtensions[0] == "png";
    NotPrefix(url, "data:");
    NotPrefix(url, "#");
  }

  /** A URL without a dot is judged by its whole text: `png` passes the default filter. */
  lemma DotlessUrlJudgedWhole()
    ensures Accepts("png", DefaultExtensions)
  {
    assert LastIndexOf("png", '.') == -1;
    var ext := Lower("png");
    assert ext[0] == 'p' && ext[1] == 'n' && ext[2] == 'g';
    assert ext == DefaultExtensions[0];
    NotPrefix("png", "data:");
    NotPrefix("png", "#");
  }

  lemma NotPrefix(url: string, p: string)
    requires |url| > 0 && |p| > 0 && url[0] != p[0]
    ensures IndexOf(url, p) != 0
  {
    IndexOfZeroIffPrefix(url, p);
  }
}
