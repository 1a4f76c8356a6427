/**
 * The whole `replaceUrls` pass as a function of the stylesheet, the memo
 * table, the configuration and the file system: scan, filter, hash each
 * accepted reference in scan order, wait for all results (`when.all`), then
 * fold the hashed URLs into the text with first-occurrence replacement.
 */
module Rewrite {
  import opened Wrappers
  import opened Strings
  import opened Options
  import opened Hashing
  import Scanner

  /** Groups 1 and 2 of a match, as `exec` returns them. */
  function RefOf(text: string, m: Scanner.Match): Reference
    requires Scanner.Bounded(text, m)
  {
    Reference(m, Scanner.Group1(text, m), Scanner.Group2(text, m))
  }

  /**
   * The reference made from a match: its group 1 is `url(`, at most one
   * quote, its group 2, at most one quote and `)`, and that group 1 is the
   * text the match covers.
   */
  lemma RefOfShape(text: string, m: Scanner.Match)
    requires Scanner.WellFormed(text, m)
    ensures var ref := RefOf(text, m);
      && ref.span == m
      && ref.group1 == text[m.start..m.end]
      && ref.group1 == "url(" + Scanner.LeadingQuote(text, m) + ref.group2 + Scanner.TrailingQuote(text, m) + ")"
      && |Scanner.LeadingQuote(text, m)| <= 1 && |Scanner.TrailingQuote(text, m)| <= 1
      && ')' !in ref.group2
  {
    Scanner.WellFormedShape(text, m);
  }

  /** The matches among `ms` that pass the filter, in order. */
  function Filter(text: string, ms: seq<Scanner.Match>, keep: Reference -> bool): (refs: seq<Reference>)
    requires forall j :: 0 <= j < |ms| ==> Scanner.Bounded(text, ms[j])
    ensures |refs| <= |ms|
    ensures forall j :: 0 <= j < |refs| ==>
      Scanner.Bounded(text, refs[j].span) && refs[j] == RefOf(text, refs[j].span) && keep(refs[j])
  {
    if ms == [] then []
    else
      var ref := RefOf(text, ms[0]);
      var rest := Filter(text, ms[1..], keep);
      if keep(ref) then [ref] + rest else rest
  }

  /** Every reference sent to hashing comes from one of the matches. */
  lemma {:induction false} FilterFromMatches(text: string, ms: seq<Scanner.Match>, keep: Reference -> bool, j: nat)
    requires forall i :: 0 <= i < |ms| ==> Scanner.Bounded(text, ms[i])
    requires j < |Filter(text, ms, keep)|
    ensures exists i :: 0 <= i < |ms| && Filter(text, ms, keep)[j].span == ms[i]
    decreases |ms|
  {
    var refs := Filter(text, ms, keep);
    var rest := Filter(text, ms[1..], keep);
    if keep(RefOf(text, ms[0])) {
      if j > 0 {
        FilterFromMatches(text, ms[1..], keep, j - 1);
        var i :| 0 <= i < |ms[1..]| && rest[j - 1].span == ms[1..][i];
        assert refs[j] == rest[j - 1];
        assert ms[i + 1] == ms[1..][i];
      }
    } else {
      FilterFromMatches(text, ms[1..], keep, j);
      var i :| 0 <= i < |ms[1..]| && rest[j].span == ms[1..][i];
      assert ms[i + 1] == ms[1..][i];
    }
  }

  /** Every match that passes the filter is sent to hashing. */
  lemma {:induction false} FilterKeepsAccepted(text: string, ms: seq<Scanner.Match>, keep: Reference -> bool, i: nat)
    requires forall k :: 0 <= k < |ms| ==> Scanner.Bounded(text, ms[k])
    requires i < |ms| && keep(RefOf(text, ms[i]))
    ensures exists j :: 0 <= j < |Filter(text, ms, keep)| && Filter(text, ms, keep)[j] == RefOf(text, ms[i])
    decreases |ms|
  {
    var refs := Filter(text, ms, keep);
    var rest := Filter(text, ms[1..], keep);
    if i > 0 {
      assert ms[1..][i - 1] == ms[i];
      FilterKeepsAccepted(text, ms[1..], keep, i - 1);
      var j :| 0 <= j < |rest| && rest[j] == RefOf(text, ms[i]);
      if keep(RefOf(text, ms[0])) {
        assert refs[j + 1] == rest[j];
      } else {
        assert refs[j] == rest[j];
      }
    } else {
      assert refs[0] == RefOf(text, ms[0]);
    }
  }

  /** The references the scan loop sends to hashing once `lastIndex` is `from`. */
  function ReferencesFrom(css: string, from: nat, exts: seq<string>): (refs: seq<Reference>)
    requires from <= |css|
    ensures |refs| <= |Scanner.Scan(css, from)|
    ensures forall j :: 0 <= j < |refs| ==> Scanner.Bounded(css, refs[j].span) && refs[j] == RefOf(css, refs[j].span)
  {
    Filter(css, Scanner.Scan(css, from), ref => Accepted(ref, exts))
  }

  /** The references of a stylesheet that are sent to hashing. */
  function References(css: string, exts: seq<string>): (refs: seq<Reference>)
    ensures |refs| <= |Scanner.Scan(css, 0)|
  {
    ReferencesFrom(css, 0, exts)
  }

  /**
   * One turn of the scan loop: the match `exec` finds is sent to hashing
   * when it passes the filter, then scanning resumes at its end; when `exec`
   * finds nothing, nothing is left to send.
   */
  lemma ReferencesFromStep(css: string, from: nat, exts: seq<string>)
    requires from <= |css|
    ensures Scanner.Exec(css, from).None? ==> ReferencesFrom(css, from, exts) == []
    ensures Scanner.Exec(css, from).Some? ==>
      var m := Scanner.Exec(css, from).value;
      ReferencesFrom(css, from, exts) ==
        (if Accepted(RefOf(css, m), exts) then [RefOf(css, m)] else []) + ReferencesFrom(css, m.end, exts)
  {
    match Scanner.Exec(css, from)
    case None =>
    case Some(m) =>
      var ms := Scanner.Scan(css, from);
      assert ms == [m] + Scanner.Scan(css, m.end);
      assert ms[1..] == Scanner.Scan(css, m.end);
  }

  /** A turn of the scan loop that sends its match to hashing. */
  lemma HashAllFromAccepted(css: string, from: nat, exts: seq<string>, b: Batch, cfg: Config, fs: FileSystem)
    requires from <= |css| && Scanner.Exec(css, from).Some?
    requires Accepts(StripSpaces(Scanner.Group2(css, Scanner.Exec(css, from).value)), exts)
    ensures var m := Scanner.Exec(css, from).value;
      HashAll(ReferencesFrom(css, from, exts), b, cfg, fs) ==
      HashAll(ReferencesFrom(css, m.end, exts), Step(b, RefOf(css, m), cfg, fs), cfg, fs)
  {
    var m := Scanner.Exec(css, from).value;
    ReferencesFromStep(css, from, exts);
    HashAllCons(RefOf(css, m), ReferencesFrom(css, m.end, exts), b, cfg, fs);
  }

  /** A turn of the scan loop that skips its match. */
  lemma ReferencesFromRejected(css: string, from: nat, exts: seq<string>)
    requires from <= |css| && Scanner.Exec(css, from).Some?
    requires !Accepts(StripSpaces(Scanner.Group2(css, Scanner.Exec(css, from).value)), exts)
    ensures ReferencesFrom(css, from, exts) == ReferencesFrom(css, Scanner.Exec(css, from).value.end, exts)
  {
    ReferencesFromStep(css, from, exts);
  }

  /** Logs kept from earlier calls are carried along in front of the new entries. */
  lemma {:induction false} HashAllAfterLogs(refs: seq<Reference>, b: Batch, earlierOpened: seq<string>, earlierWarnings: seq<string>, cfg: Config, fs: FileSystem)
    ensures var r := HashAll(refs, b, cfg, fs);
      HashAll(refs, Batch(b.results, b.cache, earlierOpened + b.openedUrls, earlierWarnings + b.warnings), cfg, fs) ==
      Batch(r.results, r.cache, earlierOpened + r.openedUrls, earlierWarnings + r.warnings)
    decreases |refs|
  {
    if refs != [] {
      var b' := Step(b, refs[0], cfg, fs);
      HashAllAfterLogs(refs[1..], b', earlierOpened, earlierWarnings, cfg, fs);
      var h := Hashify(refs[0], b.cache, cfg, fs);
      assert earlierOpened + b.openedUrls + Entries(h.openedUrl) == earlierOpened + (b.openedUrls + Entries(h.openedUrl));
      assert earlierWarnings + b.warnings + Entries(h.warning) == earlierWarnings + (b.warnings + Entries(h.warning));
    }
  }

  /** Hashing one more reference first. */
  lemma HashAllCons(ref: Reference, refs: seq<Reference>, b: Batch, cfg: Config, fs: FileSystem)
    ensures HashAll([ref] + refs, b, cfg, fs) == HashAll(refs, Step(b, ref, cfg, fs), cfg, fs)
  {
    assert ([ref] + refs)[1..] == refs;
  }

  /** The test of the scan loop, on a reference. */
  predicate Accepted(ref: Reference, exts: seq<string>)
  {
    Accepts(Url(ref), exts)
  }

  /** The state threaded through the hashing of one stylesheet. */
  datatype Batch = Batch(
    results: seq<Result<HashResult, Error>>,
    cache: map<string, string>,
    openedUrls: seq<string>,
    warnings: seq<string>)

  /** The log entry one call adds, if any. */
  function Entries(o: Option<string>): seq<string>
  {
    match o { case Some(x) => [x] case None => [] }
  }

  /** One more `hashifyUrl` call. */
  function Step(b: Batch, ref: Reference, cfg: Config, fs: FileSystem): (r: Batch)
    ensures |r.results| == |b.results| + 1 && r.results[..|b.results|] == b.results
    ensures r.openedUrls == b.openedUrls + (if Url(ref) in b.cache then [] else [Url(ref)])
    ensures forall k :: k in b.cache ==> k in r.cache && r.cache[k] == b.cache[k]
    ensures |r.warnings| <= |b.warnings| + 1
  {
    var h := Hashify(ref, b.cache, cfg, fs);
    Batch(b.results + [h.result], h.cache, b.openedUrls + Entries(h.openedUrl), b.warnings + Entries(h.warning))
  }

  /** Hashing every reference in scan order, sharing one memo table. */
  function HashAll(refs: seq<Reference>, b: Batch, cfg: Config, fs: FileSystem): (r: Batch)
    ensures |r.results| == |b.results| + |refs| && r.results[..|b.results|] == b.results
    ensures forall k :: k in b.cache ==> k in r.cache && r.cache[k] == b.cache[k]
    ensures |r.openedUrls| >= |b.openedUrls| && r.openedUrls[..|b.openedUrls|] == b.openedUrls
    ensures |r.warnings| >= |b.warnings| && r.warnings[..|b.warnings|] == b.warnings
    decreases |refs|
  {
    if refs == [] then b
    else
      var b' := Step(b, refs[0], cfg, fs);
      var r := HashAll(refs[1..], b', cfg, fs);
      assert r.results[..|b.results|] == b'.results[..|b.results|];
      assert r.openedUrls[..|b.openedUrls|] == b'.openedUrls[..|b.openedUrls|];
      assert r.warnings[..|b.warnings|] == b'.warnings[..|b.warnings|];
      r
  }

  /** One `hashifyUrl` call with a sound memo table. */
  lemma StepSound(b: Batch, ref: Reference, cfg: Config, fs: FileSystem)
    requires CacheSound(b.cache, cfg, fs)
    ensures CacheSound(Step(b, ref, cfg, fs).cache, cfg, fs)
    ensures Step(b, ref, cfg, fs).results == b.results + [Fresh(ref, cfg, fs)]
    ensures Step(b, ref, cfg, fs).cache.Keys ==
      b.cache.Keys + (if fs.read(AssetPath(cfg, fs, Url(ref))).Digest? then {Url(ref)} else {})
  {
    HashifyKeepsCacheSound(ref, b.cache, cfg, fs);
    HashifyIsFresh(ref, b.cache, cfg, fs);
  }

  /** The results of hashing every reference afresh, one read each. */
  function FreshAll(refs: seq<Reference>, cfg: Config, fs: FileSystem): (rs: seq<Result<HashResult, Error>>)
    ensures |rs| == |refs|
    ensures forall j :: 0 <= j < |refs| ==> rs[j] == Fresh(refs[j], cfg, fs)
  {
    if refs == [] then []
    else
      var rest := FreshAll(refs[1..], cfg, fs);
      assert forall j :: 0 < j < |refs| ==> refs[j] == refs[1..][j - 1];
      [Fresh(refs[0], cfg, fs)] + rest
  }

  /**
   * With a sound memo table, the results are those of hashing every
   * reference afresh, and the memo table stays sound.
   */
  lemma {:induction false} HashAllFresh(refs: seq<Reference>, b: Batch, cfg: Config, fs: FileSystem)
    requires CacheSound(b.cache, cfg, fs)
    ensures CacheSound(HashAll(refs, b, cfg, fs).cache, cfg, fs)
    ensures HashAll(refs, b, cfg, fs).results == b.results + FreshAll(refs, cfg, fs)
    decreases |refs|
  {
    if refs != [] {
      var b' := Step(b, refs[0], cfg, fs);
      StepSound(b, refs[0], cfg, fs);
      HashAllFresh(refs[1..], b', cfg, fs);
      assert HashAll(refs, b, cfg, fs) == HashAll(refs[1..], b', cfg, fs);
      assert b.results + [Fresh(refs[0], cfg, fs)] + FreshAll(refs[1..], cfg, fs) == b.results + FreshAll(refs, cfg, fs);
    }
  }

  /** The URLs whose files hold a digest, among those of `refs`. */
  ghost function DigestedUrls(refs: seq<Reference>, cfg: Config, fs: FileSystem): set<string>
  {
    set j | 0 <= j < |refs| && fs.read(AssetPath(cfg, fs, Url(refs[j]))).Digest? :: Url(refs[j])
  }

  lemma DigestedUrlsCons(refs: seq<Reference>, cfg: Config, fs: FileSystem)
    requires refs != []
    ensures DigestedUrls(refs, cfg, fs) ==
      (if fs.read(AssetPath(cfg, fs, Url(refs[0]))).Digest? then {Url(refs[0])} else {}) + DigestedUrls(refs[1..], cfg, fs)
  {
    forall u | u in DigestedUrls(refs, cfg, fs)
      ensures u in DigestedUrls(refs[1..], cfg, fs) || u == Url(refs[0])
    {
      var j :| 0 <= j < |refs| && fs.read(AssetPath(cfg, fs, Url(refs[j]))).Digest? && u == Url(refs[j]);
      if j > 0 {
        assert refs[1..][j - 1] == refs[j];
      }
    }
    forall u | u in DigestedUrls(refs[1..], cfg, fs) ensures u in DigestedUrls(refs, cfg, fs) {
      var j :| 0 <= j < |refs[1..]| && fs.read(AssetPath(cfg, fs, Url(refs[1..][j]))).Digest? && u == Url(refs[1..][j]);
      assert refs[1..][j] == refs[j + 1];
    }
  }

  /**
   * With a sound memo table, hashing adds exactly the URLs whose files have a
   * digest: missing and unreadable files are never cached.
   */
  lemma {:induction false} HashAllCacheKeys(refs: seq<Reference>, b: Batch, cfg: Config, fs: FileSystem)
    requires CacheSound(b.cache, cfg, fs)
    ensures HashAll(refs, b, cfg, fs).cache.Keys == b.cache.Keys + DigestedUrls(refs, cfg, fs)
    decreases |refs|
  {
    if refs != [] {
      var b' := Step(b, refs[0], cfg, fs);
      StepSound(b, refs[0], cfg, fs);
      HashAllCacheKeys(refs[1..], b', cfg, fs);
      DigestedUrlsCons(refs, cfg, fs);
      assert HashAll(refs, b, cfg, fs) == HashAll(refs[1..], b', cfg, fs);
    }
  }

  /**
   * Only files of the hashed references are opened, and never one whose URL
   * was already in the memo table when hashing began.
   */
  lemma {:induction false} HashAllOpens(refs: seq<Reference>, b: Batch, cfg: Config, fs: FileSystem, i: nat)
    requires |b.openedUrls| <= i < |HashAll(refs, b, cfg, fs).openedUrls|
    ensures HashAll(refs, b, cfg, fs).openedUrls[i] !in b.cache
    ensures exists j :: 0 <= j < |refs| && Url(refs[j]) == HashAll(refs, b, cfg, fs).openedUrls[i]
    decreases |refs|
  {
    var b' := Step(b, refs[0], cfg, fs);
    var h := Hashify(refs[0], b.cache, cfg, fs);
    var r := HashAll(refs, b, cfg, fs);
    assert r == HashAll(refs[1..], b', cfg, fs);
    if i < |b'.openedUrls| {
      assert r.openedUrls[i] == b'.openedUrls[i];
      assert b'.openedUrls[i] == Url(refs[0]);
    } else {
      HashAllOpens(refs[1..], b', cfg, fs, i);
      var j :| 0 <= j < |refs[1..]| && Url(refs[1..][j]) == r.openedUrls[i];
      assert refs[1..][j] == refs[j + 1];
    }
  }

  /**
   * Every warning names the URL of a hashed reference whose file is missing,
   * and is only logged when missing files are allowed.
   */
  lemma {:induction false} HashAllWarns(refs: seq<Reference>, b: Batch, cfg: Config, fs: FileSystem, i: nat)
    requires |b.warnings| <= i < |HashAll(refs, b, cfg, fs).warnings|
    ensures cfg.allowMissingFiles
    ensures exists j :: 0 <= j < |refs| && fs.read(AssetPath(cfg, fs, Url(refs[j]))).NotFound? &&
                        HashAll(refs, b, cfg, fs).warnings[i] == MissingMessage(Url(refs[j]))
    decreases |refs|
  {
    var b' := Step(b, refs[0], cfg, fs);
    var r := HashAll(refs, b, cfg, fs);
    assert r == HashAll(refs[1..], b', cfg, fs);
    if i < |b'.warnings| {
      assert r.warnings[i] == b'.warnings[i];
    } else {
      HashAllWarns(refs[1..], b', cfg, fs, i);
      var j :| 0 <= j < |refs[1..]| && fs.read(AssetPath(cfg, fs, Url(refs[1..][j]))).NotFound? &&
               r.warnings[i] == MissingMessage(Url(refs[1..][j]));
      assert refs[1..][j] == refs[j + 1];
    }
  }

  /** `when.all`: the first rejection in scan order, or every resolved value. */
  function Collect(results: seq<Result<HashResult, Error>>): (r: Result<seq<HashResult>, Error>)
    ensures r.Err? <==> exists j :: 0 <= j < |results| && results[j].Err?
    ensures r.Err? ==> exists j :: 0 <= j < |results| && results[j] == Err(r.error) &&
                                   forall i :: 0 <= i < j ==> results[i].Ok?
    ensures r.Ok? ==> |r.value| == |results| && forall j :: 0 <= j < |results| ==> results[j] == Ok(r.value[j])
  {
    if results == [] then Ok([])
    else
      match results[0]
      case Err(e) => Err(e)
      case Ok(v) =>
        match Collect(results[1..])
        case Err(e) =>
          assert forall j :: 0 < j < |results| ==> results[j] == results[1..][j - 1];
          Err(e)
        case Ok(vs) =>
          assert forall j :: 0 < j < |results| ==> results[j] == results[1..][j - 1];
          Ok([v] + vs)
  }

  /** `css = css.replace(result.originalUrl, result.hashedUrl)` when there is a hashed URL. */
  function Apply(css: string, h: HashResult): (r: string)
    ensures h.hashedUrl.None? || IndexOf(css, h.originalUrl) < 0 ==> r == css
    ensures h.hashedUrl.Some? && IndexOf(css, h.originalUrl) >= 0 ==>
      var i := IndexOf(css, h.originalUrl);
      r == css[..i] + h.hashedUrl.value + css[i + |h.originalUrl|..]
    ensures forall c :: c in r ==> c in css || (h.hashedUrl.Some? && c in h.hashedUrl.value)
  {
    match h.hashedUrl
    case Some(hashed) =>
      var r := ReplaceFirst(css, h.originalUrl, hashed);
      var i := IndexOf(css, h.originalUrl);
      if i >= 0 then
        assert r == r[..i] + r[i..i + |hashed|] + r[i + |hashed|..];
        r
      else r
    case None => css
  }

  /** The substitution fold, in result order. */
  function FoldFirst(css: string, hs: seq<HashResult>): (r: string)
    ensures forall c :: c in r ==> c in css || exists j :: 0 <= j < |hs| && hs[j].hashedUrl.Some? && c in hs[j].hashedUrl.value
    decreases |hs|
  {
    if hs == [] then css
    else
      var r := FoldFirst(Apply(css, hs[0]), hs[1..]);
      assert forall j :: 0 <= j < |hs[1..]| ==> hs[1..][j] == hs[j + 1];
      r
  }

  /** The results that carry a hashed URL, in order. */
  function OnlyHashed(hs: seq<HashResult>): (r: seq<HashResult>)
    ensures forall j :: 0 <= j < |r| ==> r[j].hashedUrl.Some?
  {
    if hs == [] then []
    else (if hs[0].hashedUrl.Some? then [hs[0]] else []) + OnlyHashed(hs[1..])
  }

  /** Results without a hashed URL leave the text as it is: the fold only sees the hashed ones. */
  lemma {:induction false} FoldSkipsUnhashed(css: string, hs: seq<HashResult>)
    ensures FoldFirst(css, hs) == FoldFirst(css, OnlyHashed(hs))
    decreases |hs|
  {
    if hs != [] {
      if hs[0].hashedUrl.Some? {
        FoldSkipsUnhashed(Apply(css, hs[0]), hs[1..]);
        assert ([hs[0]] + OnlyHashed(hs[1..]))[1..] == OnlyHashed(hs[1..]);
      } else {
        FoldSkipsUnhashed(css, hs[1..]);
        assert OnlyHashed(hs) == OnlyHashed(hs[1..]);
      }
    }
  }

  /** When no result carries a hashed URL, the fold returns the text unchanged. */
  lemma {:induction false} FoldNothingHashed(css: string, hs: seq<HashResult>)
    requires forall j :: 0 <= j < |hs| ==> hs[j].hashedUrl.None?
    ensures FoldFirst(css, hs) == css
    decreases |hs|
  {
    if hs != [] {
      FoldNothingHashed(css, hs[1..]);
    }
  }

  /** The outcome of one `replaceUrls` call. */
  datatype Outcome = Outcome(
    output: Result<string, Error>,
    cache: map<string, string>,
    openedUrls: seq<string>,
    warnings: seq<string>)

  function Finish(css: string, results: seq<Result<HashResult, Error>>): (r: Result<string, Error>)
    ensures r.Err? <==> exists j :: 0 <= j < |results| && results[j].Err?
    ensures r.Err? ==> exists j :: 0 <= j < |results| && results[j] == Err(r.error) &&
                                   forall i :: 0 <= i < j ==> results[i].Ok?
  {
    match Collect(results)
    case Err(e) => Err(e)
    case Ok(hs) => Ok(FoldFirst(css, hs))
  }

  /** `replaceUrls(css)` with the memo table `cache`. */
  function Rewrite(css: string, cache: map<string, string>, cfg: Config, fs: FileSystem): (r: Outcome)
    ensures forall k :: k in cache ==> k in r.cache && r.cache[k] == cache[k]
  {
    var b := HashAll(References(css, cfg.hashableExtensions), Batch([], cache, [], []), cfg, fs);
    Outcome(Finish(css, b.results), b.cache, b.openedUrls, b.warnings)
  }

  /** A scanned match is sent to hashing exactly when its URL passes the filter. */
  lemma ReferencesIff(css: string, exts: seq<string>, k: nat)
    requires k < |Scanner.Scan(css, 0)|
    ensures (exists j :: 0 <= j < |References(css, exts)| && References(css, exts)[j] == RefOf(css, Scanner.Scan(css, 0)[k])) <==>
      Accepted(RefOf(css, Scanner.Scan(css, 0)[k]), exts)
  {
    var ms := Scanner.Scan(css, 0);
    var keep := ref => Accepted(ref, exts);
    var refs := Filter(css, ms, keep);
    var ref := RefOf(css, ms[k]);
    assert refs == References(css, exts);
    if keep(ref) {
      FilterKeepsAccepted(css, ms, keep, k);
    } else {
      forall j | 0 <= j < |refs| ensures refs[j] != ref {
        assert keep(refs[j]);
      }
    }
  }

  /** Every reference sent to hashing is a scanned match whose URL passes the filter. */
  lemma ReferencesScanned(css: string, exts: seq<string>, j: nat)
    requires j < |References(css, exts)|
    ensures Accepted(References(css, exts)[j], exts)
    ensures exists k :: 0 <= k < |Scanner.Scan(css, 0)| && References(css, exts)[j] == RefOf(css, Scanner.Scan(css, 0)[k])
  {
    var ms := Scanner.Scan(css, 0);
    FilterFromMatches(css, ms, ref => Accepted(ref, exts), j);
  }

  /**
   * With a sound memo table, `replaceUrls` yields what hashing every
   * reference afresh yields, and its memo table gains exactly the URLs of
   * the references whose files have a digest, staying sound.
   */
  lemma RewriteIsFresh(css: string, cache: map<string, string>, cfg: Config, fs: FileSystem)
    requires CacheSound(cache, cfg, fs)
    ensures var refs := References(css, cfg.hashableExtensions);
      && Rewrite(css, cache, cfg, fs).output == Finish(css, FreshAll(refs, cfg, fs))
      && CacheSound(Rewrite(css, cache, cfg, fs).cache, cfg, fs)
      && Rewrite(css, cache, cfg, fs).cache.Keys == cache.Keys + DigestedUrls(refs, cfg, fs)
  {
    var refs := References(css, cfg.hashableExtensions);
    HashAllFresh(refs, Batch([], cache, [], []), cfg, fs);
    HashAllCacheKeys(refs, Batch([], cache, [], []), cfg, fs);
  }

  /** The memo table never changes what `replaceUrls` returns. */
  lemma RewriteCacheIndependent(css: string, cache: map<string, string>, cfg: Config, fs: FileSystem)
    requires CacheSound(cache, cfg, fs)
    ensures Rewrite(css, cache, cfg, fs).output == Rewrite(css, map[], cfg, fs).output
  {
    RewriteIsFresh(css, cache, cfg, fs);
    RewriteIsFresh(css, map[], cfg, fs);
  }

  /**
   * `replaceUrls` rejects exactly when some reference sent to hashing has an
   * unreadable file, or a missing one while missing files are not allowed.
   */
  lemma RewriteFailsIffFatal(css: string, cache: map<string, string>, cfg: Config, fs: FileSystem)
    requires CacheSound(cache, cfg, fs)
    ensures var refs := References(css, cfg.hashableExtensions);
      Rewrite(css, cache, cfg, fs).output.Err? <==>
      exists j :: 0 <= j < |refs| && IsFatal(fs.read(AssetPath(cfg, fs, Url(refs[j]))), cfg.allowMissingFiles)
  {
    var refs := References(css, cfg.hashableExtensions);
    RewriteIsFresh(css, cache, cfg, fs);
    assert Rewrite(css, cache, cfg, fs).output.Err? <==> Collect(FreshAll(refs, cfg, fs)).Err?;
    FreshAllFailsIffFatal(refs, cfg, fs);
  }

  /** `when.all` over fresh results fails exactly when some reference is fatal. */
  lemma FreshAllFailsIffFatal(refs: seq<Reference>, cfg: Config, fs: FileSystem)
    ensures Collect(FreshAll(refs, cfg, fs)).Err? <==>
      exists j :: 0 <= j < |refs| && IsFatal(fs.read(AssetPath(cfg, fs, Url(refs[j]))), cfg.allowMissingFiles)
  {
    var rs := FreshAll(refs, cfg, fs);
    if Collect(rs).Err? {
      var j :| 0 <= j < |rs| && rs[j].Err?;
      FreshFailsIffFatal(refs[j], cfg, fs);
    }
    if j :| 0 <= j < |refs| && IsFatal(fs.read(AssetPath(cfg, fs, Url(refs[j]))), cfg.allowMissingFiles) {
      FreshFailsIffFatal(refs[j], cfg, fs);
      assert rs[j].Err?;
    }
  }

  /** When hashing afresh fails, the rejection is that of the first fatal reference. */
  lemma FreshAllFirstError(refs: seq<Reference>, cfg: Config, fs: FileSystem)
    requires Collect(FreshAll(refs, cfg, fs)).Err?
    ensures exists j :: (0 <= j < |refs| && Fresh(refs[j], cfg, fs) == Err(Collect(FreshAll(refs, cfg, fs)).error) &&
                         forall i :: 0 <= i < j ==> !IsFatal(fs.read(AssetPath(cfg, fs, Url(refs[i]))), cfg.allowMissingFiles))
  {
    var rs := FreshAll(refs, cfg, fs);
    var j :| 0 <= j < |rs| && rs[j] == Err(Collect(rs).error) && forall i :: 0 <= i < j ==> rs[i].Ok?;
    forall i | 0 <= i < j
      ensures !IsFatal(fs.read(AssetPath(cfg, fs, Url(refs[i]))), cfg.allowMissingFiles)
    {
      FreshFailsIffFatal(refs[i], cfg, fs);
    }
  }

  /** The first-error property of `FreshAllFirstError`, for a given error `e`. */
  lemma FreshAllErrorIs(refs: seq<Reference>, e: Error, cfg: Config, fs: FileSystem)
    requires Collect(FreshAll(refs, cfg, fs)).Err? && Collect(FreshAll(refs, cfg, fs)).error == e
    ensures exists j :: (0 <= j < |refs| && Fresh(refs[j], cfg, fs) == Err(e) &&
                         forall i :: 0 <= i < j ==> !IsFatal(fs.read(AssetPath(cfg, fs, Url(refs[i]))), cfg.allowMissingFiles))
  {
    FreshAllFirstError(refs, cfg, fs);
  }

  /** With a sound memo table, a rejected pass rejects with the error `when.all` gives on the fresh results. */
  lemma RewriteFailsLikeFresh(css: string, cache: map<string, string>, cfg: Config, fs: FileSystem)
    requires CacheSound(cache, cfg, fs)
    requires Rewrite(css, cache, cfg, fs).output.Err?
    ensures var rs := FreshAll(References(css, cfg.hashableExtensions), cfg, fs);
      Collect(rs).Err? && Rewrite(css, cache, cfg, fs).output.error == Collect(rs).error
  {
    RewriteIsFresh(css, cache, cfg, fs);
  }

  /** The rejection reported is that of the first fatal reference in scan order. */
  lemma RewriteFirstError(css: string, cache: map<string, string>, cfg: Config, fs: FileSystem)
    requires CacheSound(cache, cfg, fs)
    requires Rewrite(css, cache, cfg, fs).output.Err?
    ensures var refs := References(css, cfg.hashableExtensions);
      exists j :: 0 <= j < |refs| && Fresh(refs[j], cfg, fs) == Err(Rewrite(css, cache, cfg, fs).output.error) &&
        forall i :: 0 <= i < j ==> !IsFatal(fs.read(AssetPath(cfg, fs, Url(refs[i]))), cfg.allowMissingFiles)
  {
    RewriteFailsLikeFresh(css, cache, cfg, fs);
    FreshAllErrorIs(References(css, cfg.hashableExtensions), Rewrite(css, cache, cfg, fs).output.error, cfg, fs);
  }

  /**
   * On success the output is the stylesheet with each reference's fresh
   * result substituted in scan order.
   */
  lemma RewriteSucceeds(css: string, cache: map<string, string>, cfg: Config, fs: FileSystem)
    requires CacheSound(cache, cfg, fs)
    requires Rewrite(css, cache, cfg, fs).output.Ok?
    ensures var refs := References(css, cfg.hashableExtensions);
      exists hs: seq<HashResult> :: |hs| == |refs| &&
        (forall j :: 0 <= j < |refs| ==> Fresh(refs[j], cfg, fs) == Ok(hs[j])) &&
        Rewrite(css, cache, cfg, fs).output.value == FoldFirst(css, hs)
  {
    var refs := References(css, cfg.hashableExtensions);
    RewriteIsFresh(css, cache, cfg, fs);
    var hs := Collect(FreshAll(refs, cfg, fs)).value;
    assert forall j :: 0 <= j < |refs| ==> Fresh(refs[j], cfg, fs) == Ok(hs[j]);
  }

  /** Without any reference to hash, nothing is read, logged or cached, and the text is returned as it is. */
  lemma RewriteNoReferences(css: string, cache: map<string, string>, cfg: Config, fs: FileSystem)
    requires References(css, cfg.hashableExtensions) == []
    ensures Rewrite(css, cache, cfg, fs) == Outcome(Ok(css), cache, [], [])
  {
  }

  /** A stylesheet without any `url(` comes back unchanged. */
  lemma RewriteWithoutUrl(css: string, cache: map<string, string>, cfg: Config, fs: FileSystem)
    requires forall i :: !OccursAt(css, "url(", i)
    ensures Rewrite(css, cache, cfg, fs) == Outcome(Ok(css), cache, [], [])
  {
    var ms := Scanner.Scan(css, 0);
    if ms != [] {
      Scanner.ScanAtUrl(css, 0);
      assert false;
    }
    RewriteNoReferences(css, cache, cfg, fs);
  }

  /**
   * The files opened are those of scanned references whose URL passes the
   * filter, and never one whose URL was in the memo table.
   */
  lemma RewriteOpensOnlyAccepted(css: string, cache: map<string, string>, cfg: Config, fs: FileSystem, i: nat)
    requires i < |Rewrite(css, cache, cfg, fs).openedUrls|
    ensures var u := Rewrite(css, cache, cfg, fs).openedUrls[i];
      && u !in cache
      && Accepts(u, cfg.hashableExtensions)
      && exists k :: 0 <= k < |Scanner.Scan(css, 0)| && u == Url(RefOf(css, Scanner.Scan(css, 0)[k]))
  {
    var refs := References(css, cfg.hashableExtensions);
    HashAllOpens(refs, Batch([], cache, [], []), cfg, fs, i);
    var j :| 0 <= j < |refs| && Url(refs[j]) == Rewrite(css, cache, cfg, fs).openedUrls[i];
    ReferencesScanned(css, cfg.hashableExtensions, j);
  }

  /**
   * Every warning names the URL of an accepted reference whose file is
   * missing, and warnings are only logged when missing files are allowed.
   */
  lemma RewriteWarnsOnlyMissing(css: string, cache: map<string, string>, cfg: Config, fs: FileSystem, i: nat)
    requires i < |Rewrite(css, cache, cfg, fs).warnings|
    ensures cfg.allowMissingFiles
    ensures exists u :: (Accepts(u, cfg.hashableExtensions) && fs.read(AssetPath(cfg, fs, u)).NotFound? &&
                         Rewrite(css, cache, cfg, fs).warnings[i] == MissingMessage(u))
  {
    var refs := References(css, cfg.hashableExtensions);
    HashAllWarns(refs, Batch([], cache, [], []), cfg, fs, i);
    var j :| 0 <= j < |refs| && fs.read(AssetPath(cfg, fs, Url(refs[j]))).NotFound? &&
             Rewrite(css, cache, cfg, fs).warnings[i] == MissingMessage(Url(refs[j]));
    ReferencesScanned(css, cfg.hashableExtensions, j);
  }
}
