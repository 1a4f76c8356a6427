/**
 * Where the substitution fold lands. `css.replace(originalUrl, hashedUrl)`
 * rewrites the FIRST occurrence of a reference's text, which is not always
 * the reference the scanner found: it is for the first match of the
 * stylesheet, but a later reference whose text also occurs inside an
 * earlier match (say inside a data URI) has that earlier copy rewritten.
 */
module Replacement {
  import opened Wrappers
  import opened Strings
  import opened Options
  import opened Hashing
  import opened Rewrite
  import Scanner

  /**
   * The text of the first scanned match occurs nowhere before it: any
   * earlier copy would itself be a match, and `exec` found none there.
   */
  lemma FirstMatchFirstOccurrence(css: string)
    requires Scanner.Scan(css, 0) != []
    ensures var m := Scanner.Scan(css, 0)[0];
      IndexOf(css, Scanner.Group1(css, m)) == m.start
  {
    var m := Scanner.Scan(css, 0)[0];
    assert Scanner.Exec(css, 0) == Some(m);
    Scanner.ScanSound(css, 0, 0);
    var g := Scanner.Group1(css, m);
    assert OccursAt(css, g, m.start);
    forall j | 0 <= j < m.start && OccursAt(css, g, j)
      ensures false
    {
      Scanner.CopyCloses(css, m, j);
      Scanner.MatchAtIff(css, j);
    }
  }

  /** Replacing a pattern whose first occurrence is at `i`. */
  lemma ReplaceFirstAt(s: string, p: string, q: string, i: nat)
    requires IndexOf(s, p) == i
    ensures i + |p| <= |s| && ReplaceFirst(s, p, q) == s[..i] + q + s[i + |p|..]
  {
    var r := ReplaceFirst(s, p, q);
    assert r == r[..i] + r[i..i + |q|] + r[i + |q|..];
  }

  /** Replacing the first match's text rewrites that match in place. */
  lemma FirstMatchReplaced(css: string, m: Scanner.Match, q: string)
    requires Scanner.Scan(css, 0) != [] && Scanner.Scan(css, 0)[0] == m
    ensures Scanner.Bounded(css, m)
    ensures ReplaceFirst(css, Scanner.Group1(css, m), q) == css[..m.start] + q + css[m.end..]
  {
    FirstMatchFirstOccurrence(css);
    ReplaceFirstAt(css, Scanner.Group1(css, m), q, m.start);
  }

  /** `when.all` over one hashed result, then the fold: one replacement. */
  lemma FinishOne(css: string, h: HashResult)
    requires h.hashedUrl.Some?
    ensures Finish(css, [Ok(h)]) == Ok(ReplaceFirst(css, h.originalUrl, h.hashedUrl.value))
  {
    var rs: seq<Result<HashResult, Error>> := [Ok(h)];
    assert rs[1..] == [];
    assert Collect(rs[1..]) == Ok([]);
    assert [h] + [] == [h];
    assert Collect(rs) == Ok([h]);
    assert [h][1..] == [];
    assert FoldFirst(css, [h]) == FoldFirst(Apply(css, h), []);
  }

  /** A stylesheet whose one match is accepted sends exactly that match to hashing. */
  lemma SingleReference(css: string, m: Scanner.Match, exts: seq<string>)
    requires Scanner.Scan(css, 0) == [m] && Scanner.Bounded(css, m)
    requires Accepted(RefOf(css, m), exts)
    ensures References(css, exts) == [RefOf(css, m)]
  {
    var e := Scanner.Exec(css, 0);
    assert e.Some?;
    var m' := e.value;
    assert Scanner.Scan(css, 0) == [m'] + Scanner.Scan(css, m'.end);
    assert m' == Scanner.Scan(css, 0)[0] == m;
    assert |Scanner.Scan(css, m.end)| == 0;
    assert ReferencesFrom(css, m.end, exts) == [];
    ReferencesFromStep(css, 0, exts);
  }

  /** A stylesheet with one reference sent to hashing, whose file has a digest: one replacement. */
  lemma RewriteSingle(css: string, ref: Reference, cfg: Config, fs: FileSystem)
    requires References(css, cfg.hashableExtensions) == [ref]
    requires fs.read(AssetPath(cfg, fs, Url(ref))).Digest?
    ensures Rewrite.Rewrite(css, map[], cfg, fs).output ==
      Ok(ReplaceFirst(css, ref.group1, HashedUrl(Url(ref), fs.read(AssetPath(cfg, fs, Url(ref))).hex)))
  {
    var h := HashResult(ref.group1, Some(HashedUrl(Url(ref), fs.read(AssetPath(cfg, fs, Url(ref))).hex)));
    RewriteIsFresh(css, map[], cfg, fs);
    assert FreshAll([ref], cfg, fs) == [Ok(h)];
    FinishOne(css, h);
  }

  /**
   * A stylesheet with a single match, accepted and with a digest: the
   * hashed URL takes exactly the place of that match.
   */
  lemma SingleReferenceInPlace(css: string, m: Scanner.Match, cfg: Config, fs: FileSystem)
    requires Scanner.Scan(css, 0) == [m] && Scanner.Bounded(css, m)
    requires Accepted(RefOf(css, m), cfg.hashableExtensions)
    requires fs.read(AssetPath(cfg, fs, Url(RefOf(css, m)))).Digest?
    ensures Rewrite.Rewrite(css, map[], cfg, fs).output ==
      Ok(css[..m.start] + HashedUrl(Url(RefOf(css, m)), fs.read(AssetPath(cfg, fs, Url(RefOf(css, m)))).hex) + css[m.end..])
  {
    var ref := RefOf(css, m);
    SingleReference(css, m, cfg.hashableExtensions);
    RewriteSingle(css, ref, cfg, fs);
    FirstMatchReplaced(css, m, HashedUrl(Url(ref), fs.read(AssetPath(cfg, fs, Url(ref))).hex));
  }

  /**
   * The example stylesheet: a data URI that contains `url(a.png)`, then a
   * real `url(a.png)`.
   */
  predicate IsExample(css: string)
  {
    css == "url(data:x,url(a.png)) url(a.png)"
  }

  /** The data URI's match, cut short by the first `)`, and the real reference's match. */
  const DataMatch := Scanner.Match(0, 4, 20, 21)
  const PngMatch := Scanner.Match(23, 27, 32, 33)

  /** Every file of the example has the digest `0`. */
  const ExampleFiles := FileSystem((base: string, url: string) => base + "/" + url, (path: string) => Digest("0"))

  const ExampleConfig := MakeConfig(PluginOptions(None, None, None))

  lemma ExampleDataMatch(css: string)
    requires IsExample(css)
    ensures Scanner.Exec(css, 0) == Some(DataMatch)
  {
    assert css[0] == 'u' && css[1] == 'r' && css[2] == 'l' && css[3] == '(';
    Scanner.FindCloseFinds(css, 4, 20);
    assert Scanner.MatchAt(css, 0) == Some(DataMatch);
  }

  lemma ExamplePngMatch(css: string)
    requires IsExample(css)
    ensures Scanner.Exec(css, 21) == Some(PngMatch) && Scanner.Exec(css, 33) == None
  {
    assert css[23] == 'u' && css[24] == 'r' && css[25] == 'l' && css[26] == '(';
    assert css[21..25][0] == ')' && css[22..26][0] == ' ';
    Scanner.FindCloseFinds(css, 27, 32);
    assert Scanner.MatchAt(css, 23) == Some(PngMatch);
    assert Scanner.MatchAt(css, 21) == None;
    assert Scanner.MatchAt(css, 22) == None;
  }

  lemma ExampleScan(css: string)
    requires IsExample(css)
    ensures Scanner.Scan(css, 0) == [DataMatch, PngMatch]
  {
    ExampleDataMatch(css);
    ExamplePngMatch(css);
    assert Scanner.Scan(css, 33) == [];
  }

  /** Groups 1 and 2 of the two matches. */
  lemma ExampleGroups(css: string)
    requires IsExample(css)
    ensures "data:" <= Scanner.Group2(css, DataMatch) && ' ' !in Scanner.Group2(css, DataMatch)
    ensures Scanner.Group1(css, PngMatch) == "url(a.png)" && Scanner.Group2(css, PngMatch) == "a.png"
  {
    assert forall i :: 0 <= i < 16 ==> Scanner.Group2(css, DataMatch)[i] == css[4 + i];
    assert forall i :: 0 <= i < 10 ==> Scanner.Group1(css, PngMatch)[i] == css[23 + i];
    assert forall i :: 0 <= i < 5 ==> Scanner.Group2(css, PngMatch)[i] == css[27 + i];
  }

  lemma PngAccepted(url: string)
    requires url == "a.png"
    ensures Accepts(url, DefaultExtensions)
  {
    NotPrefix(url, "data:");
    NotPrefix(url, "#");
    assert url[1] == '.' && url[2] == 'p' && url[3] == 'n' && url[4] == 'g';
    LastIndexOfIs(url, '.', 1);
    var ext := Extension(url);
    assert ext == Lower(url[2..]);
    assert url[2..][0] == 'p' && url[2..][1] == 'n' && url[2..][2] == 'g';
    ThreeChars(ext, "png");
    assert DefaultExtensions[0] == "png";
  }

  /** The data URI is rejected by the filter; the real reference is accepted. */
  lemma ExampleReferences(css: string)
    requires IsExample(css)
    ensures References(css, DefaultExtensions) == [RefOf(css, PngMatch)]
    ensures RefOf(css, PngMatch).group1 == "url(a.png)" && Url(RefOf(css, PngMatch)) == "a.png"
  {
    ExampleDataMatch(css);
    ExamplePngMatch(css);
    ExampleGroups(css);
    var r0 := RefOf(css, DataMatch);
    DataUriRejected(Url(r0), DefaultExtensions);
    assert ' ' !in "a.png";
    PngAccepted("a.png");
    ReferencesFromStep(css, 0, DefaultExtensions);
    ReferencesFromStep(css, 21, DefaultExtensions);
    ReferencesFromStep(css, 33, DefaultExtensions);
  }

  /** The first occurrence of `url(a.png)` is the copy inside the data URI. */
  lemma ExampleFirstOccurrence(css: string)
    requires IsExample(css)
    ensures IndexOf(css, "url(a.png)") == 11
  {
    var p := "url(a.png)";
    assert css[11..21] == p by {
      assert forall i :: 0 <= i < 10 ==> css[11 + i] == p[i];
    }
    assert OccursAt(css, p, 11);
    forall j | 0 <= j < 11 ensures !OccursAt(css, p, j) {
      assert css[j + 3] != '(' || css[j + 4] != 'a';
      assert css[j..j + 10][3] == css[j + 3] && css[j..j + 10][4] == css[j + 4];
    }
  }

  /**
   * The data URI is rejected by the filter and the real reference is
   * hashed; its first occurrence is the copy inside the data URI (at 11,
   * within the data URI's match), which is the one rewritten, while the
   * reference itself stays in the text as it was.
   */
  lemma ReplaceReachesIntoEarlierMatch(css: string)
    requires IsExample(css)
    ensures 11 + |"url(a.png)"| <= DataMatch.end <= PngMatch.start
    ensures Rewrite.Rewrite(css, map[], ExampleConfig, ExampleFiles).output ==
      Ok(css[..11] + HashedUrl("a.png", "0") + css[21..])
  {
    DefaultConfig();
    ExampleReferences(css);
    ExampleFirstOccurrence(css);
    RewriteSingle(css, RefOf(css, PngMatch), ExampleConfig, ExampleFiles);
    ReplaceFirstAt(css, "url(a.png)", HashedUrl("a.png", "0"), 11);
  }
}
