/**
 * A stylesheet that names one asset twice, `url(u) url(u)`. The scan loop
 * sends both references to hashing in order; the second finds the URL in
 * the memo table, so the file is opened once. The fold then replaces the
 * first occurrence of `url(u)` twice: the first time that is the first
 * reference, the second time the second one, because the hashed URL
 * `url('u?v=…')` put in place of the first holds no copy of `url(u)`.
 */
module Duplicates {
  import opened Wrappers
  import opened Strings
  import opened Options
  import opened Hashing
  import opened Rewrite
  import opened Replacement
  import Scanner

  /**
   * A URL that the pattern captures whole as group 2 and that hashing uses
   * as it is: not empty, and without brackets, spaces, quotes or line
   * terminators.
   */
  predicate Plain(u: string)
  {
    && |u| > 0
    && forall i :: 0 <= i < |u| ==>
      u[i] != ')' && u[i] != '(' && u[i] != ' ' && !Scanner.IsQuote(u[i]) && !Scanner.IsLineTerminator(u[i])
  }

  /** A reference to `u` without quotes. */
  function Bare(u: string): string
  {
    "url(" + u + ")"
  }

  /** The stylesheet `url(u) url(u)`. */
  function Twice(u: string): string
  {
    Bare(u) + " " + Bare(u)
  }

  /** The match of `url(u)` written at `i`. */
  function BareMatchAt(u: string, i: nat): Scanner.Match
  {
    Scanner.Match(i, i + 4, i + 4 + |u|, i + 5 + |u|)
  }

  /** `url(u)` written at `i` is matched whole, with `u` as group 2. */
  lemma BareMatched(text: string, i: nat, u: string)
    requires Plain(u)
    requires i + |u| + 5 <= |text| && text[i..i + |u| + 5] == Bare(u)
    ensures Scanner.MatchAt(text, i) == Some(BareMatchAt(u, i))
  {
    var n := |u|;
    var b := Bare(u);
    assert text[i..i + 4] == text[i..i + n + 5][..4] == b[..4] == "url(";
    forall k | i + 4 <= k < i + 4 + n
      ensures text[k] == u[k - i - 4]
    {
      assert text[k] == text[i..i + n + 5][k - i] == b[k - i];
    }
    assert text[i + 4 + n] == text[i..i + n + 5][n + 4] == b[n + 4] == ')';
    Scanner.FindCloseFinds(text, i + 4, i + 4 + n);
    assert !Scanner.IsQuote(text[i + 4]) && !Scanner.IsQuote(text[i + 4 + n - 1]);
  }

  /** The reference made from that match: group 1 is `url(u)` and its URL is `u`. */
  lemma BareReference(text: string, i: nat, u: string)
    requires Plain(u)
    requires i + |u| + 5 <= |text| && text[i..i + |u| + 5] == Bare(u)
    ensures RefOf(text, BareMatchAt(u, i)).group1 == Bare(u)
    ensures Url(RefOf(text, BareMatchAt(u, i))) == u
  {
    var n := |u|;
    var ref := RefOf(text, BareMatchAt(u, i));
    assert ref.group2 == text[i + 4..i + 4 + n] == text[i..i + n + 5][4..4 + n] == Bare(u)[4..4 + n] == u;
    assert ' ' !in u by {
      forall k | 0 <= k < |u| ensures u[k] != ' ' { }
    }
    assert StripSpaces(u) == Without(u, ' ') == u;
  }

  /** `exec` on `url(u) url(u)` finds the first copy, then the second, then nothing. */
  lemma TwiceExec(u: string)
    requires Plain(u)
    ensures var css, n := Twice(u), |u|;
      && Scanner.Exec(css, 0) == Some(BareMatchAt(u, 0))
      && Scanner.Exec(css, n + 5) == Some(BareMatchAt(u, n + 6))
      && Scanner.Exec(css, 2 * n + 11) == None
  {
    var css, n := Twice(u), |u|;
    assert css[0..n + 5] == Bare(u);
    assert css[n + 6..2 * n + 11] == Bare(u);
    BareMatched(css, 0, u);
    BareMatched(css, n + 6, u);
    assert css[n + 5..n + 9][0] == ' ';
    assert Scanner.MatchAt(css, n + 5).None?;
  }

  /** Two matches found in turn by `exec`, then nothing: the scan is those two. */
  lemma TwoScanned(css: string, m1: Scanner.Match, m2: Scanner.Match)
    requires Scanner.Exec(css, 0) == Some(m1) && m1.end <= |css| && Scanner.Exec(css, m1.end) == Some(m2)
    requires m2.end <= |css| && Scanner.Exec(css, m2.end) == None
    ensures Scanner.Scan(css, 0) == [m1, m2]
  {
    assert Scanner.Scan(css, m2.end) == [];
    assert Scanner.Scan(css, m1.end) == [m2];
  }

  /** Two matches that both pass the test are both kept, in order. */
  lemma TwoKept(text: string, m1: Scanner.Match, m2: Scanner.Match, keep: Reference -> bool)
    requires Scanner.Bounded(text, m1) && Scanner.Bounded(text, m2)
    requires keep(RefOf(text, m1)) && keep(RefOf(text, m2))
    ensures Filter(text, [m1, m2], keep) == [RefOf(text, m1), RefOf(text, m2)]
  {
    assert [m1, m2][1..] == [m2] && [m2][1..] == [];
  }

  /** Two matches found in turn by `exec`, both passing the filter, are the references sent to hashing. */
  lemma TwoReferences(css: string, m1: Scanner.Match, m2: Scanner.Match, exts: seq<string>)
    requires Scanner.Exec(css, 0) == Some(m1) && m1.end <= |css| && Scanner.Exec(css, m1.end) == Some(m2)
    requires m2.end <= |css| && Scanner.Exec(css, m2.end) == None
    requires Accepted(RefOf(css, m1), exts) && Accepted(RefOf(css, m2), exts)
    ensures References(css, exts) == [RefOf(css, m1), RefOf(css, m2)]
  {
    TwoScanned(css, m1, m2);
    TwoKept(css, m1, m2, ref => Accepted(ref, exts));
  }

  /** Both copies of `url(u)` give references with group 1 `url(u)` and the URL `u`. */
  lemma TwiceReferenced(u: string)
    requires Plain(u)
    ensures var css, n := Twice(u), |u|;
      var r1, r2 := RefOf(css, BareMatchAt(u, 0)), RefOf(css, BareMatchAt(u, n + 6));
      && r1.group1 == r2.group1 == Bare(u)
      && Url(r1) == Url(r2) == u
  {
    var css, n := Twice(u), |u|;
    assert css[0..n + 5] == Bare(u);
    assert css[n + 6..2 * n + 11] == Bare(u);
    BareReference(css, 0, u);
    BareReference(css, n + 6, u);
  }

  /** When `u` passes the filter, both copies are sent to hashing, as `url(u)` with the URL `u`. */
  lemma TwiceReferences(u: string, exts: seq<string>)
    requires Plain(u) && Accepts(u, exts)
    ensures var css, n := Twice(u), |u|;
      var r1, r2 := RefOf(css, BareMatchAt(u, 0)), RefOf(css, BareMatchAt(u, n + 6));
      && References(css, exts) == [r1, r2]
      && r1.group1 == r2.group1 == Bare(u)
      && Url(r1) == Url(r2) == u
  {
    var css, n := Twice(u), |u|;
    var m1, m2 := BareMatchAt(u, 0), BareMatchAt(u, n + 6);
    TwiceReferenced(u);
    TwiceExec(u);
    TwoReferences(css, m1, m2, exts);
  }

  /**
   * Hashing two references with the same text and URL from an empty memo
   * table: the file is opened for the first, the second is a hit, and both
   * carry the same hashed URL.
   */
  lemma HashedTwice(r1: Reference, r2: Reference, cfg: Config, fs: FileSystem)
    requires r1.group1 == r2.group1 && Url(r1) == Url(r2)
    requires fs.read(AssetPath(cfg, fs, Url(r1))).Digest?
    ensures var hashed := HashedUrl(Url(r1), fs.read(AssetPath(cfg, fs, Url(r1))).hex);
      var h := HashResult(r1.group1, Some(hashed));
      HashAll([r1, r2], Batch([], map[], [], []), cfg, fs) == Batch([Ok(h), Ok(h)], map[Url(r1) := hashed], [Url(r1)], [])
  {
    var b0 := Batch([], map[], [], []);
    var b1 := Step(b0, r1, cfg, fs);
    HashAllCons(r1, [r2], b0, cfg, fs);
    HashAllCons(r2, [], b1, cfg, fs);
    assert [r1] + [r2] == [r1, r2];
    assert [r2] + [] == [r2];
  }

  /** `when.all` over two hashed results, then the fold: two replacements. */
  lemma FinishTwo(css: string, h1: HashResult, h2: HashResult)
    requires h1.hashedUrl.Some? && h2.hashedUrl.Some?
    ensures Finish(css, [Ok(h1), Ok(h2)]) ==
      Ok(ReplaceFirst(ReplaceFirst(css, h1.originalUrl, h1.hashedUrl.value), h2.originalUrl, h2.hashedUrl.value))
  {
    var rs: seq<Result<HashResult, Error>> := [Ok(h1), Ok(h2)];
    var c := Collect(rs);
    assert c.Ok? by { assert rs[0].Ok? && rs[1].Ok?; }
    assert rs[0] == Ok(c.value[0]) && rs[1] == Ok(c.value[1]);
    assert c.value == [h1, h2];
    assert [h1, h2][1..] == [h2];
    assert [h2][1..] == [];
    assert FoldFirst(css, [h1, h2]) == FoldFirst(Apply(css, h1), [h2]);
    assert FoldFirst(Apply(css, h1), [h2]) == FoldFirst(Apply(Apply(css, h1), h2), []);
  }

  /** In a hashed URL of `u`, a `(` appears only in its leading `url(`. */
  lemma HashedParen(u: string, hex: string, k: nat)
    requires Plain(u) && '(' !in hex
    requires k < |HashedUrl(u, hex)|
    ensures HashedUrl(u, hex)[k] == '(' <==> k == 3
  {
    var r, n := HashedUrl(u, hex), |u|;
    if k < 5 {
      assert r[k] == r[..5][k] == "url('"[k];
    } else if k < 5 + n {
      assert r[k] == r[5..5 + n][k - 5] == u[k - 5];
    } else if k < 8 + n {
      assert r[k] == r[5 + n..8 + n][k - 5 - n] == "?v="[k - 5 - n];
    } else if k < |r| - 2 {
      assert r[k] == r[8 + n..|r| - 2][k - 8 - n] == hex[k - 8 - n];
    } else {
      assert r[k] == r[|r| - 2..][k - |r| + 2] == "')"[k - |r| + 2];
    }
  }

  /**
   * After the first replacement the text is the hashed URL, a space and the
   * second copy; the first occurrence of `url(u)` there is that copy.
   */
  lemma SecondCopyFirst(u: string, hex: string)
    requires Plain(u) && '(' !in hex
    ensures var hashed := HashedUrl(u, hex);
      IndexOf(hashed + " " + Bare(u), Bare(u)) == |hashed| + 1
  {
    var hashed, g := HashedUrl(u, hex), Bare(u);
    var s := hashed + " " + g;
    var h := |hashed|;
    assert s[h + 1..] == g;
    assert OccursAt(s, g, h + 1);
    forall j | 0 <= j < h + 1
      ensures !OccursAt(s, g, j)
    {
      if j == 0 {
        assert s[4] == hashed[..5][4] == '\'';
        assert g[4] == u[0];
        NotOccursAt(s, g, 0, 4);
      } else if j + 3 < h {
        assert s[j + 3] == hashed[j + 3];
        HashedParen(u, hex, j + 3);
        NotOccursAt(s, g, j, 3);
      } else if j + 3 == h {
        assert s[h] == ' ';
        NotOccursAt(s, g, j, 3);
      } else {
        assert s[j + 3] == g[j + 2 - h] == "url("[j + 2 - h];
        NotOccursAt(s, g, j, 3);
      }
    }
  }

  /** The first replacement on `url(u) url(u)` rewrites the first copy. */
  lemma FirstCopyReplaced(u: string, hashed: string)
    ensures ReplaceFirst(Twice(u), Bare(u), hashed) == hashed + " " + Bare(u)
  {
    var css, g := Twice(u), Bare(u);
    var rest := " " + g;
    assert css == g + rest;
    assert css[..|g|] == g;
    IndexOfZeroIffPrefix(css, g);
    ReplaceFirstAt(css, g, hashed, 0);
    assert css[..0] + hashed + css[|g|..] == hashed + rest;
    assert hashed + rest == hashed + " " + g;
  }

  /** The second replacement rewrites the second copy. */
  lemma SecondCopyReplaced(u: string, hex: string)
    requires Plain(u) && '(' !in hex
    ensures var hashed, g := HashedUrl(u, hex), Bare(u);
      ReplaceFirst(hashed + " " + g, g, hashed) == hashed + " " + hashed
  {
    var hashed, g := HashedUrl(u, hex), Bare(u);
    var s := hashed + " " + g;
    SecondCopyFirst(u, hex);
    ReplaceFirstAt(s, g, hashed, |hashed| + 1);
    assert s[..|hashed| + 1] == hashed + " ";
    assert s[|hashed| + 1 + |g|..] == [];
  }

  /**
   * The whole pass on `url(u) url(u)`, with `u` accepted and its file
   * read to a digest without `(` (an MD5 hex digest has none): both copies
   * become the hashed URL, the file is opened once, the memo table learns
   * `u`, and nothing is logged.
   */
  lemma DuplicateReferences(u: string, cfg: Config, fs: FileSystem)
    requires Plain(u) && Accepts(u, cfg.hashableExtensions)
    requires fs.read(AssetPath(cfg, fs, u)).Digest? && '(' !in fs.read(AssetPath(cfg, fs, u)).hex
    ensures var hashed := HashedUrl(u, fs.read(AssetPath(cfg, fs, u)).hex);
      Rewrite.Rewrite(Twice(u), map[], cfg, fs) == Outcome(Ok(hashed + " " + hashed), map[u := hashed], [u], [])
  {
    var css, n, g := Twice(u), |u|, Bare(u);
    var hex := fs.read(AssetPath(cfg, fs, u)).hex;
    var hashed := HashedUrl(u, hex);
    var h := HashResult(g, Some(hashed));
    TwiceReferences(u, cfg.hashableExtensions);
    var r1, r2 := RefOf(css, BareMatchAt(u, 0)), RefOf(css, BareMatchAt(u, n + 6));
    HashedTwice(r1, r2, cfg, fs);
    FinishTwo(css, h, h);
    FirstCopyReplaced(u, hashed);
    SecondCopyReplaced(u, hex);
  }
}
