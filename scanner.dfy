/**
 * The reference scanner: the global pattern `(url(?:\(['|"]?)(.*?)(?:['|"]?\)))`
 * run repeatedly with `exec`, as the plugin's scan loop does.
 *
 * A match at position `i` exists exactly when the text at `i` starts with
 * `url(` and the first `)` after it is reached without crossing a line
 * terminator (the lazy `.*?` cannot cross one). Group 1 is the text from `i`
 * up to and including that `)`; group 2 is what lies between the optional
 * leading quote and the optional trailing quote. The quote class is
 * `['|"]`, so a pipe counts as a quote.
 */
module Scanner {
  import opened Wrappers
  import opened Strings

  /** The characters of the class `['|"]`. */
  predicate IsQuote(c: char)
  {
    c == '\'' || c == '|' || c == '"'
  }

  /** The characters that `.` does not match in a JavaScript regular expression. */
  predicate IsLineTerminator(c: char)
  {
    c == '\n' || c == '\r' || c == '\U{2028}' || c == '\U{2029}'
  }

  /**
   * One `exec` result, as positions: group 1 is `text[start..end]`,
   * group 2 is `text[urlStart..urlEnd]`.
   */
  datatype Match = Match(start: nat, urlStart: nat, urlEnd: nat, end: nat)

  /**
   * `p` is where a match starting at `i` closes: `url(` at `i`, `)` at `p`,
   * and neither `)` nor a line terminator in between.
   */
  ghost predicate ClosesAt(text: string, i: nat, p: nat)
  {
    && i + 4 <= p < |text|
    && text[i..i + 4] == "url("
    && text[p] == ')'
    && forall j :: i + 4 <= j < p ==> text[j] != ')' && !IsLineTerminator(text[j])
  }

  /** The positions of a match lie in order inside the text. */
  predicate Bounded(text: string, m: Match)
  {
    m.start + 4 <= m.urlStart <= m.urlEnd < m.end <= |text|
  }

  /** The shape every match has. */
  ghost predicate WellFormed(text: string, m: Match)
  {
    && Bounded(text, m)
    && m.urlStart <= m.start + 5
    && m.end - 2 <= m.urlEnd
    && (m.urlStart == m.start + 5 ==> IsQuote(text[m.start + 4]))
    && (m.urlEnd == m.end - 2 ==> IsQuote(text[m.end - 2]))
    && ClosesAt(text, m.start, m.end - 1)
  }

  function Group1(text: string, m: Match): string
    requires Bounded(text, m)
  {
    text[m.start..m.end]
  }

  function Group2(text: string, m: Match): string
    requires Bounded(text, m)
  {
    text[m.urlStart..m.urlEnd]
  }

  /** A copy of a match's group 1 elsewhere in the text is closed as well. */
  lemma CopyCloses(text: string, m: Match, j: nat)
    requires WellFormed(text, m)
    requires OccursAt(text, Group1(text, m), j)
    ensures ClosesAt(text, j, j + (m.end - 1 - m.start))
  {
    var i, p := m.start, m.end - 1;
    var n := p + 1 - i;
    assert text[j..j + n] == text[i..i + n];
    forall k | j + 4 <= k < j + (p - i)
      ensures text[k] != ')' && !IsLineTerminator(text[k])
    {
      SameSlice(text, j, i, n, k - j);
    }
    SameSlice(text, j, i, n, p - i);
    assert text[j..j + 4] == text[j..j + n][..4] == text[i..i + n][..4] == text[i..i + 4];
  }

  /**
   * The first `)` at or after `k`, unless a line terminator or the end of the
   * text comes first.
   */
  function FindClose(text: string, k: nat): (r: Option<nat>)
    requires k <= |text|
    ensures r.Some? ==> k <= r.value < |text| && text[r.value] == ')'
    ensures r.Some? ==> forall j :: k <= j < r.value ==> text[j] != ')' && !IsLineTerminator(text[j])
    decreases |text| - k
  {
    if k == |text| then None
    else if text[k] == ')' then Some(k)
    else if IsLineTerminator(text[k]) then None
    else FindClose(text, k + 1)
  }

  /** The first `)` after `k`, with no line terminator before it, is the one found. */
  lemma {:induction false} FindCloseFinds(text: string, k: nat, p: nat)
    requires k <= p < |text| && text[p] == ')'
    requires forall j :: k <= j < p ==> text[j] != ')' && !IsLineTerminator(text[j])
    ensures FindClose(text, k) == Some(p)
    decreases p - k
  {
    if k < p {
      FindCloseFinds(text, k + 1, p);
    }
  }

  /** When no `)` is found, every `)` after `k` lies beyond a line terminator. */
  lemma {:induction false} FindCloseNone(text: string, k: nat, p: nat)
    requires k <= p < |text| && text[p] == ')' && FindClose(text, k).None?
    ensures exists j :: k <= j < p && IsLineTerminator(text[j])
    decreases |text| - k
  {
    if !IsLineTerminator(text[k]) {
      FindCloseNone(text, k + 1, p);
    }
  }

  /** The match the pattern makes when tried at exactly position `i`. */
  function MatchAt(text: string, i: nat): (r: Option<Match>)
    requires i <= |text|
    ensures r.Some? ==> r.value.start == i && Bounded(text, r.value)
  {
    if i + 4 <= |text| && text[i..i + 4] == "url(" then
      match FindClose(text, i + 4)
      case None => None
      case Some(p) =>
        var s := if IsQuote(text[i + 4]) then i + 5 else i + 4;
        var e := if s < p && IsQuote(text[p - 1]) then p - 1 else p;
        Some(Match(i, s, e, p + 1))
    else None
  }

  /** A match has the shape of the pattern. */
  lemma MatchAtWellFormed(text: string, i: nat)
    requires i <= |text| && MatchAt(text, i).Some?
    ensures WellFormed(text, MatchAt(text, i).value)
  {
  }

  /** The pattern matches at `i` exactly when a `url(` there is closed before any line terminator. */
  lemma MatchAtIff(text: string, i: nat)
    requires i <= |text|
    ensures MatchAt(text, i).Some? <==> exists p :: ClosesAt(text, i, p)
  {
    if i + 4 <= |text| && text[i..i + 4] == "url(" {
      if FindClose(text, i + 4).None? {
        forall p | ClosesAt(text, i, p) ensures false {
          FindCloseNone(text, i + 4, p);
        }
      } else {
        assert ClosesAt(text, i, FindClose(text, i + 4).value);
      }
    }
  }

  /** The optional quote after `url(`: `text[start + 4..urlStart]`. */
  function LeadingQuote(text: string, m: Match): string
    requires Bounded(text, m)
  {
    text[m.start + 4..m.urlStart]
  }

  /** The optional quote before `)`: `text[urlEnd..end - 1]`. */
  function TrailingQuote(text: string, m: Match): string
    requires Bounded(text, m)
  {
    text[m.urlEnd..m.end - 1]
  }

  lemma WellFormedShape(text: string, m: Match)
    requires WellFormed(text, m)
    ensures && |LeadingQuote(text, m)| <= 1 && |TrailingQuote(text, m)| <= 1
      && (forall c :: c in LeadingQuote(text, m) ==> IsQuote(c))
      && (forall c :: c in TrailingQuote(text, m) ==> IsQuote(c))
      && Group1(text, m) == "url(" + LeadingQuote(text, m) + Group2(text, m) + TrailingQuote(text, m) + ")"
  {
    var lq, rq := LeadingQuote(text, m), TrailingQuote(text, m);
    assert lq == [] || lq == [text[m.start + 4]];
    assert rq == [] || rq == [text[m.end - 2]];
    assert text[m.end - 1..m.end] == ")" by { assert text[m.end - 1..m.end][0] == text[m.end - 1]; }
    Slices5(text, m.start, m.start + 4, m.urlStart, m.urlEnd, m.end - 1, m.end);
  }

  lemma Slices5(s: string, a: nat, b: nat, c: nat, d: nat, e: nat, f: nat)
    requires a <= b <= c <= d <= e <= f <= |s|
    ensures s[a..f] == s[a..b] + s[b..c] + s[c..d] + s[d..e] + s[e..f]
  {
    assert s[a..f] == s[a..b] + s[b..f];
    assert s[b..f] == s[b..c] + s[c..f];
    assert s[c..f] == s[c..d] + s[d..f];
    assert s[d..f] == s[d..e] + s[e..f];
  }

  /** The regular-expression shape of a match: `url(`, a quote or nothing, group 2, a quote or nothing, `)`. */
  lemma MatchShape(text: string, i: nat)
    requires i <= |text| && MatchAt(text, i).Some?
    ensures var m := MatchAt(text, i).value;
      && |LeadingQuote(text, m)| <= 1 && |TrailingQuote(text, m)| <= 1
      && (forall c :: c in LeadingQuote(text, m) ==> IsQuote(c))
      && (forall c :: c in TrailingQuote(text, m) ==> IsQuote(c))
      && Group1(text, m) == "url(" + LeadingQuote(text, m) + Group2(text, m) + TrailingQuote(text, m) + ")"
  {
    MatchAtWellFormed(text, i);
    WellFormedShape(text, MatchAt(text, i).value);
  }

  /** The lazy body stops at the first `)` and cannot cross a line terminator. */
  lemma MatchBody(text: string, i: nat)
    requires i <= |text| && MatchAt(text, i).Some?
    ensures var m := MatchAt(text, i).value;
      && ')' !in Group2(text, m)
      && (forall c :: c in Group2(text, m) ==> !IsLineTerminator(c))
  {
    MatchAtWellFormed(text, i);
  }

  /** The greedy leading quote and the lazy body: group 2 gives up a trailing quote whenever it can. */
  lemma MatchPrefersQuotes(text: string, i: nat)
    requires i <= |text| && MatchAt(text, i).Some?
    ensures var m := MatchAt(text, i).value;
      && (m.urlStart == m.start + 4 ==> !IsQuote(text[m.start + 4]))
      && (m.urlEnd == m.end - 1 && m.urlStart < m.urlEnd ==> !IsQuote(text[m.urlEnd - 1]))
  {
    MatchAtWellFormed(text, i);
  }

  /** `exec` from `lastIndex == from`: the first match at a position `>= from`. */
  function Exec(text: string, from: nat): (r: Option<Match>)
    requires from <= |text|
    ensures r.Some? ==> from <= r.value.start && Bounded(text, r.value) && MatchAt(text, r.value.start) == r
    ensures forall q :: from <= q <= |text| && (r.None? || q < r.value.start) ==> MatchAt(text, q).None?
    decreases |text| - from
  {
    if from == |text| then None
    else
      match MatchAt(text, from)
      case Some(m) => Some(m)
      case None => Exec(text, from + 1)
  }

  /** Every match the scan loop sees, from `lastIndex == from` until `exec` returns null. */
  function Scan(text: string, from: nat): (r: seq<Match>)
    requires from <= |text|
    ensures forall j :: 0 <= j < |r| ==>
      from <= r[j].start && Bounded(text, r[j])
    ensures forall j :: 0 <= j < |r| - 1 ==> r[j].end <= r[j + 1].start
    decreases |text| - from
  {
    match Exec(text, from)
    case None => []
    case Some(m) => [m] + Scan(text, m.end)
  }

  /** Every match the loop sees is what the pattern matches at that match's own start. */
  lemma {:induction false} ScanSound(text: string, from: nat, j: nat)
    requires from <= |text| && j < |Scan(text, from)|
    ensures MatchAt(text, Scan(text, from)[j].start) == Some(Scan(text, from)[j])
    ensures WellFormed(text, Scan(text, from)[j])
    decreases |text| - from
  {
    var m := Exec(text, from).value;
    var rest := Scan(text, m.end);
    assert Scan(text, from) == [m] + rest;
    if j > 0 {
      ScanSound(text, m.end, j - 1);
      assert Scan(text, from)[j] == rest[j - 1];
    } else {
      MatchAtWellFormed(text, m.start);
    }
  }

  /** Matches do not overlap and come in increasing position. */
  lemma {:induction false} ScanOrdered(text: string, from: nat, j: nat, k: nat)
    requires from <= |text|
    requires j < k < |Scan(text, from)|
    ensures Scan(text, from)[j].end <= Scan(text, from)[k].start
    decreases k
  {
    var r := Scan(text, from);
    if k > j + 1 {
      ScanOrdered(text, from, j, k - 1);
      assert r[k - 1].start < r[k - 1].end <= r[k].start;
    }
  }

  /** `exec` does not skip a position where the pattern matches. */
  lemma ExecReaches(text: string, from: nat, q: nat)
    requires from <= q < |text| && MatchAt(text, q).Some?
    ensures Exec(text, from).Some? && Exec(text, from).value.start <= q
  {
  }

  /** A position inside the head match, or inside one of the rest, is inside one of the whole list. */
  lemma CoversCons(m: Match, rest: seq<Match>, q: nat)
    requires (m.start <= q < m.end) || exists j :: 0 <= j < |rest| && rest[j].start <= q < rest[j].end
    ensures exists j :: 0 <= j < |[m] + rest| && ([m] + rest)[j].start <= q < ([m] + rest)[j].end
  {
    if m.start <= q < m.end {
      assert ([m] + rest)[0] == m;
    } else {
      var j :| 0 <= j < |rest| && rest[j].start <= q < rest[j].end;
      assert ([m] + rest)[j + 1] == rest[j];
    }
  }

  /**
   * No match is missed: every position at or after `from` where the pattern
   * matches lies inside one of the reported matches.
   */
  lemma {:induction false} ScanComplete(text: string, from: nat, q: nat)
    requires from <= q < |text| && MatchAt(text, q).Some?
    ensures exists j :: 0 <= j < |Scan(text, from)| && Scan(text, from)[j].start <= q < Scan(text, from)[j].end
    decreases |text| - from
  {
    ExecReaches(text, from, q);
    var m := Exec(text, from).value;
    assert Scan(text, from) == [m] + Scan(text, m.end);
    if m.end <= q {
      ScanComplete(text, m.end, q);
    }
    CoversCons(m, Scan(text, m.end), q);
  }

  /** Every scanned match begins with `url(`. */
  lemma ScanAtUrl(text: string, j: nat)
    requires j < |Scan(text, 0)|
    ensures OccursAt(text, "url(", Scan(text, 0)[j].start)
  {
    ScanSound(text, 0, j);
  }
}
