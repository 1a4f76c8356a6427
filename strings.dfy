/**
 * The JavaScript string operations the plugin relies on, stated over
 * `seq<char>`: `split`/`join`, `indexOf`, `lastIndexOf`, `replace` with a
 * string pattern, and `toLowerCase` (on ASCII letters).
 */
module Strings {

  /** `s` with every occurrence of `c` removed. */
  function Without(s: string, c: char): (r: string)
    ensures c !in r
    ensures |r| <= |s|
    ensures c !in s ==> r == s
  {
    if s == [] then []
    else if s[0] == c then Without(s[1..], c) else [s[0]] + Without(s[1..], c)
  }

  /** `s.split(c)` for a one-character separator: the pieces between occurrences of `c`. */
  function Split(s: string, c: char): (parts: seq<string>)
    ensures |parts| >= 1
    ensures forall i :: 0 <= i < |parts| ==> c !in parts[i]
  {
    if s == [] then [""]
    else
      var rest := Split(s[1..], c);
      if s[0] == c then [""] + rest
      else [[s[0]] + rest[0]] + rest[1..]
  }

  /** `parts.join(sep)`. */
  function Join(parts: seq<string>, sep: string): (r: string)
    ensures |parts| >= 1 ==> parts[0] <= r
  {
    if |parts| == 0 then ""
    else if |parts| == 1 then parts[0]
    else parts[0] + sep + Join(parts[1..], sep)
  }

  lemma JoinConsHead(a: string, parts: seq<string>, sep: string)
    requires |parts| >= 1
    ensures Join([a + parts[0]] + parts[1..], sep) == a + Join(parts, sep)
  {
    var q := [a + parts[0]] + parts[1..];
    assert q[1..] == parts[1..];
  }

  /** Splitting on `c` and joining with `c` gives back the original text. */
  lemma {:induction false} SplitJoinRoundTrip(s: string, c: char)
    ensures Join(Split(s, c), [c]) == s
  {
    if s != [] {
      var rest := Split(s[1..], c);
      SplitJoinRoundTrip(s[1..], c);
      if s[0] == c {
        assert ([""] + rest)[1..] == rest;
      } else {
        JoinConsHead([s[0]], rest, [c]);
      }
    }
  }

  /** Splitting on `c` and joining with the empty string removes every `c`. */
  lemma {:induction false} SplitJoinRemoves(s: string, c: char)
    ensures Join(Split(s, c), "") == Without(s, c)
  {
    if s != [] {
      var rest := Split(s[1..], c);
      SplitJoinRemoves(s[1..], c);
      if s[0] == c {
        assert ([""] + rest)[1..] == rest;
      } else {
        JoinConsHead([s[0]], rest, "");
      }
    }
  }

  /** `s.split(' ').join('')`: removes spaces (only U+0020, not tabs or newlines). */
  function StripSpaces(s: string): (r: string)
    ensures r == Without(s, ' ')
    ensures ' ' !in r
  {
    SplitJoinRemoves(s, ' ');
    Join(Split(s, ' '), "")
  }

  /** Stripping an already stripped URL changes nothing. */
  lemma StripSpacesIdempotent(s: string)
    ensures StripSpaces(StripSpaces(s)) == StripSpaces(s)
  {
  }

  /** `p` occurs in `s` at index `i`. */
  predicate OccursAt(s: string, p: string, i: int)
  {
    0 <= i && i + |p| <= |s| && s[i..i + |p|] == p
  }

  /** A character that differs from the pattern's rules out an occurrence. */
  lemma NotOccursAt(s: string, p: string, i: nat, k: nat)
    requires k < |p| && i + k < |s| && s[i + k] != p[k]
    ensures !OccursAt(s, p, i)
  {
  }

  /** Two equal slices of one text agree character by character. */
  lemma SameSlice(s: string, a: nat, b: nat, n: nat, t: nat)
    requires a + n <= |s| && b + n <= |s| && s[a..a + n] == s[b..b + n] && t < n
    ensures s[a + t] == s[b + t]
  {
    assert s[a..a + n][t] == s[a + t];
    assert s[b..b + n][t] == s[b + t];
  }

  /** `s.indexOf(p)`: the first index where `p` occurs, or -1. */
  function IndexOf(s: string, p: string): (r: int)
    ensures -1 <= r
    ensures r >= 0 ==> OccursAt(s, p, r)
    ensures forall j :: 0 <= j && (r < 0 || j < r) ==> !OccursAt(s, p, j)
    decreases |s|
  {
    if p <= s then 0
    else if |s| == 0 then -1
    else
      var k := IndexOf(s[1..], p);
      assert forall j :: 0 <= j ==> (OccursAt(s, p, j + 1) <==> OccursAt(s[1..], p, j)) by {
        forall j | 0 <= j ensures OccursAt(s, p, j + 1) <==> OccursAt(s[1..], p, j) {
          if j + 1 + |p| <= |s| {
            assert s[1..][j..j + |p|] == s[j + 1..j + 1 + |p|];
          }
        }
      }
      assert !OccursAt(s, p, 0);
      assert forall j :: 0 < j ==> (OccursAt(s, p, j) <==> OccursAt(s[1..], p, j - 1));
      if k < 0 then -1 else k + 1
  }

  /** `s.indexOf(p) === 0` holds exactly when `p` is a prefix of `s`. */
  lemma IndexOfZeroIffPrefix(s: string, p: string)
    ensures IndexOf(s, p) == 0 <==> p <= s
  {
    if IndexOf(s, p) == 0 {
      assert OccursAt(s, p, 0);
      assert s[..|p|] == p;
    }
  }

  /**
   * `s.replace(p, q)` with a string pattern: only the FIRST occurrence of `p`
   * is replaced; without an occurrence the text is unchanged.
   */
  function ReplaceFirst(s: string, p: string, q: string): (r: string)
    ensures IndexOf(s, p) < 0 ==> r == s
    ensures IndexOf(s, p) >= 0 ==>
      var i := IndexOf(s, p);
      && s == s[..i] + p + s[i + |p|..]
      && |r| == |s| - |p| + |q|
      && r[..i] == s[..i]
      && r[i..i + |q|] == q
      && r[i + |q|..] == s[i + |p|..]
  {
    var i := IndexOf(s, p);
    if i < 0 then s
    else
      var r := s[..i] + q + s[i + |p|..];
      assert s[i..i + |p|] == p;
      assert s == s[..i] + s[i..i + |p|] + s[i + |p|..];
      assert r[..i] == s[..i];
      assert r[i..i + |q|] == q;
      assert r[i + |q|..] == s[i + |p|..];
      r
  }

  /** `s.lastIndexOf(c)`: the last index holding `c`, or -1. */
  function LastIndexOf(s: string, c: char): (r: int)
    ensures -1 <= r < |s|
    ensures r >= 0 ==> s[r] == c
    ensures forall j :: r < j < |s| ==> s[j] != c
    ensures r < 0 <==> c !in s
  {
    if s == [] then -1
    else if s[|s| - 1] == c then |s| - 1
    else
      var r := LastIndexOf(s[..|s| - 1], c);
      assert s == s[..|s| - 1] + [s[|s| - 1]];
      r
  }

  /** The last index holding `c` is the one `lastIndexOf` reports. */
  lemma LastIndexOfIs(s: string, c: char, k: nat)
    requires k < |s| && s[k] == c
    requires forall j :: k < j < |s| ==> s[j] != c
    ensures LastIndexOf(s, c) == k
  {
  }

  /** `toLowerCase` on one character, for the ASCII letters. */
  function LowerChar(c: char): char
  {
    if 'A' <= c <= 'Z' then (c as int + 32) as char else c
  }

  /** `s.toLowerCase()`, for the ASCII letters. */
  function Lower(s: string): (r: string)
    ensures |r| == |s|
    ensures forall i :: 0 <= i < |s| ==> r[i] == LowerChar(s[i])
    ensures forall i :: 0 <= i < |s| ==> (r[i] == '.' <==> s[i] == '.')
  {
    seq(|s|, i requires 0 <= i < |s| => LowerChar(s[i]))
  }

  /** Lower-casing keeps every `.` where it was, so the last one too. */
  lemma LowerKeepsLastDot(s: string)
    ensures LastIndexOf(Lower(s), '.') == LastIndexOf(s, '.')
  {
    var k := LastIndexOf(s, '.');
    if k >= 0 {
      LastIndexOfIs(Lower(s), '.', k);
    } else {
      assert forall i :: 0 <= i < |s| ==> Lower(s)[i] != '.';
    }
  }

  /** Lower-casing commutes with taking a suffix. */
  lemma LowerSuffix(s: string, a: nat)
    requires a <= |s|
    ensures Lower(s)[a..] == Lower(s[a..])
  {
  }

  /** Lower-casing twice is lower-casing once. */
  lemma LowerIdempotent(s: string)
    ensures Lower(Lower(s)) == Lower(s)
  {
  }

  /** Two strings of three characters that agree at each index are equal. */
  lemma ThreeChars(s: string, t: string)
    requires |s| == 3 && |t| == 3 && s[0] == t[0] && s[1] == t[1] && s[2] == t[2]
    ensures s == t
  {
  }
}
