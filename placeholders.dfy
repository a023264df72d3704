/**
 * MSBuild property placeholders in a version text: the matches of the
 * regular expression `\$\(.*\)` (greedy; `.` matches every character except
 * a line feed; matches are found left to right without overlap), the property
 * name inside a match, and ordinal `string.Replace`.
 */
module Placeholders {
  import opened Wrappers

  /** The text "$(" starts at index i. */
  predicate OpensAt(s: string, i: nat)
  {
    i + 1 < |s| && s[i] == '$' && s[i + 1] == '('
  }

  /** The first line feed at or after k, or |s| when there is none. */
  function LineEnd(s: string, k: nat): (r: nat)
    requires k <= |s|
    ensures k <= r <= |s|
    ensures r < |s| ==> s[r] == '\n'
    ensures forall m :: k <= m < r ==> s[m] != '\n'
    decreases |s| - k
  {
    if k == |s| || s[k] == '\n' then k else LineEnd(s, k + 1)
  }

  /** The last ')' in s[lo..hi]. */
  function LastClose(s: string, lo: nat, hi: nat): (r: Option<nat>)
    requires lo <= hi <= |s|
    ensures r.Some? ==> lo <= r.value < hi && s[r.value] == ')'
    ensures r.Some? ==> forall m :: r.value < m < hi ==> s[m] != ')'
    ensures r.None? ==> forall m :: lo <= m < hi ==> s[m] != ')'
    decreases hi - lo
  {
    if lo == hi then None
    else if s[hi - 1] == ')' then Some(hi - 1)
    else LastClose(s, lo, hi - 1)
  }

  /** The first "$(" at or after from. */
  function FirstOpen(s: string, from: nat): (r: Option<nat>)
    requires from <= |s|
    ensures r.Some? ==> from <= r.value && OpensAt(s, r.value)
    ensures r.Some? ==> forall p :: from <= p < r.value ==> !OpensAt(s, p)
    ensures r.None? ==> forall p :: from <= p < |s| ==> !OpensAt(s, p)
    decreases |s| - from
  {
    if from == |s| then None
    else if OpensAt(s, from) then Some(from)
    else FirstOpen(s, from + 1)
  }

  /**
   * Where a match attempted at index i ends (exclusive): "$(" at i, then the
   * greedy `.*` runs to the end of the line and backs off to the last ')'.
   */
  function MatchEnd(s: string, i: nat): (r: Option<nat>)
    requires i <= |s|
    ensures r.Some? ==> OpensAt(s, i) && i + 3 <= r.value <= |s| && s[r.value - 1] == ')'
    ensures r.Some? ==> forall m :: i + 2 <= m < r.value - 1 ==> s[m] != '\n'
  {
    if !OpensAt(s, i) then None
    else match LastClose(s, i + 2, LineEnd(s, i + 2))
      case None => None
      case Some(j) => Some(j + 1)
  }

  /** The texts of the matches of `\$\(.*\)` in s, scanning from index from. */
  function MatchTextsFrom(s: string, from: nat): (texts: seq<string>)
    requires from <= |s|
    ensures forall t :: t in texts ==> |t| >= 3 && t[..2] == "$(" && t[|t| - 1] == ')'
    decreases |s| - from
  {
    if from == |s| then []
    else match MatchEnd(s, from)
      case Some(e) =>
        var t := s[from..e];
        assert t[..2] == "$(" && t[|t| - 1] == ')';
        [t] + MatchTextsFrom(s, e)
      case None => MatchTextsFrom(s, from + 1)
  }

  /** `Regex.Matches(s, @"\$\(.*\)")`, as the matched texts. */
  function MatchTexts(s: string): (texts: seq<string>)
    ensures forall t :: t in texts ==> |t| >= 3 && t[..2] == "$(" && t[|t| - 1] == ')'
  {
    MatchTextsFrom(s, 0)
  }

  /** `match.Substring(2, match.Length - 3)`: the text between "$(" and the final ')'. */
  function PropertyName(text: string): (name: string)
    requires |text| >= 3
    ensures |name| == |text| - 3
    ensures text[..2] == "$(" && text[|text| - 1] == ')' ==> text == "$(" + name + ")"
  {
    text[2..|text| - 1]
  }

  predicate OccursAt(s: string, t: string, p: nat)
  {
    p + |t| <= |s| && s[p..p + |t|] == t
  }

  /** Ordinal `s.Replace(oldValue, newValue)`: every occurrence, left to right, without overlap. */
  function Replace(s: string, oldValue: string, newValue: string): string
    requires |oldValue| > 0
    decreases |s|
  {
    if |s| < |oldValue| then s
    else if s[..|oldValue|] == oldValue then newValue + Replace(s[|oldValue|..], oldValue, newValue)
    else [s[0]] + Replace(s[1..], oldValue, newValue)
  }

  /** Replace leaves every prefix free of occurrences as it is. */
  lemma {:induction false} ReplaceSkip(s: string, t: string, v: string, k: nat)
    requires |t| > 0 && k <= |s|
    requires forall p :: 0 <= p < k ==> !OccursAt(s, t, p)
    ensures Replace(s, t, v) == s[..k] + Replace(s[k..], t, v)
    decreases k
  {
    if k > 0 && |s| >= |t| {
      assert !OccursAt(s, t, 0);
      forall p | 0 <= p < k - 1 ensures !OccursAt(s[1..], t, p) {
        assert !OccursAt(s, t, p + 1);
        if p + |t| <= |s| - 1 {
          assert s[1..][p..p + |t|] == s[p + 1..p + 1 + |t|];
        }
      }
      ReplaceSkip(s[1..], t, v, k - 1);
      assert s[1..][k - 1..] == s[k..];
      assert [s[0]] + s[1..][..k - 1] == s[..k];
    } else if k > 0 {
      assert Replace(s[k..], t, v) == s[k..];
    }
  }

  predicate NoOccurrence(s: string, t: string)
  {
    forall p :: 0 <= p < |s| ==> !OccursAt(s, t, p)
  }

  /** A text without occurrences of t is left unchanged. */
  lemma ReplaceAbsent(s: string, t: string, v: string)
    requires |t| > 0 && NoOccurrence(s, t)
    ensures Replace(s, t, v) == s
  {
    ReplaceSkip(s, t, v, |s|);
    assert s[..|s|] == s;
  }

  /** The version after resolving each match text in turn with the property bag. */
  function ResolveWith(version: string, texts: seq<string>, getProperty: string -> string): string
    requires forall t :: t in texts ==> |t| >= 3
    decreases |texts|
  {
    if texts == [] then version
    else ResolveWith(Replace(version, texts[0], getProperty(PropertyName(texts[0]))), texts[1..], getProperty)
  }

  /** Resolution of every placeholder match of the raw version. */
  function Resolve(raw: string, getProperty: string -> string): (r: string)
    ensures MatchTexts(raw) == [] ==> r == raw
  {
    ResolveWith(raw, MatchTexts(raw), getProperty)
  }

  /** Some "$(" is followed, later, by a ')'. */
  predicate HasPlaceholder(s: string)
  {
    exists i, j :: 0 <= i && i + 2 <= j < |s| && OpensAt(s, i) && s[j] == ')'
  }

  predicate SingleLine(s: string)
  {
    forall k :: 0 <= k < |s| ==> s[k] != '\n'
  }

  lemma {:induction false} NoMatchesFrom(s: string, from: nat)
    requires from <= |s|
    requires forall p :: from <= p < |s| ==> MatchEnd(s, p).None?
    ensures MatchTextsFrom(s, from) == []
    decreases |s| - from
  {
    if from < |s| {
      NoMatchesFrom(s, from + 1);
    }
  }

  lemma {:induction false} SkipToFirstOpen(s: string, from: nat, i: nat)
    requires from <= i <= |s|
    requires forall p :: from <= p < i ==> !OpensAt(s, p)
    ensures MatchTextsFrom(s, from) == MatchTextsFrom(s, i)
    decreases i - from
  {
    if from < i {
      SkipToFirstOpen(s, from + 1, i);
    }
  }

  lemma SingleLineEnd(s: string, p: nat)
    requires SingleLine(s) && p <= |s|
    ensures LineEnd(s, p) == |s|
  {
  }

  /** On a single line, the match attempted at a "$(" ends after the last ')' of the text, if that follows it. */
  lemma SingleLineMatchEnd(s: string, p: nat)
    requires SingleLine(s) && p < |s| && OpensAt(s, p)
    ensures LastClose(s, p + 2, |s|).None? ==> MatchEnd(s, p).None?
    ensures LastClose(s, p + 2, |s|).Some? ==> MatchEnd(s, p) == Some(LastClose(s, p + 2, |s|).value + 1)
  {
    SingleLineEnd(s, p + 2);
  }

  /** The witnesses of HasPlaceholder bound the first "$(" and the last ')'. */
  lemma PlaceholderBounds(s: string)
    requires HasPlaceholder(s)
    ensures FirstOpen(s, 0).Some? && LastClose(s, 0, |s|).Some?
    ensures FirstOpen(s, 0).value + 2 <= LastClose(s, 0, |s|).value
  {
    var i', j' :| 0 <= i' && i' + 2 <= j' < |s| && OpensAt(s, i') && s[j'] == ')';
  }

  /** The last ')' of s[lo..hi] is the one with none after it. */
  lemma LastCloseAt(s: string, lo: nat, hi: nat, j: nat)
    requires lo <= j < hi <= |s| && s[j] == ')'
    requires forall q :: j < q < hi ==> s[q] != ')'
    ensures LastClose(s, lo, hi) == Some(j)
  {
  }

  /** On a single line, the match at a "$(" ends after the last ')' when that follows the "$(". */
  lemma MatchEndBetween(s: string, i: nat, j: nat)
    requires SingleLine(s) && i + 2 <= j < |s|
    requires OpensAt(s, i) && s[j] == ')'
    requires forall q :: j < q < |s| ==> s[q] != ')'
    ensures MatchEnd(s, i) == Some(j + 1)
  {
    SingleLineMatchEnd(s, i);
    LastCloseAt(s, i + 2, |s|, j);
  }

  /** A match found at i is the first text from i on. */
  lemma MatchTextsAt(s: string, i: nat, e: nat)
    requires i < |s| && MatchEnd(s, i) == Some(e)
    ensures MatchTextsFrom(s, i) == [s[i..e]] + MatchTextsFrom(s, e)
  {
  }

  /** On a single line, no match starts after the last ')'. */
  lemma NoMatchAfterLastClose(s: string, j: nat)
    requires SingleLine(s) && j < |s|
    requires forall q :: j < q < |s| ==> s[q] != ')'
    ensures MatchTextsFrom(s, j + 1) == []
  {
    forall p | j + 1 <= p < |s| ensures MatchEnd(s, p).None? {
      if OpensAt(s, p) {
        SingleLineMatchEnd(s, p);
      }
    }
    NoMatchesFrom(s, j + 1);
  }

  /**
   * On a single line whose first "$(" is at i and whose last ')' is at j,
   * with j after the "$(", the only match is s[i..j + 1].
   */
  lemma MatchBetween(s: string, i: nat, j: nat)
    requires SingleLine(s) && i + 2 <= j < |s|
    requires OpensAt(s, i) && s[j] == ')'
    requires forall q :: 0 <= q < i ==> !OpensAt(s, q)
    requires forall q :: j < q < |s| ==> s[q] != ')'
    ensures MatchTexts(s) == [s[i..j + 1]]
  {
    MatchEndBetween(s, i, j);
    SkipToFirstOpen(s, 0, i);
    MatchTextsAt(s, i, j + 1);
    NoMatchAfterLastClose(s, j);
  }

  lemma NoCloseAfterOpen(s: string, p: nat)
    requires !HasPlaceholder(s) && OpensAt(s, p)
    ensures forall j :: p + 2 <= j < |s| ==> s[j] != ')'
  {
  }

  lemma SingleLineNoMatch(s: string)
    requires SingleLine(s) && !HasPlaceholder(s)
    ensures MatchTexts(s) == []
  {
    forall p | 0 <= p < |s| ensures MatchEnd(s, p).None? {
      if OpensAt(s, p) {
        SingleLineMatchEnd(s, p);
        NoCloseAfterOpen(s, p);
      }
    }
    NoMatchesFrom(s, 0);
  }

  /** On a single-line version with a placeholder, the one match runs from the first "$(" to the last ')'. */
  lemma SingleLineMatch(s: string)
    requires SingleLine(s) && HasPlaceholder(s)
    ensures FirstOpen(s, 0).Some? && LastClose(s, 0, |s|).Some?
    ensures FirstOpen(s, 0).value + 2 <= LastClose(s, 0, |s|).value
    ensures MatchTexts(s) == [s[FirstOpen(s, 0).value..LastClose(s, 0, |s|).value + 1]]
  {
    PlaceholderBounds(s);
    MatchBetween(s, FirstOpen(s, 0).value, LastClose(s, 0, |s|).value);
  }

  /**
   * On a single-line version the greedy regular expression matches at most
   * once: from the first "$(" to the last ')', when that ')' lies after it.
   */
  lemma SingleLineMatches(s: string)
    requires SingleLine(s)
    ensures MatchTexts(s) == [] <==> !HasPlaceholder(s)
    ensures HasPlaceholder(s) ==>
      && FirstOpen(s, 0).Some? && LastClose(s, 0, |s|).Some?
      && FirstOpen(s, 0).value + 2 <= LastClose(s, 0, |s|).value
      && MatchTexts(s) == [s[FirstOpen(s, 0).value..LastClose(s, 0, |s|).value + 1]]
  {
    if HasPlaceholder(s) {
      SingleLineMatch(s);
    } else {
      SingleLineNoMatch(s);
    }
  }

  /**
   * On a single-line version with a placeholder, resolution replaces the
   * text from the first "$(" to the last ')' by the value of the property
   * named between them, and keeps the rest.
   */
  lemma SingleLineResolution(s: string, getProperty: string -> string)
    requires SingleLine(s) && HasPlaceholder(s)
    ensures FirstOpen(s, 0).Some? && LastClose(s, 0, |s|).Some?
    ensures var i, j := FirstOpen(s, 0).value, LastClose(s, 0, |s|).value;
      i + 2 <= j && Resolve(s, getProperty) == s[..i] + getProperty(s[i + 2..j]) + s[j + 1..]
  {
    SingleLineMatches(s);
    var i, j := FirstOpen(s, 0).value, LastClose(s, 0, |s|).value;
    assert MatchTexts(s) == [s[i..j + 1]];
    ResolveBetween(s, i, j, getProperty);
    assert Resolve(s, getProperty) == s[..i] + getProperty(s[i + 2..j]) + s[j + 1..];
  }

  /** The single match s[i..j + 1], with no "$(" before i and no ')' after j, is resolved in place. */
  lemma ResolveBetween(s: string, i: nat, j: nat, getProperty: string -> string)
    requires i + 2 <= j < |s| && MatchTexts(s) == [s[i..j + 1]]
    requires OpensAt(s, i) && s[j] == ')'
    requires forall q :: 0 <= q < i ==> !OpensAt(s, q)
    requires forall q :: j < q < |s| ==> s[q] != ')'
    ensures Resolve(s, getProperty) == s[..i] + getProperty(s[i + 2..j]) + s[j + 1..]
  {
    var m := s[i..j + 1];
    ResolveOneMatch(s, m, getProperty);
    PropertyNameOfSlice(s, i, j);
    var v := getProperty(s[i + 2..j]);
    forall p | 0 <= p < i ensures !OccursAt(s, m, p) {
      NoOccurrenceBeforeFirstOpen(s, m, i, p);
    }
    var post := s[j + 1..];
    forall p | 0 <= p < |post| ensures !OccursAt(post, m, p) {
      NoOccurrenceAfterLastClose(s, m, j, p);
    }
    assert s[i + |m|..] == post;
    ReplaceOnce(s, m, v, i);
  }

  lemma PropertyNameOfSlice(s: string, i: nat, j: nat)
    requires i + 2 <= j < |s|
    ensures PropertyName(s[i..j + 1]) == s[i + 2..j]
  {
    var m := s[i..j + 1];
    assert |m| - 1 == j - i;
    var name := m[2..|m| - 1];
    assert |name| == |s[i + 2..j]|;
    forall k | 0 <= k < |name| ensures name[k] == s[i + 2..j][k] {
      assert name[k] == m[k + 2];
    }
  }

  lemma ResolveOneMatch(s: string, m: string, getProperty: string -> string)
    requires MatchTexts(s) == [m]
    ensures |m| >= 3 && Resolve(s, getProperty) == Replace(s, m, getProperty(PropertyName(m)))
  {
    assert m in MatchTexts(s);
    assert Resolve(s, getProperty) == ResolveWith(s, [m], getProperty);
    assert [m][1..] == [];
  }

  /** An occurrence of a text that starts with "$(" starts at a "$(". */
  lemma NoOccurrenceBeforeFirstOpen(s: string, m: string, i: nat, p: nat)
    requires |m| >= 2 && m[..2] == "$(" && p < i
    requires forall q :: 0 <= q < i ==> !OpensAt(s, q)
    ensures !OccursAt(s, m, p)
  {
    if p + |m| <= |s| {
      assert !OpensAt(s, p);
      assert s[p..p + |m|][0] == s[p] && s[p..p + |m|][1] == s[p + 1];
      assert m[0] == '$' && m[1] == '(';
    }
  }

  /** No occurrence of a text ending in ')' lies wholly after the last ')'. */
  lemma NoOccurrenceAfterLastClose(s: string, m: string, j: nat, p: nat)
    requires |m| >= 1 && m[|m| - 1] == ')' && j < |s|
    requires forall q :: j < q < |s| ==> s[q] != ')'
    ensures !OccursAt(s[j + 1..], m, p)
  {
    var post := s[j + 1..];
    if p + |m| <= |post| {
      assert post[p..p + |m|][|m| - 1] == s[j + 1 + p + |m| - 1] != ')';
    }
  }

  /** A single occurrence, at i, is replaced and everything else kept. */
  lemma ReplaceOnce(s: string, m: string, v: string, i: nat)
    requires |m| > 0 && i + |m| <= |s| && s[i..i + |m|] == m
    requires forall p :: 0 <= p < i ==> !OccursAt(s, m, p)
    requires NoOccurrence(s[i + |m|..], m)
    ensures Replace(s, m, v) == s[..i] + v + s[i + |m|..]
  {
    ReplaceSkip(s, m, v, i);
    var rest := s[i..];
    assert rest[..|m|] == m;
    assert rest[|m|..] == s[i + |m|..];
    ReplaceAbsent(s[i + |m|..], m, v);
  }
}
