/**
 * The name validator and the command-line tokenizer of internal/utils/utils.go.
 * Both are fixed regular expressions in the source; here each pattern is
 * written out as character-class checks, and the tokenizer's scan
 * (`FindAllStringSubmatch`) as a recursive function.
 */
module Utils {
  import opened Wrappers

  /** RE2's `\s`: `[\t\n\f\r ]`. */
  predicate IsRegexSpace(c: char) {
    c == '\t' || c == '\n' || c == '\U{0C}' || c == '\r' || c == ' '
  }

  /**
   * `unicode.IsSpace`, the set `strings.TrimSpace` strips: RE2's `\s`, the
   * vertical tab, NEL, NO-BREAK SPACE and the other Unicode White_Space
   * characters.
   */
  predicate IsSpace(c: char) {
    || IsRegexSpace(c)
    || c == '\U{0B}' || c == '\U{85}' || c == '\U{A0}' || c == '\U{1680}'
    || ('\U{2000}' <= c <= '\U{200A}')
    || c == '\U{2028}' || c == '\U{2029}' || c == '\U{202F}' || c == '\U{205F}' || c == '\U{3000}'
  }

  /** `[a-zA-Z0-9._-]` */
  predicate IsNameChar(c: char) {
    ('a' <= c <= 'z') || ('A' <= c <= 'Z') || ('0' <= c <= '9') || c == '.' || c == '_' || c == '-'
  }

  /** `['"]` */
  predicate IsQuote(c: char) {
    c == '\'' || c == '"'
  }

  /** The second alternative of the validator: `[a-zA-Z0-9._-]{1,255}`. */
  predicate IsBareName(s: string) {
    1 <= |s| <= 255 && forall i :: 0 <= i < |s| ==> IsNameChar(s[i])
  }

  /**
   * The first alternative: `['"][a-zA-Z0-9._\s-]{1,255}['"]`. The two quotes
   * need not be the same character.
   */
  predicate IsQuotedName(s: string) {
    && 3 <= |s| <= 257
    && IsQuote(s[0]) && IsQuote(s[|s| - 1])
    && forall i :: 0 < i < |s| - 1 ==> IsNameChar(s[i]) || IsRegexSpace(s[i])
  }

  /**
   * `ValidateString`: the whole string matches
   * `^(['"][a-zA-Z0-9._\s-]{1,255}['"]|[a-zA-Z0-9._-]{1,255})$`.
   */
  predicate ValidateString(s: string): (ok: bool)
    ensures ok ==> 1 <= |s| <= 257
    ensures ok ==> forall i :: 0 <= i < |s| ==> IsNameChar(s[i]) || IsQuote(s[i]) || IsRegexSpace(s[i])
    ensures ok && !IsQuote(s[0]) ==> |s| <= 255 && forall i :: 0 <= i < |s| ==> IsNameChar(s[i])
  {
    IsQuotedName(s) || IsBareName(s)
  }

  /** A name that does not start with a quote is accepted exactly when it is 1-255 name characters. */
  lemma ValidateUnquoted(s: string)
    requires |s| > 0 && !IsQuote(s[0])
    ensures ValidateString(s) <==> |s| <= 255 && forall i :: 0 <= i < |s| ==> IsNameChar(s[i])
  {
  }

  /**
   * A name that starts with a quote is accepted exactly when it also ends with
   * one (of either kind) and the 1-255 characters between are name characters
   * or RE2 whitespace.
   */
  lemma ValidateQuoted(s: string)
    requires |s| > 0 && IsQuote(s[0])
    ensures ValidateString(s) <==>
            && 3 <= |s| <= 257 && IsQuote(s[|s| - 1])
            && forall i :: 0 < i < |s| - 1 ==> IsNameChar(s[i]) || IsRegexSpace(s[i])
  {
    assert !IsBareName(s) by {
      assert !IsNameChar(s[0]);
    }
  }

  /**
   * Whitespace is admitted only inside quotes: text with a space is rejected
   * bare and accepted once wrapped in either kind of quotes.
   */
  lemma QuotingAdmitsSpaces(t: string, open: char, close: char)
    requires 1 <= |t| <= 255 && ' ' in t
    requires forall i :: 0 <= i < |t| ==> IsNameChar(t[i]) || IsRegexSpace(t[i])
    requires IsQuote(open) && IsQuote(close)
    ensures !ValidateString(t)
    ensures ValidateString([open] + t + [close])
  {
    var s := [open] + t + [close];
    assert forall i :: 0 < i < |s| - 1 ==> s[i] == t[i - 1];
    assert IsQuotedName(s);
  }

  /** The length limit: 255 name characters are accepted, 256 are not. */
  lemma ValidateLengthLimit(s: string)
    requires forall i :: 0 <= i < |s| ==> IsNameChar(s[i])
    ensures ValidateString(s) <==> 1 <= |s| <= 255
  {
    if |s| > 0 {
      ValidateUnquoted(s);
    }
  }

  // ---------------------------------------------------------------------
  // strings.TrimSpace
  // ---------------------------------------------------------------------

  /** The number of `unicode.IsSpace` characters at the start of `s`. */
  function LeadingSpaces(s: string): (n: nat)
    ensures n <= |s|
    ensures forall k :: 0 <= k < n ==> IsSpace(s[k])
    ensures n < |s| ==> !IsSpace(s[n])
  {
    if |s| > 0 && IsSpace(s[0]) then 1 + LeadingSpaces(s[1..]) else 0
  }

  function TrimRight(s: string): (r: string)
    ensures |r| <= |s| && r == s[..|r|]
    ensures forall k :: |r| <= k < |s| ==> IsSpace(s[k])
    ensures |r| > 0 ==> !IsSpace(r[|r| - 1])
  {
    if |s| > 0 && IsSpace(s[|s| - 1]) then TrimRight(s[..|s| - 1]) else s
  }

  /**
   * `strings.TrimSpace`: `s` with its leading and trailing `unicode.IsSpace`
   * characters removed and nothing else: the result is the slice of `s` after
   * the leading spaces, everything after it is a space too, and it neither
   * starts nor ends with a space.
   */
  function TrimSpace(s: string): (r: string)
    ensures LeadingSpaces(s) + |r| <= |s| && r == s[LeadingSpaces(s)..LeadingSpaces(s) + |r|]
    ensures forall k :: LeadingSpaces(s) + |r| <= k < |s| ==> IsSpace(s[k])
    ensures |r| > 0 ==> !IsSpace(r[0]) && !IsSpace(r[|r| - 1])
  {
    var n := LeadingSpaces(s);
    var r := TrimRight(s[n..]);
    assert s[n..][..|r|] == s[n..n + |r|];
    assert forall k :: n + |r| <= k < |s| ==> s[k] == s[n..][k - n];
    r
  }

  /**
   * The contract of `TrimSpace` determines it: any slice of `s` that leaves
   * out only spaces and neither starts nor ends with one is the result.
   */
  lemma TrimSpaceUnique(s: string, a: nat, b: nat)
    requires a <= b <= |s|
    requires forall k :: (0 <= k < a || b <= k < |s|) ==> IsSpace(s[k])
    requires a < b ==> !IsSpace(s[a]) && !IsSpace(s[b - 1])
    ensures TrimSpace(s) == s[a..b]
  {
    var r := TrimSpace(s);
    var n := LeadingSpaces(s);
    if a < b {
      assert n == a;
    }
  }

  /** Text made only of spaces trims to "". */
  lemma TrimSpaceBlank(s: string)
    requires forall k :: 0 <= k < |s| ==> IsSpace(s[k])
    ensures TrimSpace(s) == []
  {
  }

  /** A first character that is not a space survives trimming. */
  lemma TrimSpaceKeepsFirst(s: string)
    requires |s| > 0 && !IsSpace(s[0])
    ensures |TrimSpace(s)| > 0 && TrimSpace(s)[0] == s[0]
  {
  }

  /** Every character of `TrimSpace(s)` is a character of `s`. */
  lemma TrimSpaceChars(s: string)
    ensures forall c :: c in TrimSpace(s) ==> c in s
  {
    var n := LeadingSpaces(s);
    var r := TrimSpace(s);
    forall c | c in r ensures c in s {
      var k :| 0 <= k < |r| && r[k] == c;
      assert s[n + k] == c;
    }
  }

  // ---------------------------------------------------------------------
  // ParseInput
  // ---------------------------------------------------------------------

  /**
   * One element of `FindAllStringSubmatch`: `whole` is `match[0]`, `group`
   * is `match[1]`, which is "" when the `\S+` alternative matched.
   */
  datatype Match = Match(whole: string, group: string)

  /**
   * Where the lazy `["'](.*?)["']` closes when the opening quote sits just
   * before `j`: the first quote of either kind at or after `j`. `.` does not
   * match a newline, so a newline before any quote means there is no match.
   */
  function ClosingQuote(s: string, j: nat): (r: Option<nat>)
    requires j <= |s|
    ensures r.Some? ==> j <= r.value < |s| && IsQuote(s[r.value])
    ensures r.Some? ==> forall k :: j <= k < r.value ==> !IsQuote(s[k]) && s[k] != '\n'
    ensures r.None? ==> forall k :: j <= k < |s| && IsQuote(s[k]) ==> '\n' in s[j..k]
    decreases |s| - j
  {
    if j == |s| then None
    else if IsQuote(s[j]) then Some(j)
    else if s[j] == '\n' then None
    else
      var r := ClosingQuote(s, j + 1);
      assert r.None? ==> forall k :: j + 1 <= k < |s| && IsQuote(s[k]) ==> '\n' in s[j..k] by {
        forall k | j + 1 <= k < |s| && IsQuote(s[k]) && r.None? ensures '\n' in s[j..k] {
          var m :| m in s[j + 1..k] && m == '\n';
          assert s[j + 1..k] == s[j..k][1..];
        }
      }
      r
  }

  /** The end of the greedy `\S+` run that starts at `j`. */
  function RunEnd(s: string, j: nat): (e: nat)
    requires j <= |s|
    ensures j <= e <= |s|
    ensures forall k :: j <= k < e ==> !IsRegexSpace(s[k])
    ensures e == |s| || IsRegexSpace(s[e])
    decreases |s| - j
  {
    if j == |s| || IsRegexSpace(s[j]) then j else RunEnd(s, j + 1)
  }

  /** A match of the first alternative: a quoted segment and its content. */
  ghost predicate QuotedMatch(m: Match) {
    && |m.whole| >= 2 && IsQuote(m.whole[0]) && IsQuote(m.whole[|m.whole| - 1])
    && m.group == m.whole[1..|m.whole| - 1]
  }

  /** A match of the second alternative: a run of non-whitespace, no group. */
  ghost predicate BareMatch(m: Match) {
    && |m.whole| > 0 && m.group == []
    && forall k :: 0 <= k < |m.whole| ==> !IsRegexSpace(m.whole[k])
  }

  /**
   * The match RE2 makes at a non-whitespace position `p`: a quote that a
   * later quote closes starts a quoted segment (the first alternative wins),
   * anything else the greedy `\S+` run.
   */
  function MatchFrom(s: string, p: nat): (m: Match)
    requires p < |s| && !IsRegexSpace(s[p])
    ensures 0 < |m.whole| <= |s| - p && m.whole == s[p..p + |m.whole|]
  {
    if IsQuote(s[p]) && ClosingQuote(s, p + 1).Some? then
      var k := ClosingQuote(s, p + 1).value;
      Match(s[p..k + 1], s[p + 1..k])
    else
      Match(s[p..RunEnd(s, p)], "")
  }

  /** The match at any position is one of the two alternatives. */
  lemma MatchFromShape(s: string, p: nat)
    requires p < |s| && !IsRegexSpace(s[p])
    ensures QuotedMatch(MatchFrom(s, p)) || BareMatch(MatchFrom(s, p))
  {
    if IsQuote(s[p]) && ClosingQuote(s, p + 1).Some? {
      QuotedSlice(s, p, ClosingQuote(s, p + 1).value);
    } else {
      BareSlice(s, p, RunEnd(s, p));
    }
  }


  /** The text between two quotes is the group of the match they delimit. */
  lemma QuotedSlice(s: string, i: nat, k: nat)
    requires i < k < |s| && IsQuote(s[i]) && IsQuote(s[k])
    ensures QuotedMatch(Match(s[i..k + 1], s[i + 1..k]))
  {
    var w := s[i..k + 1];
    var g := w[1..|w| - 1];
    assert forall j :: 0 <= j < |g| ==> g[j] == s[i + 1 + j];
  }

  /** The run of non-whitespace from `i` is a match of the second alternative. */
  lemma BareSlice(s: string, i: nat, e: nat)
    requires i < |s| && !IsRegexSpace(s[i]) && e == RunEnd(s, i)
    ensures BareMatch(Match(s[i..e], ""))
  {
    var w := s[i..e];
    assert forall j :: 0 <= j < |w| ==> w[j] == s[i + j];
  }

  /** At a quote that a later quote closes, the match is the quoted segment. */
  lemma MatchFromQuoted(s: string, p: nat, c: nat)
    requires p < |s| && IsQuote(s[p]) && ClosingQuote(s, p + 1) == Some(c)
    ensures MatchFrom(s, p) == Match(s[p..c + 1], s[p + 1..c])
  {
  }

  /** Anywhere else, the match is the run of non-whitespace from `p`. */
  lemma MatchFromBare(s: string, p: nat)
    requires p < |s| && !IsRegexSpace(s[p])
    requires !IsQuote(s[p]) || ClosingQuote(s, p + 1).None?
    ensures MatchFrom(s, p) == Match(s[p..RunEnd(s, p)], "")
  {
  }

  /** `m` is the match RE2 makes when its scan reaches position `p`. */
  ghost predicate MatchAt(s: string, p: nat, m: Match) {
    p < |s| && !IsRegexSpace(s[p]) && m == MatchFrom(s, p)
  }

  /**
   * `regexp.FindAllStringSubmatch(s[i..], -1)` for ``["'](.*?)["']|\S+``.
   * RE2 picks the leftmost match and, there, the first alternative that
   * matches. Neither alternative matches at whitespace, and the empty string
   * matches neither, so the scan skips whitespace and resumes after each match.
   */
  function FindAll(s: string, i: nat): (ms: seq<Match>)
    requires i <= |s|
    ensures forall j :: 0 <= j < |ms| ==> QuotedMatch(ms[j]) || BareMatch(ms[j])
    decreases |s| - i
  {
    if i == |s| then []
    else if IsRegexSpace(s[i]) then FindAll(s, i + 1)
    else
      var m := MatchFrom(s, i);
      MatchFromShape(s, i);
      [m] + FindAll(s, i + |m.whole|)
  }

  /** The positions where the scan from `i` starts a match, in scan order. */
  ghost function MatchStarts(s: string, i: nat): seq<nat>
    requires i <= |s|
    decreases |s| - i
  {
    if i == |s| then []
    else if IsRegexSpace(s[i]) then MatchStarts(s, i + 1)
    else [i] + MatchStarts(s, i + |MatchFrom(s, i).whole|)
  }

  /** Position `q` lies inside the text of the `k`-th match, for some `k`. */
  ghost predicate Spanned(ps: seq<nat>, ms: seq<Match>, q: nat) {
    exists k :: 0 <= k < |ps| && k < |ms| && ps[k] <= q < ps[k] + |ms[k].whole|
  }

  /** One step of the scan at a non-whitespace position `i`. */
  lemma FindAllStep(s: string, i: nat)
    requires i < |s| && !IsRegexSpace(s[i])
    ensures MatchStarts(s, i) == [i] + MatchStarts(s, i + |MatchFrom(s, i).whole|)
    ensures FindAll(s, i) == [MatchFrom(s, i)] + FindAll(s, i + |MatchFrom(s, i).whole|)
  {
  }

  /** Putting the match at `i` in front of the matches that start after it. */
  lemma StartsStep(s: string, i: nat, m: Match, ps: seq<nat>, ms: seq<Match>)
    requires MatchAt(s, i, m) && |ps| == |ms|
    requires forall k :: 0 <= k < |ps| ==> i + |m.whole| <= ps[k] && MatchAt(s, ps[k], ms[k])
    ensures forall k :: 0 <= k < |ps| + 1 ==>
      i <= ([i] + ps)[k] && MatchAt(s, ([i] + ps)[k], ([m] + ms)[k])
  {
    forall k | 0 <= k < |ps| + 1
      ensures i <= ([i] + ps)[k] && MatchAt(s, ([i] + ps)[k], ([m] + ms)[k])
    {
      if k > 0 {
        assert ([i] + ps)[k] == ps[k - 1] && ([m] + ms)[k] == ms[k - 1];
      }
    }
  }

  /** Putting a match that ends before the first start in front keeps the matches apart. */
  lemma OrderedStep(i: nat, m: Match, ps: seq<nat>, ms: seq<Match>)
    requires |ps| > 0 ==> i + |m.whole| <= ps[0]
    requires forall k :: 0 <= k < |ps| - 1 && k < |ms| ==> ps[k] + |ms[k].whole| <= ps[k + 1]
    ensures forall k :: 0 <= k < |ps| && k < |ms| + 1 ==>
      ([i] + ps)[k] + |([m] + ms)[k].whole| <= ([i] + ps)[k + 1]
  {
    forall k | 0 <= k < |ps| && k < |ms| + 1
      ensures ([i] + ps)[k] + |([m] + ms)[k].whole| <= ([i] + ps)[k + 1]
    {
      if k > 0 {
        assert ([i] + ps)[k] == ps[k - 1] && ([m] + ms)[k] == ms[k - 1];
      }
    }
  }

  /** The `k`-th match of the scan from `i` is the match RE2 makes at the `k`-th start. */
  lemma {:induction false} FindAllStarts(s: string, i: nat)
    requires i <= |s|
    ensures |MatchStarts(s, i)| == |FindAll(s, i)|
    ensures forall k :: 0 <= k < |MatchStarts(s, i)| ==>
      i <= MatchStarts(s, i)[k] && MatchAt(s, MatchStarts(s, i)[k], FindAll(s, i)[k])
    decreases |s| - i
  {
    if i == |s| {
    } else if IsRegexSpace(s[i]) {
      FindAllStarts(s, i + 1);
    } else {
      var m := MatchFrom(s, i);
      var e := i + |m.whole|;
      var ps, ms := MatchStarts(s, e), FindAll(s, e);
      FindAllStep(s, i);
      FindAllStarts(s, e);
      StartsStep(s, i, m, ps, ms);
    }
  }

  /** Each match of the scan from `i` ends at or before the next one starts. */
  lemma {:induction false} FindAllOrdered(s: string, i: nat)
    requires i <= |s|
    ensures forall k :: 0 <= k < |MatchStarts(s, i)| - 1 && k < |FindAll(s, i)| ==>
      MatchStarts(s, i)[k] + |FindAll(s, i)[k].whole| <= MatchStarts(s, i)[k + 1]
    decreases |s| - i
  {
    if i == |s| {
    } else if IsRegexSpace(s[i]) {
      FindAllOrdered(s, i + 1);
    } else {
      var m := MatchFrom(s, i);
      var e := i + |m.whole|;
      var ps, ms := MatchStarts(s, e), FindAll(s, e);
      FindAllStep(s, i);
      FindAllOrdered(s, e);
      assert |ps| > 0 ==> e <= ps[0] by {
        FindAllStarts(s, e);
      }
      OrderedStep(i, m, ps, ms);
    }
  }

  /** Every character of `s[i..]` that no match of the scan covers is RE2 whitespace. */
  lemma {:induction false} FindAllCovers(s: string, i: nat)
    requires i <= |s|
    ensures Covers(s, i, MatchStarts(s, i), FindAll(s, i))
    decreases |s| - i
  {
    if i == |s| {
    } else if IsRegexSpace(s[i]) {
      FindAllCovers(s, i + 1);
      CoversBlankStep(s, i, MatchStarts(s, i + 1), FindAll(s, i + 1));
    } else {
      var m := MatchFrom(s, i);
      var e := i + |m.whole|;
      var ps, ms := MatchStarts(s, e), FindAll(s, e);
      FindAllStep(s, i);
      FindAllCovers(s, e);
      CoversStep(s, i, m, ps, ms);
    }
  }

  /** Every character of `s[i..]` that is not RE2 whitespace lies inside one of the matches. */
  ghost predicate Covers(s: string, i: nat, ps: seq<nat>, ms: seq<Match>) {
    forall q {:trigger Spanned(ps, ms, q)} :: i <= q < |s| && !IsRegexSpace(s[q]) ==> Spanned(ps, ms, q)
  }

  /** A whitespace character in front needs no match. */
  lemma CoversBlankStep(s: string, i: nat, ps: seq<nat>, ms: seq<Match>)
    requires i < |s| && IsRegexSpace(s[i]) && Covers(s, i + 1, ps, ms)
    ensures Covers(s, i, ps, ms)
  {
  }

  /** Putting a match that spans `s[i..e]` in front extends coverage from `s[e..]` to `s[i..]`. */
  lemma CoversStep(s: string, i: nat, m: Match, ps: seq<nat>, ms: seq<Match>)
    requires i + |m.whole| <= |s| && Covers(s, i + |m.whole|, ps, ms)
    ensures Covers(s, i, [i] + ps, [m] + ms)
  {
    forall q | i <= q < |s| && !IsRegexSpace(s[q])
      ensures Spanned([i] + ps, [m] + ms, q)
    {
      if q < i + |m.whole| {
        SpannedHead(i, m, ps, ms, q);
      } else {
        SpannedCons(i, m, ps, ms, q);
      }
    }
  }

  /** A position inside a match is inside the first of the matches it heads. */
  lemma SpannedHead(p: nat, m: Match, ps: seq<nat>, ms: seq<Match>, q: nat)
    requires p <= q < p + |m.whole|
    ensures Spanned([p] + ps, [m] + ms, q)
  {
    assert ([p] + ps)[0] == p && ([m] + ms)[0] == m;
  }

  /** A position inside a later match stays inside it when a match is put in front. */
  lemma SpannedCons(p: nat, m: Match, ps: seq<nat>, ms: seq<Match>, q: nat)
    requires Spanned(ps, ms, q)
    ensures Spanned([p] + ps, [m] + ms, q)
  {
    var k :| 0 <= k < |ps| && k < |ms| && ps[k] <= q < ps[k] + |ms[k].whole|;
    assert ([p] + ps)[k + 1] == ps[k] && ([m] + ms)[k + 1] == ms[k];
  }

  /**
   * The matches of the scan from `i` tile the text: the `k`-th is the match
   * RE2 makes at its start, each ends at or before the next one starts, and
   * every character of `s[i..]` outside them is RE2 whitespace.
   */
  lemma FindAllTiles(s: string, i: nat)
    requires i <= |s|
    ensures |MatchStarts(s, i)| == |FindAll(s, i)|
    ensures forall k :: 0 <= k < |MatchStarts(s, i)| ==>
      i <= MatchStarts(s, i)[k] && MatchAt(s, MatchStarts(s, i)[k], FindAll(s, i)[k])
    ensures forall k :: 0 <= k < |MatchStarts(s, i)| - 1 ==>
      MatchStarts(s, i)[k] + |FindAll(s, i)[k].whole| <= MatchStarts(s, i)[k + 1]
    ensures forall q :: i <= q < |s| && !IsRegexSpace(s[q]) ==>
      Spanned(MatchStarts(s, i), FindAll(s, i), q)
  {
    FindAllStarts(s, i);
    FindAllOrdered(s, i);
    FindAllCovers(s, i);
  }

  /** Leading whitespace produces no match. */
  lemma {:induction false} FindAllSkipsBlanks(s: string, i: nat)
    requires i <= |s|
    requires forall k :: 0 <= k < i ==> IsRegexSpace(s[k])
    ensures FindAll(s, 0) == FindAll(s, i)
    decreases i
  {
    if i > 0 {
      FindAllSkipsBlanks(s, i - 1);
    }
  }

  /**
   * The loop body of `ParseInput` for one match. It trims both parts; a match
   * starting with a quote yields its trimmed group, re-quoted with `"` when
   * it holds a space; any other match yields its trimmed text. `None` is the
   * run-time panic of `match[0][0]` on a match that trims to "".
   */
  function ArgOf(m: Match): (r: Option<string>)
    ensures r.None? <==> TrimSpace(m.whole) == []
    ensures r.Some? ==> forall c :: c in r.value ==> c in m.whole || c in m.group || c == '"'
  {
    var whole := TrimSpace(m.whole);
    var group := TrimSpace(m.group);
    TrimSpaceChars(m.whole);
    TrimSpaceChars(m.group);
    if |whole| == 0 then None
    else if IsQuote(whole[0]) then
      if ' ' !in group then Some(group) else Some("\"" + group + "\"")
    else Some(whole)
  }

  /**
   * For a quoted match, the argument is the trimmed group, wrapped in `"`
   * exactly when it contains a space.
   */
  lemma ArgOfQuoted(m: Match)
    requires QuotedMatch(m)
    ensures var g := TrimSpace(m.group);
            ArgOf(m) == Some(if ' ' in g then "\"" + g + "\"" else g)
  {
    QuotedUntrimmed(m);
  }

  /** A quoted match starts and ends with a quote, so trimming keeps it whole. */
  lemma QuotedUntrimmed(m: Match)
    requires QuotedMatch(m)
    ensures TrimSpace(m.whole) == m.whole
  {
    TrimSpaceUnique(m.whole, 0, |m.whole|);
  }

  /**
   * For a bare match, the argument is the trimmed run, or "" when that starts
   * with a quote (the group is unmatched); a run that trims to "" panics.
   */
  lemma ArgOfBare(m: Match)
    requires BareMatch(m)
    ensures var w := TrimSpace(m.whole);
            ArgOf(m) == if w == [] then None else if IsQuote(w[0]) then Some([]) else Some(w)
  {
    assert TrimSpace(m.group) == [];
  }

  /** `f` applied to each element in order, or `None` as soon as one application fails. */
  function MapAll<A, B>(xs: seq<A>, f: A -> Option<B>): (r: Option<seq<B>>)
    ensures r.Some? <==> forall k :: 0 <= k < |xs| ==> f(xs[k]).Some?
    ensures r.Some? ==> |r.value| == |xs| && forall k :: 0 <= k < |xs| ==> f(xs[k]) == Some(r.value[k])
  {
    if xs == [] then Some([])
    else
      var init := MapAll(xs[..|xs| - 1], f);
      var last := f(xs[|xs| - 1]);
      if init.None? || last.None? then None else Some(init.value + [last.value])
  }

  /** The arguments collected from `ms` in order, or `None` if the loop panics. */
  function ArgsOf(ms: seq<Match>): Option<seq<string>> {
    MapAll(ms, ArgOf)
  }

  /** What `ParseInput` computes: its argument list, or `None` where it panics. */
  function Parse(input: string): Option<seq<string>> {
    ArgsOf(FindAll(input, 0))
  }

  /** `ParseInput`: scans the matches left to right and post-processes each. */
  method ParseInput(input: string) returns (args: Option<seq<string>>)
    ensures args == Parse(input)
  {
    var matches := FindAll(input, 0);
    var collected: seq<string> := [];
    for i := 0 to |matches|
      invariant ArgsOf(matches[..i]) == Some(collected)
    {
      ArgsOfStep(matches, i);
      var whole := TrimSpace(matches[i].whole);
      var group := TrimSpace(matches[i].group);
      if |whole| == 0 {
        // match[0][0] is out of range: the Go program panics here.
        ArgsNoneExtends(matches, i + 1);
        return None;
      }
      var arg: string;
      if IsQuote(whole[0]) {
        if ' ' !in group {
          arg := group;
        } else {
          arg := "\"" + group + "\"";
        }
      } else {
        arg := whole;
      }
      collected := collected + [arg];
    }
    assert matches[..|matches|] == matches;
    args := Some(collected);
  }

  /** One more iteration of the loop extends the collected arguments by one. */
  lemma ArgsOfStep(ms: seq<Match>, i: nat)
    requires i < |ms|
    ensures ArgsOf(ms[..i + 1]) ==
            if ArgsOf(ms[..i]).None? || ArgOf(ms[i]).None? then None
            else Some(ArgsOf(ms[..i]).value + [ArgOf(ms[i]).value])
  {
    assert ms[..i + 1][..i] == ms[..i];
  }

  /** Once the loop has panicked, later matches do not matter. */
  lemma ArgsNoneExtends(ms: seq<Match>, n: nat)
    requires n <= |ms| && ArgsOf(ms[..n]).None?
    ensures ArgsOf(ms).None?
  {
    var k :| 0 <= k < n && ArgOf(ms[..n][k]).None?;
    assert ms[..n][k] == ms[k];
  }

  /** Empty or all-whitespace input yields no arguments. */
  lemma {:induction false} ParseBlank(input: string)
    requires forall k :: 0 <= k < |input| ==> IsRegexSpace(input[k])
    ensures Parse(input) == Some([])
  {
    FindAllSkipsBlanks(input, |input|);
  }

  /** Every returned argument that contains a space starts and ends with `"`. */
  lemma ParsedSpacesAreQuoted(input: string)
    requires Parse(input).Some?
    ensures forall a :: a in Parse(input).value && ' ' in a ==>
              |a| >= 2 && a[0] == '"' && a[|a| - 1] == '"'
  {
    var ms := FindAll(input, 0);
    var args := Parse(input).value;
    forall a | a in args && ' ' in a
      ensures |a| >= 2 && a[0] == '"' && a[|a| - 1] == '"'
    {
      var k :| 0 <= k < |args| && args[k] == a;
      assert ArgOf(ms[k]) == Some(a);
      ArgSpacesAreQuoted(ms[k], a);
    }
  }

  /** The same for the argument of one match of either alternative. */
  lemma ArgSpacesAreQuoted(m: Match, a: string)
    requires QuotedMatch(m) || BareMatch(m)
    requires ArgOf(m) == Some(a) && ' ' in a
    ensures |a| >= 2 && a[0] == '"' && a[|a| - 1] == '"'
  {
    if QuotedMatch(m) {
      ArgOfQuoted(m);
    } else {
      // A bare run holds no space, and neither does its argument.
      assert false;
    }
  }

  /** The `k`-th argument is what the loop body makes of the `k`-th match. */
  lemma ParseAt(input: string, k: nat)
    requires k < |FindAll(input, 0)|
    ensures Parse(input).Some? ==> k < |Parse(input).value| && ArgOf(FindAll(input, 0)[k]) == Some(Parse(input).value[k])
  {
  }

  // ---------------------------------------------------------------------
  // One argument per token
  //
  // Together with `FindAllTiles`, which places every match at some position
  // `p`, the lemmas below say what the `k`-th argument is for each kind of
  // token, wherever it sits on the line.
  // ---------------------------------------------------------------------

  /**
   * A quoted segment: a quote at `p` that a later quote at `c` (the first of
   * either kind, before any newline) closes yields the trimmed content, wrapped in `"`
   * exactly when it contains a space.
   */
  lemma ParseQuotedSegment(input: string, k: nat, p: nat, c: nat)
    requires k < |FindAll(input, 0)| && MatchAt(input, p, FindAll(input, 0)[k])
    requires IsQuote(input[p]) && ClosingQuote(input, p + 1) == Some(c)
    ensures FindAll(input, 0)[k] == Match(input[p..c + 1], input[p + 1..c])
    ensures var content := TrimSpace(input[p + 1..c]);
            var arg := if ' ' in content then "\"" + content + "\"" else content;
            && ArgOf(FindAll(input, 0)[k]) == Some(arg)
            && (Parse(input).Some? ==> Parse(input).value[k] == arg)
  {
    MatchFromQuoted(input, p, c);
    ArgOfQuoted(FindAll(input, 0)[k]);
    ParseAt(input, k);
  }

  /**
   * A quote at `p` that nothing closes falls through to `\S+`; the group is
   * then unmatched, so the argument is the empty string.
   */
  lemma ParseUnclosedQuote(input: string, k: nat, p: nat)
    requires k < |FindAll(input, 0)| && MatchAt(input, p, FindAll(input, 0)[k])
    requires IsQuote(input[p]) && ClosingQuote(input, p + 1).None?
    ensures FindAll(input, 0)[k] == Match(input[p..RunEnd(input, p)], "")
    ensures ArgOf(FindAll(input, 0)[k]) == Some("")
    ensures Parse(input).Some? ==> Parse(input).value[k] == ""
  {
    MatchFromBare(input, p);
    var m := FindAll(input, 0)[k];
    assert m.whole[0] == input[p];
    TrimSpaceKeepsFirst(m.whole);
    ArgOfBare(m);
    ParseAt(input, k);
  }

  /**
   * An unquoted token at `p`: the match is the maximal run of non-whitespace
   * from `p`, and the argument is that run trimmed, which is the run itself
   * when its last character is not one `TrimSpace` strips.
   */
  lemma ParseBareToken(input: string, k: nat, p: nat)
    requires k < |FindAll(input, 0)| && MatchAt(input, p, FindAll(input, 0)[k])
    requires !IsQuote(input[p]) && !IsSpace(input[p])
    ensures p < RunEnd(input, p) && (RunEnd(input, p) == |input| || IsRegexSpace(input[RunEnd(input, p)]))
    ensures FindAll(input, 0)[k] == Match(input[p..RunEnd(input, p)], "")
    ensures ArgOf(FindAll(input, 0)[k]) == Some(TrimSpace(input[p..RunEnd(input, p)]))
    ensures !IsSpace(input[RunEnd(input, p) - 1]) ==> TrimSpace(input[p..RunEnd(input, p)]) == input[p..RunEnd(input, p)]
    ensures Parse(input).Some? ==> Parse(input).value[k] == TrimSpace(input[p..RunEnd(input, p)])
  {
    MatchFromBare(input, p);
    var e := RunEnd(input, p);
    var w := input[p..e];
    assert |w| == e - p && w[0] == input[p] && w[|w| - 1] == input[e - 1];
    var m := FindAll(input, 0)[k];
    assert m == Match(w, "");
    assert ArgOf(m) == Some(TrimSpace(w)) by {
      BareTokenArg(w);
    }
    assert !IsSpace(input[e - 1]) ==> TrimSpace(w) == w by {
      BareTokenArg(w);
    }
    assert Parse(input).Some? ==> Parse(input).value[k] == TrimSpace(w) by {
      ParseAt(input, k);
    }
  }

  /** The argument of a bare token that does not start with a space or quote. */
  lemma BareTokenArg(w: string)
    requires BareMatch(Match(w, "")) && !IsQuote(w[0]) && !IsSpace(w[0])
    ensures ArgOf(Match(w, "")) == Some(TrimSpace(w))
    ensures !IsSpace(w[|w| - 1]) ==> TrimSpace(w) == w
  {
    TrimSpaceKeepsFirst(w);
    if !IsSpace(w[|w| - 1]) {
      TrimSpaceUnique(w, 0, |w|);
    }
    ArgOfBare(Match(w, ""));
  }


  // ---------------------------------------------------------------------
  // A token made only of non-RE2 whitespace
  // ---------------------------------------------------------------------

  /**
   * As written, a token made only of characters that `\S` matches but
   * `TrimSpace` strips (a vertical tab, NEL, NO-BREAK SPACE) trims to "",
   * `match[0][0]` panics, and so the whole line does.
   */
  lemma ParseSpaceOnlyTokenPanics(input: string, k: nat, p: nat)
    requires k < |FindAll(input, 0)| && MatchAt(input, p, FindAll(input, 0)[k])
    requires forall j :: p <= j < RunEnd(input, p) ==> IsSpace(input[j])
    ensures Parse(input).None?
  {
    assert IsSpace(input[p]) && !IsQuote(input[p]);
    MatchFromBare(input, p);
    var m := FindAll(input, 0)[k];
    assert forall j :: 0 <= j < |m.whole| ==> m.whole[j] == input[p + j];
    TrimSpaceBlank(m.whole);
  }

  /**
   * The line `register \v x` reaches the tokenizer as typed: the REPL trims
   * the line's ends, and both ends are letters.
   */
  lemma RegisterVerticalTabKept()
    ensures TrimSpace("register \U{0B} x") == "register \U{0B} x"
  {
    var s := "register \U{0B} x";
    TrimSpaceUnique(s, 0, |s|);
  }

  /** The runs of non-whitespace in `register \v x` that start its first two tokens. */
  lemma RegisterVerticalTabRuns()
    ensures var s := "register \U{0B} x"; RunEnd(s, 0) == 8 && RunEnd(s, 9) == 10
  {
    var s := "register \U{0B} x";
    assert RunEnd(s, 8) == 8;
    assert RunEnd(s, 7) == 8;
    assert RunEnd(s, 6) == 8;
    assert RunEnd(s, 5) == 8;
    assert RunEnd(s, 4) == 8;
    assert RunEnd(s, 3) == 8;
    assert RunEnd(s, 2) == 8;
    assert RunEnd(s, 1) == 8;
  }

  /** The scan of `register \v x`: its second match starts at the vertical tab. */
  lemma RegisterVerticalTabMatches()
    ensures var s := "register \U{0B} x";
      && 1 < |FindAll(s, 0)| && MatchAt(s, 9, FindAll(s, 0)[1]) && RunEnd(s, 9) == 10
  {
    var s := "register \U{0B} x";
    RegisterVerticalTabRuns();
    assert FindAll(s, 8) == FindAll(s, 9) == [MatchFrom(s, 9)] + FindAll(s, 10);
    assert FindAll(s, 0) == [MatchFrom(s, 0)] + FindAll(s, 8);
  }

  /**
   * The line `register \v x`: its second token, a lone vertical tab between
   * two spaces, makes the loop panic.
   */
  lemma RegisterVerticalTabPanics()
    ensures Parse("register \U{0B} x").None?
  {
    var s := "register \U{0B} x";
    RegisterVerticalTabMatches();
    ParseSpaceOnlyTokenPanics(s, 1, 9);
  }

  /** The loop with a whitespace-only match skipped instead of indexed. */
  function ArgsSkippingBlank(ms: seq<Match>): seq<string> {
    if ms == [] then []
    else
      var init := ArgsSkippingBlank(ms[..|ms| - 1]);
      var m := ms[|ms| - 1];
      if |TrimSpace(m.whole)| == 0 then init else init + [ArgOf(m).value]
  }

  /** The tokenizer with the panic removed. */
  function ParseSkippingBlank(input: string): (args: seq<string>) {
    ArgsSkippingBlank(FindAll(input, 0))
  }

  /** On any line where `Parse` does not panic, the corrected tokenizer returns its arguments. */
  lemma ParseSkippingBlankAgrees(input: string)
    ensures Parse(input).Some? ==> ParseSkippingBlank(input) == Parse(input).value
  {
    SkippingBlankAgrees(FindAll(input, 0));
  }

  /** The corrected tokenizer agrees with `Parse` wherever that does not panic. */
  lemma {:induction false} SkippingBlankAgrees(ms: seq<Match>)
    ensures ArgsOf(ms).Some? ==> ArgsSkippingBlank(ms) == ArgsOf(ms).value
  {
    if ms != [] {
      var init := ms[..|ms| - 1];
      SkippingBlankAgrees(init);
      ArgsOfStep(ms, |ms| - 1);
      assert ms[..|ms|] == ms;
    }
  }

  /**
   * Every argument of the corrected tokenizer is what the loop body makes of
   * one of the matches, so none of them is the panic.
   */
  lemma {:induction false} SkippingBlankSound(ms: seq<Match>)
    ensures forall a :: a in ArgsSkippingBlank(ms) ==> exists m :: m in ms && ArgOf(m) == Some(a)
  {
    if ms != [] {
      var init := ms[..|ms| - 1];
      SkippingBlankSound(init);
      forall a | a in ArgsSkippingBlank(ms) ensures exists m :: m in ms && ArgOf(m) == Some(a) {
        if a in ArgsSkippingBlank(init) {
          var m :| m in init && ArgOf(m) == Some(a);
          assert m in ms;
        } else {
          assert ms[|ms| - 1] in ms;
        }
      }
    }
  }
}
