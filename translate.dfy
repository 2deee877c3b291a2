/**
 * The dialect rewriter of the query helpers `execute_query` and
 * `read_sql_query`.  Queries are written for SQLite; when the application runs
 * against PostgreSQL the text is rewritten by plain left-to-right,
 * non-overlapping substring replacement (Python's `str.replace`), so tokens
 * inside string literals are rewritten too.
 */
module Translate {

  /** SQLite positional placeholder and its PostgreSQL (psycopg2) counterpart. */
  const Placeholder: string := "?"
  const PgPlaceholder: string := "%s"
  /** SQLite's group concatenation call and PostgreSQL's string aggregation. */
  const GroupConcat: string := "GROUP_CONCAT("
  const StringAgg: string := "string_agg("
  /** The name separator argument, and the same argument with an ordering clause. */
  const Separator: string := ", ', ')"
  const OrderedSeparator: string := ", ', ' ORDER BY 1)"

  /** Python's `s.replace(pat, rep)`: scan left to right, replace every
      non-overlapping occurrence of `pat`, resume after the replaced text. */
  function ReplaceAll(s: string, pat: string, rep: string): string
    requires pat != []
    decreases |s|
  {
    if |s| < |pat| then s
    else if s[..|pat|] == pat then rep + ReplaceAll(s[|pat|..], pat, rep)
    else [s[0]] + ReplaceAll(s[1..], pat, rep)
  }

  /** `p` occurs in `t` starting at index `i`. */
  predicate OccursAt(t: string, p: string, i: int)
  {
    0 <= i && i + |p| <= |t| && t[i..i + |p|] == p
  }

  /** `p` occurs nowhere in `t`. */
  ghost predicate Free(t: string, p: string)
  {
    forall i :: !OccursAt(t, p, i)
  }

  /** Replacing with `rep` can never produce a new occurrence of `p`: `p` does
      not occur inside `rep` nor straddle either end of it. */
  ghost predicate Separated(p: string, rep: string)
  {
    && (forall i :: 0 <= i < |rep| ==> !(p <= rep[i..]) && !(rep[i..] <= p))
    && (forall k :: 1 <= k < |p| ==> !(p[k..] <= rep) && !(rep <= p[k..]))
  }

  /** The SQLite-to-PostgreSQL rewrite `read_sql_query` applies. */
  function ToPostgres(q: string): string
  {
    var step1 := ReplaceAll(q, Placeholder, PgPlaceholder);
    var step2 := ReplaceAll(step1, GroupConcat, StringAgg);
    ReplaceAll(step2, Separator, OrderedSeparator)
  }

  /** The text `read_sql_query` hands to the driver: all three rewrites when
      PostgreSQL is in use (with or without parameters), else the query as is. */
  function ReadQueryText(q: string, usePostgres: bool): (r: string)
    ensures !usePostgres ==> r == q
    ensures usePostgres ==> Placeholder[0] !in r && Free(r, GroupConcat) && Free(r, Separator)
  {
    if usePostgres then
      NoPlaceholderLeft(q);
      NoGroupConcatLeft(q);
      NoBareSeparatorLeft(q);
      ToPostgres(q)
    else q
  }

  /** The text `execute_query` hands to the driver: placeholders only, and only
      when parameters are given and PostgreSQL is in use. */
  function ExecuteQueryText(q: string, hasParams: bool, usePostgres: bool): (r: string)
    ensures !(hasParams && usePostgres) ==> r == q
    ensures hasParams && usePostgres ==> r == ExpandPlaceholders(q) && Placeholder[0] !in r
  {
    if hasParams && usePostgres then
      PlaceholdersExpanded(q);
      SeparatedByFirstChars(Placeholder, PgPlaceholder);
      ReplaceLeavesFree(q, Placeholder, Placeholder, PgPlaceholder);
      FreeOfChar(ReplaceAll(q, Placeholder, PgPlaceholder), Placeholder[0]);
      ReplaceAll(q, Placeholder, PgPlaceholder)
    else q
  }

  /** Reference definition of the placeholder step: each character is kept,
      except `?`, which becomes `%s`. */
  function ExpandPlaceholders(q: string): string
  {
    if q == [] then []
    else (if q[0] == '?' then PgPlaceholder else [q[0]]) + ExpandPlaceholders(q[1..])
  }

  // ---------------------------------------------------------------------------
  // Properties of ReplaceAll

  /** The placeholder rewrite is the character-by-character reference. */
  lemma {:induction false} PlaceholdersExpanded(q: string)
    ensures ReplaceAll(q, Placeholder, PgPlaceholder) == ExpandPlaceholders(q)
    decreases |q|
  {
    if q != [] {
      PlaceholdersExpanded(q[1..]);
      assert q[..1] == [q[0]];
    }
  }

  /** Text without `pat` passes through `ReplaceAll` unchanged. */
  lemma {:induction false} ReplaceFixesFree(t: string, pat: string, rep: string)
    requires pat != []
    requires Free(t, pat)
    ensures ReplaceAll(t, pat, rep) == t
    decreases |t|
  {
    if |t| >= |pat| {
      assert !OccursAt(t, pat, 0);
      FreeDrop(t, pat, 1);
      ReplaceFixesFree(t[1..], pat, rep);
    }
  }

  /** A suffix of text free of `p` is free of `p`. */
  lemma FreeDrop(t: string, p: string, k: nat)
    requires Free(t, p) && k <= |t|
    ensures Free(t[k..], p)
  {
    forall i | 0 <= i && i + |p| <= |t| - k
      ensures !OccursAt(t[k..], p, i)
    {
      assert t[k..][i..i + |p|] == t[i + k..i + k + |p|];
      assert !OccursAt(t, p, i + k);
    }
  }

  /** A one-character pattern that does not occur is a character not in the text. */
  lemma FreeOfChar(t: string, c: char)
    requires Free(t, [c])
    ensures c !in t
  {
    forall i | 0 <= i < |t|
      ensures t[i] != c
    {
      assert t[i..i + 1] == [t[i]];
      assert !OccursAt(t, [c], i);
    }
  }

  /** Up to the first replaced occurrence, the output is the input; from there
      on it is `rep` followed by the rewrite of what follows the occurrence.
      `j` is that first occurrence, or `m` when none begins before `m`. */
  lemma {:induction false} FirstReplacement(t: string, pat: string, rep: string, m: nat) returns (j: nat)
    requires pat != []
    requires m <= |ReplaceAll(t, pat, rep)|
    ensures j <= m && j <= |t|
    ensures ReplaceAll(t, pat, rep)[..j] == t[..j]
    ensures j < m ==> && j + |pat| <= |t| && t[j..j + |pat|] == pat
                      && ReplaceAll(t, pat, rep)[j..] == rep + ReplaceAll(t[j + |pat|..], pat, rep)
    decreases |t|, 1
  {
    if |t| < |pat| {
      j := m;
    } else if t[..|pat|] == pat || m == 0 {
      j := 0;
      ReplaceAtStart(t, pat, rep);
    } else {
      j := FirstReplacementAfterCopy(t, pat, rep, m);
    }
  }

  lemma ReplaceAtStart(t: string, pat: string, rep: string)
    requires pat != [] && |t| >= |pat|
    ensures t[..|pat|] == pat ==> ReplaceAll(t, pat, rep)[0..] == rep + ReplaceAll(t[0 + |pat|..], pat, rep)
  {
  }

  /** `FirstReplacement` when the first character is not the start of `pat`. */
  lemma {:induction false} FirstReplacementAfterCopy(t: string, pat: string, rep: string, m: nat) returns (j: nat)
    requires pat != [] && |t| >= |pat| && t[..|pat|] != pat && 0 < m
    requires m <= |ReplaceAll(t, pat, rep)|
    ensures j <= m && j <= |t|
    ensures ReplaceAll(t, pat, rep)[..j] == t[..j]
    ensures j < m ==> && j + |pat| <= |t| && t[j..j + |pat|] == pat
                      && ReplaceAll(t, pat, rep)[j..] == rep + ReplaceAll(t[j + |pat|..], pat, rep)
    decreases |t|, 0
  {
    var out, out' := ReplaceAll(t, pat, rep), ReplaceAll(t[1..], pat, rep);
    assert out == [t[0]] + out';
    var j' := FirstReplacement(t[1..], pat, rep, m - 1);
    j := j' + 1;
    if j < m {
      var rest := t[1..][j' + |pat|..];
      assert rest == t[j + |pat|..];
      CopiedPrefix(t, pat, rep, out, out', ReplaceAll(rest, pat, rep), j', true);
    } else {
      CopiedPrefix(t, pat, rep, out, out', [], j', false);
    }
  }

  /** The step of `FirstReplacement` where the first character is copied:
      `out` is `t[0]` followed by `out'`, which agrees with `t[1..]` up to `j'`
      and, when `found`, has `rep` followed by `x` from there. */
  lemma CopiedPrefix(t: string, pat: string, rep: string, out: string, out': string, x: string, j': nat, found: bool)
    requires t != [] && out == [t[0]] + out'
    requires j' <= |out'| && j' <= |t| - 1
    requires out'[..j'] == t[1..][..j']
    requires found ==> j' + |pat| <= |t| - 1 && t[1..][j'..j' + |pat|] == pat && out'[j'..] == rep + x
    ensures out[..j' + 1] == t[..j' + 1]
    ensures found ==> && j' + 1 + |pat| <= |t| && t[j' + 1..j' + 1 + |pat|] == pat
                      && out[j' + 1..] == rep + x && t[1..][j' + |pat|..] == t[j' + 1 + |pat|..]
  {
    var tail := t[1..];
    var j := j' + 1;
    assert out[..j] == [t[0]] + out'[..j'];
    assert t[..j] == [t[0]] + tail[..j'];
    if found {
      TailSlice(t, j', j' + |pat|);
      assert tail[j' + |pat|..] == t[j + |pat|..];
      assert out[j..] == out'[j'..];
    }
  }

  lemma TailSlice(t: string, a: nat, b: nat)
    requires a <= b && b + 1 <= |t|
    ensures t[1..][a..b] == t[a + 1..b + 1]
  {
  }

  /** Replacing `pat` by `rep` leaves no `pat` behind, and creates no `p` that
      was not there (when `rep` is separated from `p`). */
  lemma {:induction false} ReplaceLeavesFree(t: string, p: string, pat: string, rep: string)
    requires pat != [] && p != []
    requires Separated(p, rep)
    requires p == pat || Free(t, p)
    ensures Free(ReplaceAll(t, pat, rep), p)
    decreases |t|
  {
    if |t| < |pat| {
      assert ReplaceAll(t, pat, rep) == t;
    } else if t[..|pat|] == pat {
      var rest := t[|pat|..];
      if p != pat { FreeDrop(t, p, |pat|); }
      ReplaceLeavesFree(rest, p, pat, rep);
      FreeAfterRep(p, rep, ReplaceAll(rest, pat, rep));
    } else {
      var tail := t[1..];
      if p != pat { FreeDrop(t, p, 1); }
      ReplaceLeavesFree(tail, p, pat, rep);
      FreeAfterCopy(t, p, pat, rep);
    }
  }

  /** Text free of `p` stays free of `p` behind a separated `rep`. */
  lemma FreeAfterRep(p: string, rep: string, r: string)
    requires p != [] && Separated(p, rep) && Free(r, p)
    ensures Free(rep + r, p)
  {
    var out := rep + r;
    var n := |p|;
    forall i | 0 <= i && i + n <= |out|
      ensures !OccursAt(out, p, i)
    {
      if i >= |rep| {
        assert out[i..i + n] == r[i - |rep|..i - |rep| + n];
        assert !OccursAt(r, p, i - |rep|);
      } else if i + n <= |rep| {
        assert out[i..i + n] == rep[i..][..n];
        assert !(p <= rep[i..]);
      } else {
        assert out[i..|rep|] == rep[i..];
        assert !(rep[i..] <= p);
      }
    }
  }

  /** The step of `ReplaceLeavesFree` where the first character is copied. */
  lemma FreeAfterCopy(t: string, p: string, pat: string, rep: string)
    requires pat != [] && p != []
    requires |t| >= |pat| && t[..|pat|] != pat
    requires Separated(p, rep)
    requires p == pat || Free(t, p)
    requires Free(ReplaceAll(t[1..], pat, rep), p)
    ensures Free(ReplaceAll(t, pat, rep), p)
  {
    var r := ReplaceAll(t[1..], pat, rep);
    assert ReplaceAll(t, pat, rep) == [t[0]] + r;
    CopiedStartClear(t, p, pat, rep);
    FreeCons(t[0], r, p);
  }

  /** In that step, no `p` starts at the copied character. */
  lemma CopiedStartClear(t: string, p: string, pat: string, rep: string)
    requires pat != [] && p != []
    requires |t| >= |pat| && t[..|pat|] != pat
    requires Separated(p, rep)
    requires p == pat || Free(t, p)
    ensures !OccursAt([t[0]] + ReplaceAll(t[1..], pat, rep), p, 0)
  {
    var r := ReplaceAll(t[1..], pat, rep);
    if |p| <= 1 + |r| {
      var j := FirstReplacement(t[1..], pat, rep, |p| - 1);
      if j == |p| - 1 {
        assert !OccursAt(t, p, 0) || p == pat;
        CopiedWindow(t[0], t[1..], r, p, rep, j, []);
      } else {
        var rest := t[1..][j + |pat|..];
        CopiedWindow(t[0], t[1..], r, p, rep, j, ReplaceAll(rest, pat, rep));
      }
    }
  }

  /** The window at the start of `[c] + r`, where `r` agrees with `tail` up to
      `j` and has `rep` at `j` (when `j` falls inside the window), is not `p`. */
  lemma CopiedWindow(c: char, tail: string, r: string, p: string, rep: string, j: nat, x: string)
    requires p != [] && Separated(p, rep)
    requires |p| <= 1 + |r|
    requires j <= |p| - 1 && j <= |tail|
    requires r[..j] == tail[..j]
    requires j < |p| - 1 ==> r[j..] == rep + x
    requires j == |p| - 1 ==> ([c] + tail)[..|p|] != p
    ensures !OccursAt([c] + r, p, 0)
  {
    var out := [c] + r;
    var n := |p|;
    if j == n - 1 {
      assert out[..n] == [c] + r[..j];
      assert ([c] + tail)[..n] == [c] + tail[..j];
    } else {
      var k := j + 1;
      assert out[k..] == r[j..];
      if |rep| >= n - k {
        assert out[k..n] == rep[..n - k];
        assert !(p[k..] <= rep);
        assert out[..n][k..] == out[k..n];
      } else {
        assert out[k..k + |rep|] == rep;
        assert !(rep <= p[k..]);
        assert out[..n][k..k + |rep|] == out[k..k + |rep|];
      }
    }
  }

  /** Prepending a character creates at most an occurrence at the start. */
  lemma FreeCons(c: char, r: string, p: string)
    requires Free(r, p) && !OccursAt([c] + r, p, 0)
    ensures Free([c] + r, p)
  {
    var out := [c] + r;
    forall i | 1 <= i && i + |p| <= |out|
      ensures !OccursAt(out, p, i)
    {
      assert out[i..i + |p|] == r[i - 1..i - 1 + |p|];
      assert !OccursAt(r, p, i - 1);
    }
  }

  /** Separation holds when the first character of each string does not occur
      in the other. */
  lemma SeparatedByFirstChars(p: string, rep: string)
    requires p != [] && rep != []
    requires rep[0] !in p && p[0] !in rep
    ensures Separated(p, rep)
  {
    forall i | 0 <= i < |rep|
      ensures !(p <= rep[i..]) && !(rep[i..] <= p)
    {
      assert rep[i..][0] == rep[i];
    }
    forall k | 1 <= k < |p|
      ensures !(p[k..] <= rep) && !(rep <= p[k..])
    {
      assert p[k..][0] == p[k];
    }
  }

  /** The ordered separator contains no bare separator and cannot complete one:
      its only `)` is its last character, the separator's only `)` is its last
      character, and the characters in front of them differ. */
  lemma OrderedSeparatorSeparated()
    ensures Separated(Separator, OrderedSeparator)
  {
    var p, rep := Separator, OrderedSeparator;
    assert |p| == 7 && |rep| == 18 && rep[11] == 'R' && rep[3] == ',';
    assert forall j :: 0 <= j < |rep| && rep[j] == ')' ==> j == 17;
    assert forall j :: 0 <= j < |p| && p[j] == ')' ==> j == 6;
    assert forall j :: 0 <= j < |p| && p[j] == ',' ==> j == 0 || j == 3;
    forall i | 0 <= i < |rep|
      ensures !(p <= rep[i..]) && !(rep[i..] <= p)
    {
      if i == 11 {
        assert rep[i..][0] != p[0];
      } else {
        if i + 7 <= 18 { assert rep[i..][6] == rep[i + 6] != ')'; }
        if i >= 11 { assert rep[i..][17 - i] == ')' != p[17 - i]; }
      }
    }
    forall k | 1 <= k < |p|
      ensures !(p[k..] <= rep) && !(rep <= p[k..])
    {
      if k == 3 {
        assert p[k..][3] != rep[3];
      } else {
        assert p[k..][0] != rep[0];
      }
    }
  }

  // ---------------------------------------------------------------------------
  // Properties of the PostgreSQL rewrite

  /** After the rewrite no `?` is left: the first step removes them all and the
      later steps insert none. */
  lemma NoPlaceholderLeft(q: string)
    ensures Placeholder[0] !in ToPostgres(q)
  {
    var s1 := ReplaceAll(q, Placeholder, PgPlaceholder);
    var s2 := ReplaceAll(s1, GroupConcat, StringAgg);
    SeparatedByFirstChars(Placeholder, PgPlaceholder);
    SeparatedByFirstChars(Placeholder, StringAgg);
    SeparatedByFirstChars(Placeholder, OrderedSeparator);
    ReplaceLeavesFree(q, Placeholder, Placeholder, PgPlaceholder);
    ReplaceLeavesFree(s1, Placeholder, GroupConcat, StringAgg);
    ReplaceLeavesFree(s2, Placeholder, Separator, OrderedSeparator);
    FreeOfChar(ToPostgres(q), Placeholder[0]);
  }

  /** After the rewrite no `GROUP_CONCAT(` is left. */
  lemma NoGroupConcatLeft(q: string)
    ensures Free(ToPostgres(q), GroupConcat)
  {
    var s1 := ReplaceAll(q, Placeholder, PgPlaceholder);
    var s2 := ReplaceAll(s1, GroupConcat, StringAgg);
    SeparatedByFirstChars(GroupConcat, StringAgg);
    SeparatedByFirstChars(GroupConcat, OrderedSeparator);
    ReplaceLeavesFree(s1, GroupConcat, GroupConcat, StringAgg);
    ReplaceLeavesFree(s2, GroupConcat, Separator, OrderedSeparator);
  }

  /** After the rewrite no bare `, ', ')` is left. */
  lemma NoBareSeparatorLeft(q: string)
    ensures Free(ToPostgres(q), Separator)
  {
    var s1 := ReplaceAll(q, Placeholder, PgPlaceholder);
    var s2 := ReplaceAll(s1, GroupConcat, StringAgg);
    OrderedSeparatorSeparated();
    ReplaceLeavesFree(s2, Separator, Separator, OrderedSeparator);
  }

  /** Rewriting an already rewritten query changes nothing. */
  lemma ToPostgresIdempotent(q: string)
    ensures ToPostgres(ToPostgres(q)) == ToPostgres(q)
  {
    var t := ToPostgres(q);
    NoPlaceholderLeft(q);
    NoGroupConcatLeft(q);
    NoBareSeparatorLeft(q);
    forall i ensures !OccursAt(t, Placeholder, i) {
      if 0 <= i < |t| { assert t[i] in t; }
    }
    ReplaceFixesFree(t, Placeholder, PgPlaceholder);
    ReplaceFixesFree(t, GroupConcat, StringAgg);
    ReplaceFixesFree(t, Separator, OrderedSeparator);
  }
}
