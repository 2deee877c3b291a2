/**
 * The read-only guard of the admin "direct SQL" view: a query is run only if,
 * once surrounding whitespace is stripped and it is upper-cased, it starts
 * with `SELECT` (Python's `q.strip().upper().startswith("SELECT")`).
 */
module ReadOnlyGuard {

  /** The characters Python's `str.strip()` removes (those for which
      `str.isspace()` holds). */
  predicate IsWhitespace(c: char)
  {
    || c == ' '
    || '\t' <= c <= '\r'                      // tab, line feed, vertical tab, form feed, carriage return
    || '\U{1C}' <= c <= '\U{1F}'              // file, group, record and unit separators
    || c == '\U{85}' || c == '\U{A0}' || c == '\U{1680}'
    || '\U{2000}' <= c <= '\U{200A}'
    || c == '\U{2028}' || c == '\U{2029}' || c == '\U{202F}' || c == '\U{205F}' || c == '\U{3000}'
  }

  /** Drops leading whitespace. */
  function TrimStart(s: string): (r: string)
    ensures |r| <= |s| && r == s[|s| - |r|..]
    ensures forall i :: 0 <= i < |s| - |r| ==> IsWhitespace(s[i])
    ensures r == [] || !IsWhitespace(r[0])
    decreases |s|
  {
    if s != [] && IsWhitespace(s[0]) then TrimStart(s[1..]) else s
  }

  /** Drops trailing whitespace. */
  function TrimEnd(s: string): (r: string)
    ensures |r| <= |s| && r == s[..|r|]
    ensures forall i :: |r| <= i < |s| ==> IsWhitespace(s[i])
    ensures r == [] || !IsWhitespace(r[|r| - 1])
    decreases |s|
  {
    if s != [] && IsWhitespace(s[|s| - 1]) then TrimEnd(s[..|s| - 1]) else s
  }

  /** Python's `str.strip()`. */
  function Strip(s: string): (r: string)
    ensures |r| <= |s|
    ensures r == [] || (!IsWhitespace(r[0]) && !IsWhitespace(r[|r| - 1]))
  {
    TrimEnd(TrimStart(s))
  }

  /** What `Strip` keeps is a contiguous piece of its input with nothing
      but whitespace on either side of it. */
  lemma StripSpec(s: string)
    ensures var r := Strip(s);
      exists i :: 0 <= i <= |s| - |r| && s[i..][..|r|] == r
                  && (forall j :: 0 <= j < i || i + |r| <= j < |s| ==> IsWhitespace(s[j]))
  {
    var front := TrimStart(s);
    var i := |s| - |front|;
    var r := TrimEnd(front);
    assert r == Strip(s);
    assert s[i..][..|r|] == r by {
      assert s[i..] == front;
    }
    forall j | 0 <= j < i || i + |r| <= j < |s|
      ensures IsWhitespace(s[j])
    {
      if i <= j {
        assert s[j] == front[j - i];
      }
    }
  }

  /** Upper-casing, as far as it can matter for a `SELECT` prefix: ASCII
      letters, and the two other characters whose upper case begins with a
      letter of `SELECT` and can complete it: long s (U+017F) becomes `S`, and
      t with diaeresis (U+1E97) becomes `T` (Python appends a combining
      diaeresis after the `T`, which lies beyond the prefix). */
  function UpperChar(c: char): (u: char)
    ensures IsWhitespace(u) <==> IsWhitespace(c)
  {
    if 'a' <= c <= 'z' then (c as int - 32) as char
    else if c == '\U{17F}' then 'S'
    else if c == '\U{1E97}' then 'T'
    else c
  }

  function Upper(s: string): (r: string)
    ensures |r| == |s|
    ensures forall i {:trigger r[i]} :: 0 <= i < |s| ==> r[i] == UpperChar(s[i])
  {
    seq(|s|, i requires 0 <= i < |s| => UpperChar(s[i]))
  }

  const Keyword: string := "SELECT"

  /** The guard at the "Ejecutar Consulta" button. */
  predicate IsSelectQuery(q: string)
  {
    Keyword <= Upper(Strip(q))
  }

  // ---------------------------------------------------------------------------
  // Reference: the first six non-blank characters spell SELECT in any case

  /** The characters whose upper case is the given letter of `SELECT`. */
  predicate SpellsAt(c: char, k: nat)
    requires k < 6
  {
    match k
    case 0 => c in "sS\U{17F}"
    case 1 => c in "eE"
    case 2 => c in "lL"
    case 3 => c in "eE"
    case 4 => c in "cC"
    case 5 => c in "tT\U{1E97}"
  }

  predicate StartsWithSelectWord(w: string)
  {
    |w| >= 6 && forall k :: 0 <= k < 6 ==> SpellsAt(w[k], k)
  }

  /** Which characters upper-case to each letter of `SELECT`. */
  lemma UpperCharSpells(c: char, k: nat)
    requires k < 6
    ensures UpperChar(c) == Keyword[k] <==> SpellsAt(c, k)
  {
    assert Keyword[0] == 'S' && Keyword[1] == 'E' && Keyword[2] == 'L';
    assert Keyword[3] == 'E' && Keyword[4] == 'C' && Keyword[5] == 'T';
    if 'a' <= c <= 'z' {
      assert UpperChar(c) as int == c as int - 32;
    }
  }

  /** The guard accepts exactly the queries whose first six characters after
      leading whitespace spell `SELECT` in any letter case; trailing
      whitespace plays no part. */
  lemma GuardSpec(q: string)
    ensures IsSelectQuery(q) <==> StartsWithSelectWord(TrimStart(q))
  {
    var w := TrimStart(q);
    var v := TrimEnd(w);
    assert Strip(q) == v;
    KeywordPrefix(v);
    if StartsWithSelectWord(w) {
      WordSurvivesTrimEnd(w);
      forall k | 0 <= k < 6 ensures UpperChar(v[k]) == Keyword[k] {
        assert v[k] == w[k];
        UpperCharSpells(w[k], k);
      }
    }
    if IsSelectQuery(q) {
      forall k | 0 <= k < 6 ensures SpellsAt(w[k], k) {
        assert v[k] == w[k];
        UpperCharSpells(w[k], k);
      }
    }
  }

  /** `SELECT` is a prefix of the upper-cased text exactly when the first six
      characters upper-case to its letters. */
  lemma KeywordPrefix(v: string)
    ensures Keyword <= Upper(v) <==> |v| >= 6 && forall k :: 0 <= k < 6 ==> UpperChar(v[k]) == Keyword[k]
  {
    if |v| >= 6 {
      assert forall k :: 0 <= k < 6 ==> Upper(v)[k] == UpperChar(v[k]);
      if forall k :: 0 <= k < 6 ==> UpperChar(v[k]) == Keyword[k] {
        assert Upper(v)[..6] == Keyword;
      }
    }
  }

  /** None of the letters of `SELECT` is blank, so stripping the end leaves
      them in place. */
  lemma WordSurvivesTrimEnd(w: string)
    requires StartsWithSelectWord(w)
    ensures |TrimEnd(w)| >= 6 && TrimEnd(w)[..6] == w[..6]
  {
    assert SpellsAt(w[5], 5);
    assert !IsWhitespace(w[5]);
  }

  /** Leading whitespace does not change the verdict. */
  lemma GuardIgnoresLeadingWhitespace(ws: string, q: string)
    requires forall i :: 0 <= i < |ws| ==> IsWhitespace(ws[i])
    ensures IsSelectQuery(ws + q) == IsSelectQuery(q)
  {
    TrimStartSkips(ws, q);
    GuardSpec(ws + q);
    GuardSpec(q);
  }

  lemma {:induction false} TrimStartSkips(ws: string, q: string)
    requires forall i :: 0 <= i < |ws| ==> IsWhitespace(ws[i])
    ensures TrimStart(ws + q) == TrimStart(q)
    decreases |ws|
  {
    if ws != [] {
      assert (ws + q)[0] == ws[0];
      assert (ws + q)[1..] == ws[1..] + q;
      TrimStartSkips(ws[1..], q);
    } else {
      assert ws + q == q;
    }
  }

  /** Letter case does not change the verdict: queries that upper-case to the
      same text get the same verdict. */
  lemma GuardIgnoresCase(a: string, b: string)
    requires Upper(a) == Upper(b)
    ensures IsSelectQuery(a) == IsSelectQuery(b)
  {
    SameUpperChars(a, b);
    SameBlanksSameTrim(a, b);
    var d := |a| - |TrimStart(a)|;
    assert TrimStart(a) == a[d..] && TrimStart(b) == b[d..];
    SameUpperSameWord(a[d..], b[d..]);
    GuardSpec(a);
    GuardSpec(b);
  }

  lemma SameUpperChars(a: string, b: string)
    requires Upper(a) == Upper(b)
    ensures |a| == |b|
    ensures forall i :: 0 <= i < |a| ==> UpperChar(a[i]) == UpperChar(b[i])
  {
    forall i | 0 <= i < |a| ensures UpperChar(a[i]) == UpperChar(b[i]) {
      assert Upper(a)[i] == Upper(b)[i];
    }
  }

  lemma SameUpperSameWord(a: string, b: string)
    requires |a| == |b|
    requires forall i :: 0 <= i < |a| ==> UpperChar(a[i]) == UpperChar(b[i])
    ensures StartsWithSelectWord(a) == StartsWithSelectWord(b)
  {
    forall k | 0 <= k < 6 && k < |a| ensures SpellsAt(a[k], k) == SpellsAt(b[k], k) {
      UpperCharSpells(a[k], k);
      UpperCharSpells(b[k], k);
    }
  }

  /** Strings with whitespace at the same positions lose the same prefix. */
  lemma {:induction false} SameBlanksSameTrim(a: string, b: string)
    requires |a| == |b|
    requires forall i :: 0 <= i < |a| ==> UpperChar(a[i]) == UpperChar(b[i])
    ensures |TrimStart(a)| == |TrimStart(b)|
    decreases |a|
  {
    if a != [] && IsWhitespace(a[0]) {
      SameBlanksSameTrim(a[1..], b[1..]);
    }
  }

  /** The guard only looks at the prefix: whatever follows an accepted query
      is accepted too. */
  lemma GuardAcceptsAnySuffix(q: string, rest: string)
    requires IsSelectQuery(q)
    ensures IsSelectQuery(q + rest)
  {
    GuardSpec(q);
    var w := TrimStart(q);
    TrimStartAppend(q, rest);
    assert StartsWithSelectWord(w + rest) by {
      forall k | 0 <= k < 6 ensures SpellsAt((w + rest)[k], k) {
        assert (w + rest)[k] == w[k];
      }
    }
    GuardSpec(q + rest);
  }

  /** Once a non-blank character is reached, what follows is kept. */
  lemma {:induction false} TrimStartAppend(q: string, rest: string)
    requires TrimStart(q) != []
    ensures TrimStart(q + rest) == TrimStart(q) + rest
    decreases |q|
  {
    assert (q + rest)[0] == q[0];
    if IsWhitespace(q[0]) {
      assert (q + rest)[1..] == q[1..] + rest;
      TrimStartAppend(q[1..], rest);
    }
  }

  lemma NoLeadingBlank(s: string)
    requires s != [] && !IsWhitespace(s[0])
    ensures TrimStart(s) == s
  {
  }

  /** A query that deletes rows after a leading `SELECT` passes the guard. */
  lemma StackedStatementPasses()
    ensures IsSelectQuery("SELECT 1; DELETE FROM players")
  {
    var q := "SELECT 1; DELETE FROM players";
    NoLeadingBlank(q);
    assert q[..6] == Keyword;
    GuardSpec(q);
  }

  /** Leading blanks and lower case are accepted. */
  lemma LowerCaseAccepted()
    ensures IsSelectQuery("\n  select name")
  {
    var ws, q := "\n  ", "select name";
    assert StartsWithSelectWord(q) by {
      assert SpellsAt(q[0], 0) && SpellsAt(q[1], 1) && SpellsAt(q[2], 2);
      assert SpellsAt(q[3], 3) && SpellsAt(q[4], 4) && SpellsAt(q[5], 5);
    }
    var full := "\n  select name";
    assert full == ws + q;
    assert TrimStart(full) == q by {
      NoLeadingBlank(q);
      TrimStartSkips(ws, q);
    }
    GuardSpec(full);
  }

  /** Other statements are rejected, even a query that starts with a `WITH`
      clause. */
  lemma OtherStatementsRejected()
    ensures !IsSelectQuery("DELETE FROM players")
    ensures !IsSelectQuery("WITH t AS (SELECT 1) SELECT * FROM t")
  {
    var d, w := "DELETE FROM players", "WITH t AS (SELECT 1) SELECT * FROM t";
    NoLeadingBlank(d);
    assert !SpellsAt(d[0], 0);
    GuardSpec(d);
    NoLeadingBlank(w);
    assert !SpellsAt(w[0], 0);
    GuardSpec(w);
  }
}
