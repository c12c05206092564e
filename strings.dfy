/**
 * The JavaScript string operations the page builder relies on:
 * character (code-point) order, which is what String.prototype.localeCompare
 * gives on the zero-padded `HH:MM` times it compares,
 * split on a separator character, padStart, indexOf/includes and the
 * first-occurrence String.prototype.replace with a string pattern.
 */
module Strings {
  import opened Wrappers

  // ---------------------------------------------------------------------
  // Lexicographic order
  // ---------------------------------------------------------------------

  /** `a` sorts before or equal to `b`: `a` is a prefix of `b`, or at the first
      position where they differ `a` has the smaller character. */
  predicate LexLe(a: string, b: string)
  {
    if a == [] then true
    else if b == [] then false
    else if a[0] != b[0] then a[0] < b[0]
    else LexLe(a[1..], b[1..])
  }

  lemma {:induction false} LexLeTotal(a: string, b: string)
    ensures LexLe(a, b) || LexLe(b, a)
  {
    if a != [] && b != [] && a[0] == b[0] {
      LexLeTotal(a[1..], b[1..]);
    }
  }

  lemma {:induction false} LexLeTransitive(a: string, b: string, c: string)
    requires LexLe(a, b) && LexLe(b, c)
    ensures LexLe(a, c)
  {
    if a != [] && b != [] && c != [] && a[0] == b[0] && b[0] == c[0] {
      LexLeTransitive(a[1..], b[1..], c[1..]);
    }
  }

  lemma {:induction false} LexLeAntisymmetric(a: string, b: string)
    requires LexLe(a, b) && LexLe(b, a)
    ensures a == b
  {
    if a != [] && b != [] {
      assert a[0] == b[0];
      LexLeAntisymmetric(a[1..], b[1..]);
      assert a == [a[0]] + a[1..] && b == [b[0]] + b[1..];
    }
  }

  /** A character at the same position in both strings never decides the order:
      it can be dropped from both. */
  lemma {:induction false} LexLeDropCommon(x: string, y: string, c: char, v: string, w: string)
    requires |x| == |y|
    ensures LexLe(x + [c] + v, y + [c] + w) <==> LexLe(x + v, y + w)
  {
    if x == [] {
      assert y == [];
      assert x + [c] + v == [c] + v && y + [c] + w == [c] + w;
      assert x + v == v && y + w == w;
      assert ([c] + v)[1..] == v && ([c] + w)[1..] == w;
    } else {
      assert (x + [c] + v)[1..] == x[1..] + [c] + v;
      assert (y + [c] + w)[1..] == y[1..] + [c] + w;
      assert (x + v)[1..] == x[1..] + v;
      assert (y + w)[1..] == y[1..] + w;
      LexLeDropCommon(x[1..], y[1..], c, v, w);
    }
  }

  // ---------------------------------------------------------------------
  // split / join on one separator character
  // ---------------------------------------------------------------------

  /** String.prototype.split with a one-character separator. */
  function Split(s: string, sep: char): (parts: seq<string>)
    ensures |parts| >= 1
    ensures |parts| >= 2 <==> sep in s
  {
    if s == [] then [[]]
    else
      var rest := Split(s[1..], sep);
      if s[0] == sep then [[]] + rest
      else [[s[0]] + rest[0]] + rest[1..]
  }

  /** No field of a split holds the separator. */
  lemma {:induction false} SplitFieldsFree(s: string, sep: char)
    ensures forall i :: 0 <= i < |Split(s, sep)| ==> sep !in Split(s, sep)[i]
  {
    if s != [] {
      SplitFieldsFree(s[1..], sep);
    }
  }

  /** Array.prototype.join with a one-character separator. */
  function Join(parts: seq<string>, sep: char): string
    requires |parts| >= 1
  {
    if |parts| == 1 then parts[0] else parts[0] + [sep] + Join(parts[1..], sep)
  }

  lemma {:induction false} JoinSplit(s: string, sep: char)
    ensures Join(Split(s, sep), sep) == s
  {
    if s != [] {
      JoinSplit(s[1..], sep);
      var rest := Split(s[1..], sep);
      if s[0] == sep {
        assert ([[]] + rest)[1..] == rest;
      } else {
        var parts := [[s[0]] + rest[0]] + rest[1..];
        if |rest| > 1 {
          assert parts[1..] == rest[1..];
          assert Join(rest, sep) == rest[0] + [sep] + Join(rest[1..], sep);
        }
      }
    }
  }

  lemma {:induction false} SplitJoin(parts: seq<string>, sep: char)
    requires |parts| >= 1
    requires forall i :: 0 <= i < |parts| ==> sep !in parts[i]
    ensures Split(Join(parts, sep), sep) == parts
    decreases |parts|, |parts[0]|
  {
    if parts[0] == [] {
      if |parts| > 1 {
        SplitJoin(parts[1..], sep);
        JoinEmptyHead(parts, sep);
        SplitCons(sep, Join(parts[1..], sep), sep);
        assert parts == [[]] + parts[1..];
      }
    } else {
      var tail := [parts[0][1..]] + parts[1..];
      assert tail[1..] == parts[1..];
      SplitJoin(tail, sep);
      JoinNonEmptyHead(parts, sep);
      SplitCons(parts[0][0], Join(tail, sep), sep);
      assert parts[0] == [parts[0][0]] + parts[0][1..];
      assert parts == [[parts[0][0]] + tail[0]] + tail[1..];
    }
  }

  lemma SplitCons(c: char, t: string, sep: char)
    ensures Split([c] + t, sep)
         == if c == sep then [[]] + Split(t, sep) else [[c] + Split(t, sep)[0]] + Split(t, sep)[1..]
  {
    assert ([c] + t)[1..] == t;
  }

  lemma JoinEmptyHead(parts: seq<string>, sep: char)
    requires |parts| > 1 && parts[0] == []
    ensures Join(parts, sep) == [sep] + Join(parts[1..], sep)
  {
  }

  lemma JoinNonEmptyHead(parts: seq<string>, sep: char)
    requires |parts| >= 1 && parts[0] != []
    ensures Join(parts, sep) == [parts[0][0]] + Join([parts[0][1..]] + parts[1..], sep)
  {
    var tail := [parts[0][1..]] + parts[1..];
    assert tail[1..] == parts[1..];
    if |parts| > 1 {
      assert Join(parts, sep) == [parts[0][0]] + (parts[0][1..] + [sep] + Join(parts[1..], sep));
    }
  }

  /** Two fields separated by `sep` split back into exactly those two fields. */
  lemma SplitPair(a: string, b: string, sep: char)
    requires sep !in a && sep !in b
    ensures Split(a + [sep] + b, sep) == [a, b]
  {
    assert Join([a, b], sep) == a + [sep] + b;
    SplitJoin([a, b], sep);
  }

  // ---------------------------------------------------------------------
  // padStart
  // ---------------------------------------------------------------------

  /** String.prototype.padStart with a one-character pad string. */
  function PadStart(s: string, width: nat, fill: char): string
    decreases width - |s|
  {
    if |s| >= width then s else PadStart([fill] + s, width, fill)
  }

  /** padStart reaches the width, keeps the string at its end and fills in
      front of it. */
  lemma {:induction false} PadStartShape(s: string, width: nat, fill: char)
    ensures var r := PadStart(s, width, fill);
      && |r| == (if |s| >= width then |s| else width)
      && r[|r| - |s|..] == s
      && forall i :: 0 <= i < |r| - |s| ==> r[i] == fill
    decreases width - |s|
  {
    if |s| < width {
      PadStartShape([fill] + s, width, fill);
      var r := PadStart(s, width, fill);
      assert r[|r| - |s| - 1..] == [fill] + s;
      assert r[|r| - |s|..] == ([fill] + s)[1..];
    }
  }

  lemma ConcatAssoc(a: string, b: string, c: string)
    ensures (a + b) + c == a + (b + c)
  {
  }

  // ---------------------------------------------------------------------
  // indexOf, includes, replace
  // ---------------------------------------------------------------------

  /** `p` occurs in `s` starting at position `j`. */
  predicate MatchAt(s: string, p: string, j: nat)
  {
    j + |p| <= |s| && s[j..j + |p|] == p
  }

  /** String.prototype.indexOf: the first position where `p` occurs. */
  function IndexOf(s: string, p: string): (r: Option<nat>)
    ensures r.Some? ==> MatchAt(s, p, r.value) && forall j :: 0 <= j < r.value ==> !MatchAt(s, p, j)
    ensures r.None? ==> forall j :: 0 <= j ==> !MatchAt(s, p, j)
    decreases |s|
  {
    if |s| < |p| then None
    else if s[..|p|] == p then Some(0)
    else
      match IndexOf(s[1..], p)
      case None =>
        MatchAfterFirst(s, p);
        None
      case Some(i) =>
        MatchAfterFirst(s, p);
        Some(i + 1)
  }

  /** The occurrences in `s` after its first position are those in `s[1..]`,
      shifted by one. */
  lemma MatchAfterFirst(s: string, p: string)
    requires |s| >= 1
    ensures forall j :: 1 <= j ==> (MatchAt(s, p, j) <==> MatchAt(s[1..], p, j - 1))
  {
    forall j | 1 <= j
      ensures MatchAt(s, p, j) <==> MatchAt(s[1..], p, j - 1)
    {
      if j + |p| <= |s| {
        assert s[1..][j - 1..j - 1 + |p|] == s[j..j + |p|];
      }
    }
  }

  /** String.prototype.includes. */
  predicate Contains(s: string, p: string)
  {
    IndexOf(s, p).Some?
  }

  lemma ContainsIff(s: string, p: string)
    ensures Contains(s, p) <==> exists j :: 0 <= j && MatchAt(s, p, j)
  {
    if Contains(s, p) {
      assert MatchAt(s, p, IndexOf(s, p).value);
    }
  }

  /** A pattern whose first character does not occur in `s` is not contained in it. */
  lemma NotContainsWithoutFirstChar(s: string, p: string)
    requires |p| > 0 && p[0] !in s
    ensures !Contains(s, p)
  {
  }

  /** A text does not contain a different text of its own length. */
  lemma NotContainsSameLength(s: string, p: string)
    requires |s| == |p| && s != p
    ensures !Contains(s, p)
  {
    ContainsIff(s, p);
    forall j | 0 <= j
      ensures !MatchAt(s, p, j)
    {
      if j == 0 {
        assert s[j..j + |p|] == s;
      }
    }
  }

  /** String.prototype.replace with a string pattern and a replacement taken
      literally: only the first occurrence is replaced. */
  function ReplaceFirst(s: string, p: string, r: string): (t: string)
    ensures !Contains(s, p) ==> t == s
  {
    match IndexOf(s, p)
    case None => s
    case Some(i) => s[..i] + r + s[i + |p|..]
  }

  /** The occurrence replaced is the first one: the text before it holds no
      occurrence, since a (non-empty) occurrence there would be an earlier
      one in `s`. */
  lemma ReplaceFirstAtFirstMatch(s: string, p: string, r: string)
    requires Contains(s, p)
    ensures var i := IndexOf(s, p).value;
      MatchAt(s, p, i) && ReplaceFirst(s, p, r) == s[..i] + r + s[i + |p|..] &&
      (|p| > 0 ==> !Contains(s[..i], p))
  {
    var i := IndexOf(s, p).value;
    MatchInPrefix(s, p, i);
    if |p| > 0 {
      ContainsIff(s[..i], p);
    }
  }

  /** An occurrence inside a prefix of `s` is an occurrence in `s`. */
  lemma MatchInPrefix(s: string, p: string, i: nat)
    requires i <= |s|
    ensures forall j :: 0 <= j && MatchAt(s[..i], p, j) ==> MatchAt(s, p, j) && j + |p| <= i
  {
    forall j | 0 <= j && MatchAt(s[..i], p, j)
      ensures MatchAt(s, p, j) && j + |p| <= i
    {
      assert s[..i][j..j + |p|] == s[j..j + |p|];
    }
  }

  /** Only the first occurrence is replaced: every occurrence that starts after
      the replaced one is still present, shifted by the change in length. */
  lemma ReplaceFirstKeepsLater(s: string, p: string, r: string, j: nat)
    requires Contains(s, p) && MatchAt(s, p, j) && j >= IndexOf(s, p).value + |p|
    ensures MatchAt(ReplaceFirst(s, p, r), p, j - |p| + |r|)
  {
    var i := IndexOf(s, p).value;
    ReplaceFirstAtFirstMatch(s, p, r);
    var u := s[i + |p|..];
    MatchInSuffix(s, p, i + |p|, j);
    MatchAfterPrefix(s[..i] + r, u, p, j - i - |p|);
  }

  /** An occurrence at or after `k` is an occurrence in `s[k..]`, shifted by `k`. */
  lemma MatchInSuffix(s: string, p: string, k: nat, j: nat)
    requires k <= j && MatchAt(s, p, j)
    ensures MatchAt(s[k..], p, j - k)
  {
    assert s[k..][j - k..j - k + |p|] == s[j..j + |p|];
  }

  /** An occurrence in `y` is an occurrence in `x + y`, shifted by `|x|`. */
  lemma MatchAfterPrefix(x: string, y: string, p: string, m: nat)
    requires MatchAt(y, p, m)
    ensures MatchAt(x + y, p, |x| + m)
  {
    assert (x + y)[|x| + m..|x| + m + |p|] == y[m..m + |p|];
  }

  /** A pattern none of whose proper prefixes is also a suffix: two occurrences
      can never overlap. */
  ghost predicate Unbordered(p: string)
  {
    forall m :: 0 < m < |p| ==> p[..m] != p[|p| - m..]
  }

  /** Patterns of the shape `{{ … }}` with no further '{' are unbordered. */
  lemma BracedUnbordered(p: string)
    requires |p| >= 3 && p[0] == '{' && p[1] == '{'
    requires forall i :: 2 <= i < |p| ==> p[i] != '{'
    ensures Unbordered(p)
  {
    forall m | 0 < m < |p|
      ensures p[..m] != p[|p| - m..]
    {
      if m < |p| - 1 {
        assert p[..m][0] != p[|p| - m..][0];
      } else {
        assert p[..m][1] != p[|p| - m..][1];
      }
    }
  }

  /** In `a + p + b`, where `a` does not contain the unbordered pattern `p`,
      the first occurrence of `p` is the one right after `a`. */
  lemma {:induction false} IndexOfAfterFree(a: string, p: string, b: string)
    requires Unbordered(p) && !Contains(a, p)
    ensures IndexOf(a + p + b, p) == Some(|a|)
  {
    var s := a + p + b;
    assert s[|a|..|a| + |p|] == p;
    assert MatchAt(s, p, |a|);
    forall j | 0 <= j < |a|
      ensures !MatchAt(s, p, j)
    {
      if j + |p| <= |a| {
        assert a[j..j + |p|] == s[j..j + |p|];
        assert !MatchAt(a, p, j);
      } else {
        var m := j + |p| - |a|;
        assert p[..m] != p[|p| - m..];
        assert s[j..j + |p|][|p| - m..] == p[..m];
        assert s[j..j + |p|] != p;
      }
    }
  }

  /** Replacing the first occurrence of an unbordered pattern that sits right
      after a free prefix. */
  lemma ReplaceFirstAfterFree(a: string, p: string, b: string, r: string)
    requires Unbordered(p) && !Contains(a, p)
    ensures ReplaceFirst(a + p + b, p, r) == a + r + b
  {
    IndexOfAfterFree(a, p, b);
    var s := a + p + b;
    assert s[..|a|] == a && s[|a| + |p|..] == b;
  }

  // ---------------------------------------------------------------------
  // replace with the replacement patterns of JavaScript
  // ---------------------------------------------------------------------

  /** The expansion the GetSubstitution operation of the ECMAScript language
      specification applies to a replacement string when the search value is
      a plain string (no capture groups): `$$` gives `$`, `$&` the matched text,
      `` $` `` the text before the match, `$'` the text after it; any other `$`
      stays as it is. */
  function Expand(rep: string, matched: string, before: string, after: string): string
    decreases |rep|
  {
    if |rep| < 2 then rep
    else if rep[0] != '$' then [rep[0]] + Expand(rep[1..], matched, before, after)
    else if rep[1] == '$' then "$" + Expand(rep[2..], matched, before, after)
    else if rep[1] == '&' then matched + Expand(rep[2..], matched, before, after)
    else if rep[1] == '`' then before + Expand(rep[2..], matched, before, after)
    else if rep[1] == '\'' then after + Expand(rep[2..], matched, before, after)
    else "$" + Expand(rep[1..], matched, before, after)
  }

  /** A replacement without `$` is inserted literally. */
  lemma {:induction false} ExpandWithoutDollar(rep: string, matched: string, before: string, after: string)
    requires '$' !in rep
    ensures Expand(rep, matched, before, after) == rep
    decreases |rep|
  {
    if |rep| >= 2 {
      ExpandWithoutDollar(rep[1..], matched, before, after);
      assert rep == [rep[0]] + rep[1..];
    }
  }

  /** A `$`-free start of a replacement is inserted literally. */
  lemma {:induction false} ExpandPlainPrefix(x: string, y: string, matched: string, before: string, after: string)
    requires '$' !in x
    ensures Expand(x + y, matched, before, after) == x + Expand(y, matched, before, after)
    decreases |x|
  {
    if x == [] {
      assert x + y == y;
    } else if |x + y| < 2 {
      assert y == [] && x + y == x;
    } else {
      var e := Expand(y, matched, before, after);
      assert (x + y)[0] == x[0] && x[0] != '$';
      assert (x + y)[1..] == x[1..] + y;
      ExpandPlainPrefix(x[1..], y, matched, before, after);
      calc {
        Expand(x + y, matched, before, after);
        [x[0]] + Expand(x[1..] + y, matched, before, after);
        [x[0]] + (x[1..] + e);
        { assert x == [x[0]] + x[1..]; }
        x + e;
      }
    }
  }

  /** String.prototype.replace(pattern, replacement) with string arguments,
      as JavaScript evaluates it. */
  function ReplaceFirstJs(s: string, p: string, rep: string): (t: string)
    ensures !Contains(s, p) ==> t == s
  {
    match IndexOf(s, p)
    case None => s
    case Some(i) => s[..i] + Expand(rep, p, s[..i], s[i + |p|..]) + s[i + |p|..]
  }

  /** As ReplaceFirstAfterFree, with the replacement patterns expanded
      against the match and the text around it. */
  lemma ReplaceFirstJsAfterFree(a: string, p: string, b: string, rep: string)
    requires Unbordered(p) && !Contains(a, p)
    ensures ReplaceFirstJs(a + p + b, p, rep) == a + Expand(rep, p, a, b) + b
  {
    IndexOfAfterFree(a, p, b);
    var s := a + p + b;
    assert s[..|a|] == a && s[|a| + |p|..] == b;
  }

  /** A `$&` between `$`-free texts brings the matched text back. */
  lemma ExpandMatchedText(x: string, y: string, matched: string, before: string, after: string)
    requires '$' !in x && '$' !in y
    ensures Expand(x + "$&" + y, matched, before, after) == x + matched + y
  {
    assert x + "$&" + y == x + ("$&" + y);
    ExpandPlainPrefix(x, "$&" + y, matched, before, after);
    assert ("$&" + y)[2..] == y;
    ExpandWithoutDollar(y, matched, before, after);
  }

  /** A replacement `x$&y` puts the pattern itself back between `x` and
      `y`, where literal insertion keeps the `$&`. */
  lemma ReplaceFirstJsMatched(a: string, p: string, b: string, x: string, y: string)
    requires Unbordered(p) && !Contains(a, p) && '$' !in x && '$' !in y
    ensures ReplaceFirstJs(a + p + b, p, x + "$&" + y) == a + (x + p + y) + b
    ensures ReplaceFirst(a + p + b, p, x + "$&" + y) == a + (x + "$&" + y) + b
  {
    ReplaceFirstJsAfterFree(a, p, b, x + "$&" + y);
    ExpandMatchedText(x, y, p, a, b);
    ReplaceFirstAfterFree(a, p, b, x + "$&" + y);
  }

  /** Both replacements agree when the replacement has no `$`. */
  lemma ReplaceFirstJsWithoutDollar(s: string, p: string, rep: string)
    requires '$' !in rep
    ensures ReplaceFirstJs(s, p, rep) == ReplaceFirst(s, p, rep)
  {
    if Contains(s, p) {
      var i := IndexOf(s, p).value;
      ExpandWithoutDollar(rep, p, s[..i], s[i + |p|..]);
    }
  }
}
