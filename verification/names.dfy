/**
 * Name cleaning (`clean`) and the athlete identity key (`athleteKey`).
 * `clean` deletes, left to right, every match of `\s*\([^)]*\)` (whitespace,
 * an opening parenthesis, anything but a closing one, the closing one) and then
 * trims. The key is the lower-cased cleaned first name, `|`, the lower-cased
 * cleaned last name: two records are the same athlete exactly when their keys agree.
 */
module Names {
  import opened Wrappers
  import opened Text

  // ---------------------------------------------------------------- the group pattern

  /** Length of the run of whitespace at the start of `s` (`\s*` matched greedily). */
  function SpaceRun(s: string): (n: nat)
    ensures n <= |s| && AllSpace(s[..n])
    ensures n == |s| || !IsSpace(s[n])
  {
    if s != [] && IsSpace(s[0]) then
      var n := 1 + SpaceRun(s[1..]);
      assert s[..n] == [s[0]] + s[1..][..n - 1];
      n
    else 0
  }

  /** `p` is one match of `\s*\([^)]*\)` whose opening parenthesis is at `w`. */
  predicate IsGroupAt(p: string, w: nat) {
    && w + 2 <= |p| && AllSpace(p[..w]) && p[w] == '('
    && p[|p| - 1] == ')' && ')' !in p[w + 1..|p| - 1]
  }

  /** `p` is one match of `\s*\([^)]*\)`. */
  ghost predicate IsGroup(p: string) {
    exists w: nat :: IsGroupAt(p, w)
  }

  /** Length of the match of the group pattern anchored at the start of `s`, if any. */
  function GroupMatch(s: string): (r: Option<nat>)
    ensures r.Some? ==> 2 <= r.value <= |s|
  {
    GroupFrom(s, SpaceRun(s))
  }

  /** The end of the match that continues the whitespace run `s[..w]` with `\([^)]*\)`:
      an opening parenthesis at `w`, then everything up to the first closing one. */
  function GroupFrom(s: string, w: nat): (r: Option<nat>)
    requires w <= |s|
    ensures r.Some? ==> w + 2 <= r.value <= |s|
  {
    if w < |s| && s[w] == '(' then
      match IndexOf(s[w + 1..], ')')
      case Some(c) => Some(w + c + 2)
      case None => None
    else None
  }

  /** A leading whitespace run followed by a non-space is exactly what `SpaceRun` measures. */
  lemma SpaceRunUnique(s: string, w: nat)
    requires w < |s| && AllSpace(s[..w]) && !IsSpace(s[w])
    ensures SpaceRun(s) == w
  {
  }

  /** What `GroupMatch` matches is a group. */
  lemma GroupMatchIsGroup(s: string) returns (w: nat)
    requires GroupMatch(s).Some?
    ensures IsGroupAt(s[..GroupMatch(s).value], w)
  {
    var c;
    w, c := GroupMatchParts(s);
    PrefixGroup(s, w, c, GroupMatch(s).value);
  }

  /** Whitespace, `(`, `c` characters other than `)` and `)` at the start of `s` form a
      group of length `n`. */
  lemma PrefixGroup(s: string, w: nat, c: nat, n: nat)
    requires n == w + c + 2 <= |s| && AllSpace(s[..w]) && s[w] == '(' && s[w + 1 + c] == ')'
    requires ')' !in s[w + 1..w + 1 + c]
    ensures IsGroupAt(s[..n], w)
  {
    var p := s[..n];
    assert p[..w] == s[..w];
    assert p[w + 1..|p| - 1] == s[w + 1..w + 1 + c];
  }

  /** A match is the whitespace run, `(` at `w`, `c` characters other than `)`, and `)`. */
  lemma GroupMatchParts(s: string) returns (w: nat, c: nat)
    requires GroupMatch(s).Some?
    ensures GroupMatch(s) == Some(w + c + 2)
    ensures w + c + 2 <= |s| && AllSpace(s[..w]) && s[w] == '(' && s[w + 1 + c] == ')'
    ensures ')' !in s[w + 1..w + 1 + c]
  {
    w := SpaceRun(s);
    assert w < |s| && s[w] == '(';
    var t := s[w + 1..];
    assert IndexOf(t, ')').Some?;
    c := IndexOf(t, ')').value;
    GroupMatchAt(s, w, c);
    OpenThenClose(s, w, c);
  }

  /** `GroupMatch` once the whitespace run and the closing parenthesis are known. */
  lemma GroupMatchAt(s: string, w: nat, c: nat)
    requires w == SpaceRun(s) && w < |s| && s[w] == '(' && IndexOf(s[w + 1..], ')') == Some(c)
    ensures GroupMatch(s) == Some(w + c + 2)
  {
    GroupFromAt(s, w, c);
  }

  lemma GroupFromAt(s: string, w: nat, c: nat)
    requires w < |s| && s[w] == '(' && IndexOf(s[w + 1..], ')') == Some(c)
    ensures GroupFrom(s, w) == Some(w + c + 2)
  {
  }

  /** The first `)` after index `w`, read off `s` itself. */
  lemma OpenThenClose(s: string, w: nat, c: nat)
    requires w < |s| && IndexOf(s[w + 1..], ')') == Some(c)
    ensures w + c + 2 <= |s| && s[w + 1 + c] == ')' && ')' !in s[w + 1..w + 1 + c]
  {
    var t := s[w + 1..];
    assert t[c] == s[w + 1 + c];
    assert t[..c] == s[w + 1..w + 1 + c];
  }

  /** A group that is a prefix of `s` is what `GroupMatch` matches. */
  lemma GroupPrefixMatches(s: string, n: nat, w: nat)
    requires n <= |s| && IsGroupAt(s[..n], w)
    ensures GroupMatch(s) == Some(n)
  {
    PrefixGroupParts(s, n, w);
    SpaceRunUnique(s, w);
    CloseAfter(s, w, n);
  }

  /** The first `)` after the opening parenthesis at `w` is the one at `n - 1`. */
  lemma CloseAfter(s: string, w: nat, n: nat)
    requires w + 2 <= n <= |s| && s[n - 1] == ')' && ')' !in s[w + 1..n - 1]
    ensures IndexOf(s[w + 1..], ')') == Some(n - w - 2)
  {
    var t := s[w + 1..];
    assert t[n - w - 2] == s[n - 1];
    assert t[..n - w - 2] == s[w + 1..n - 1];
    IndexOfUnique(t, ')', n - w - 2);
  }

  /** A group that is a prefix of `s`, read off `s` itself. */
  lemma PrefixGroupParts(s: string, n: nat, w: nat)
    requires n <= |s| && IsGroupAt(s[..n], w)
    ensures w + 2 <= n && AllSpace(s[..w]) && s[w] == '(' && s[n - 1] == ')'
    ensures ')' !in s[w + 1..n - 1]
  {
    var p := s[..n];
    assert p[..w] == s[..w];
    assert p[w + 1..|p| - 1] == s[w + 1..n - 1];
  }

  /** `GroupMatch` recognises the group pattern: what it matches is a group, and the
      group that is a prefix of `s`, when there is one, is what it matches. */
  lemma GroupMatchSpec(s: string)
    ensures GroupMatch(s).Some? ==> IsGroup(s[..GroupMatch(s).value])
    ensures forall n: nat :: n <= |s| && IsGroup(s[..n]) ==> GroupMatch(s) == Some(n)
  {
    if GroupMatch(s).Some? {
      var w := GroupMatchIsGroup(s);
    }
    forall n: nat | n <= |s| && IsGroup(s[..n])
      ensures GroupMatch(s) == Some(n)
    {
      var w: nat :| IsGroupAt(s[..n], w);
      GroupPrefixMatches(s, n, w);
    }
  }

  // ---------------------------------------------------------------- clean

  /** `s.replace(/\s*\([^)]*\)/g, "")`: scanning left to right, a group that starts at
      the current position is deleted, otherwise the character there is kept. */
  function StripGroups(s: string): (r: string)
    ensures |r| <= |s|
    decreases |s|
  {
    if s == [] then []
    else
      match GroupMatch(s)
      case Some(n) => StripGroups(s[n..])
      case None => [s[0]] + StripGroups(s[1..])
  }

  /** Deleting groups never introduces a character. */
  lemma {:induction false} StripGroupsKeepsOut(s: string, c: char)
    requires c !in s
    ensures c !in StripGroups(s)
    decreases |s|
  {
    if s != [] {
      match GroupMatch(s)
      case Some(n) =>
        assert c !in s[n..];
        StripGroupsKeepsOut(s[n..], c);
      case None =>
        assert c !in s[1..];
        StripGroupsKeepsOut(s[1..], c);
    }
  }

  /** No opening parenthesis in `s` is followed, anywhere later, by a closing one:
      the group pattern matches nowhere in `s`. */
  predicate HasNoGroup(s: string) {
    forall i, j :: 0 <= i < j < |s| && s[i] == '(' ==> s[j] != ')'
  }

  /** After the deletion no group is left. */
  lemma {:induction false} StripGroupsLeavesNoGroup(s: string)
    ensures HasNoGroup(StripGroups(s))
    decreases |s|
  {
    if s != [] {
      match GroupMatch(s)
      case Some(n) =>
        StripGroupsLeavesNoGroup(s[n..]);
      case None =>
        StripGroupsLeavesNoGroup(s[1..]);
        StripGroupsKeepsFirst(s);
        if s[0] == '(' {
          NoMatchOpen(s);
          StripGroupsKeepsOut(s[1..], ')');
        }
        ConsNoGroup(s[0], StripGroups(s[1..]));
    }
  }

  /** Where an opening parenthesis starts the text and no group matches, no closing one follows. */
  lemma NoMatchOpen(s: string)
    requires s != [] && s[0] == '(' && GroupMatch(s).None?
    ensures ')' !in s[1..]
  {
    assert SpaceRun(s) == 0;
    assert s[1..] == s[0 + 1..];
  }

  /** Putting a character in front of a text with no group leaves none, unless it opens
      a parenthesis that a later character closes. */
  lemma ConsNoGroup(x: char, rest: string)
    requires HasNoGroup(rest) && (x == '(' ==> ')' !in rest)
    ensures HasNoGroup([x] + rest)
  {
    var r := [x] + rest;
    forall i, j | 0 <= i < j < |r| && r[i] == '('
      ensures r[j] != ')'
    {
      if i > 0 {
        assert r[i] == rest[i - 1] && r[j] == rest[j - 1];
      } else {
        assert r[j] == rest[j - 1];
      }
    }
  }

  /** A text with no group in it is left as it is. */
  lemma {:induction false} StripGroupsOfNoGroup(s: string)
    requires HasNoGroup(s)
    ensures StripGroups(s) == s
    decreases |s|
  {
    if s != [] {
      NoGroupNoMatch(s);
      StripGroupsKeepsFirst(s);
      NoGroupSlice(s, 1, |s|);
      assert s[1..|s|] == s[1..];
      StripGroupsOfNoGroup(s[1..]);
      assert [s[0]] + s[1..] == s;
    }
  }

  /** The group pattern does not match at the start of a text with no group in it. */
  lemma NoGroupNoMatch(s: string)
    requires HasNoGroup(s)
    ensures GroupMatch(s).None?
  {
    var w := SpaceRun(s);
    if w < |s| && s[w] == '(' {
      var t := s[w + 1..];
      forall k | 0 <= k < |t|
        ensures t[k] != ')'
      {
        assert t[k] == s[w + 1 + k];
      }
      assert IndexOf(t, ')').None?;
    }
  }

  /** The leading whitespace run stops at the first non-space. */
  lemma SpaceRunBefore(s: string, k: nat)
    requires k < |s| && !IsSpace(s[k])
    ensures SpaceRun(s) <= k
  {
  }

  /** A text whose first non-space comes before any opening parenthesis does not
      start with a group. */
  lemma NoGroupAtPlainStart(s: string, k: nat)
    requires k < |s| && !IsSpace(s[k]) && '(' !in s[..k + 1]
    ensures GroupMatch(s).None?
  {
    SpaceRunBefore(s, k);
    var w := SpaceRun(s);
    assert s[w] == s[..k + 1][w];
    GroupFromNone(s, w);
    assert GroupMatch(s) == GroupFrom(s, w);
  }

  /** No group continues a whitespace run that is not followed by `(`. */
  lemma GroupFromNone(s: string, w: nat)
    requires w < |s| && s[w] != '('
    ensures GroupFrom(s, w).None?
  {
  }

  /** Where no group starts, the first character is kept. */
  lemma StripGroupsKeepsFirst(s: string)
    requires s != [] && GroupMatch(s).None?
    ensures StripGroups(s) == [s[0]] + StripGroups(s[1..])
  {
  }

  lemma ConsAppend(x: string, z: string)
    requires x != []
    ensures [x[0]] + (x[1..] + z) == x + z
  {
    assert x == [x[0]] + x[1..];
  }

  /** A prefix without parentheses that does not end in whitespace is kept untouched,
      whatever follows it. */
  lemma {:induction false} StripGroupsPlainPrefix(x: string, y: string)
    requires '(' !in x
    requires x == [] || !IsSpace(x[|x| - 1])
    ensures StripGroups(x + y) == x + StripGroups(y)
    decreases |x|
  {
    if x != [] {
      PlainPrefixStep(x, y);
      StripGroupsPlainPrefix(x[1..], y);
      ConsAppend(x, StripGroups(y));
    } else {
      assert x + y == y;
    }
  }

  /** One step of `StripGroupsPlainPrefix`: the first character of the prefix is kept,
      and the rest of the prefix still qualifies. */
  lemma PlainPrefixStep(x: string, y: string)
    requires x != [] && '(' !in x && !IsSpace(x[|x| - 1])
    ensures StripGroups(x + y) == [x[0]] + StripGroups(x[1..] + y)
    ensures '(' !in x[1..] && (x[1..] == [] || !IsSpace(x[1..][|x[1..]| - 1]))
  {
    var s := x + y;
    assert GroupMatch(s).None? by {
      assert s[..|x|] == x;
      NoGroupAtPlainStart(s, |x| - 1);
    }
    StripGroupsKeepsFirst(s);
    assert s[0] == x[0] && s[1..] == x[1..] + y;
    PlainTail(x);
  }

  lemma PlainTail(x: string)
    requires x != [] && '(' !in x && !IsSpace(x[|x| - 1])
    ensures '(' !in x[1..] && (x[1..] == [] || !IsSpace(x[1..][|x[1..]| - 1]))
  {
    assert x[1..] == [] || x[1..][|x[1..]| - 1] == x[|x| - 1];
  }

  /** Deleting the groups of a text that is a single group leaves nothing. */
  lemma StripGroupsOfGroup(g: string, w: nat)
    requires IsGroupAt(g, w)
    ensures StripGroups(g) == []
  {
    assert g[..|g|] == g;
    GroupPrefixMatches(g, |g|, w);
    assert g[|g|..] == [];
  }

  /** A piece of a text with no group in it has no group in it. */
  lemma NoGroupSlice(t: string, i: nat, j: nat)
    requires i <= j <= |t| && HasNoGroup(t)
    ensures HasNoGroup(t[i..j])
  {
    var r := t[i..j];
    forall a, b | 0 <= a < b < |r| && r[a] == '('
      ensures r[b] != ')'
    {
      assert r[a] == t[i + a] && r[b] == t[i + b];
    }
  }

  /** `clean`: delete every group, then trim. */
  function Clean(s: string): string {
    Trim(StripGroups(s))
  }

  /** A cleaned name has no whitespace at its ends and no group left in it. */
  lemma CleanIsClean(s: string)
    ensures IsTrimmed(Clean(s)) && HasNoGroup(Clean(s))
  {
    var t := StripGroups(s);
    StripGroupsLeavesNoGroup(s);
    var u := TrimStart(t);
    NoGroupSlice(t, |t| - |u|, |t|);
    var r := TrimEnd(u);
    NoGroupSlice(u, 0, |r|);
    assert u[0..|r|] == r;
  }

  /** Cleaning never introduces a character. */
  lemma CleanKeepsOut(s: string, c: char)
    requires c !in s
    ensures c !in Clean(s)
  {
    StripGroupsKeepsOut(s, c);
    TrimKeepsOut(StripGroups(s), c);
  }

  /** Cleaning a cleaned name changes nothing. */
  lemma CleanIdempotent(s: string)
    ensures Clean(Clean(s)) == Clean(s)
  {
    var c := Clean(s);
    CleanIsClean(s);
    StripGroupsOfNoGroup(c);
    TrimOfTrimmed(c);
  }

  /** A name with no opening parenthesis is only trimmed. */
  lemma CleanWithoutParentheses(s: string)
    requires '(' !in s
    ensures Clean(s) == Trim(s)
  {
    StripGroupsOfNoGroup(s);
  }

  lemma RemarkIsGroup()
    ensures IsGroupAt(" (Soph)", 1)
  {
    var g := " (Soph)";
    assert g[..1] == " ";
    assert g[2..|g| - 1] == "Soph";
  }

  /** A bracketed remark after a name is deleted together with the whitespace before
      it, leaving the name. */
  lemma CleanRemark(name: string, g: string, w: nat)
    requires '(' !in name && IsTrimmed(name) && IsGroupAt(g, w)
    ensures Clean(name + g) == name
  {
    StripGroupsPlainPrefix(name, g);
    StripGroupsOfGroup(g, w);
    assert name + [] == name;
    TrimOfTrimmed(name);
  }

  /** "Smith (Soph)" cleans to "Smith". */
  lemma CleanExampleRemark()
    ensures Clean("Smith (Soph)") == "Smith"
  {
    var name, g := "Smith", " (Soph)";
    assert "Smith (Soph)" == name + g;
    assert '(' !in name && IsTrimmed(name);
    RemarkIsGroup();
    CleanRemark(name, g, 1);
  }

  /** "  Jones  " cleans to "Jones". */
  lemma CleanExamplePadded()
    ensures Clean("  Jones  ") == "Jones"
  {
    var pad, name := "  ", "Jones";
    assert "  Jones  " == pad + name + pad;
    assert AllSpace(pad) && IsTrimmed(name) && '(' !in "  Jones  ";
    CleanWithoutParentheses("  Jones  ");
    TrimPadded(pad, name, pad);
  }

  // ---------------------------------------------------------------- identity key

  /** `athleteKey`: lower-cased cleaned first name, `|`, lower-cased cleaned last name. */
  function AthleteKey(first: string, last: string): string {
    Lower(Clean(first)) + "|" + Lower(Clean(last))
  }

  /** Keys can be rebuilt from already cleaned names: the key of a parsed row, computed
      from its cleaned names, is the key of the raw cells. */
  lemma KeyOfCleanedNames(first: string, last: string)
    ensures AthleteKey(Clean(first), Clean(last)) == AthleteKey(first, last)
  {
    CleanIdempotent(first);
    CleanIdempotent(last);
  }

  /** The key holds the separator right after the folded first name. */
  lemma KeyHasSeparator(first: string, last: string)
    ensures var k := AthleteKey(first, last);
            |Clean(first)| < |k| && k[|Clean(first)|] == '|'
  {
    var c := Clean(first);
    var f := Lower(c);
    SeparatorAt(f, Lower(Clean(last)));
  }

  lemma SeparatorAt(a: string, b: string)
    ensures |a| < |a + "|" + b| && (a + "|" + b)[|a|] == '|'
  {
  }

  /** Joining two texts around a separator that the first never holds can be undone. */
  lemma SeparatedInjective(a: string, b: string, c: string, d: string, sep: char)
    requires sep !in a && sep !in c
    ensures a + [sep] + b == c + [sep] + d <==> a == c && b == d
  {
    var k1, k2 := a + [sep] + b, c + [sep] + d;
    assert k1[..|a|] == a && k2[..|c|] == c;
    IndexOfUnique(k1, sep, |a|);
    IndexOfUnique(k2, sep, |c|);
    if k1 == k2 {
      assert |a| == |c|;
      assert k1[|a| + 1..] == b && k2[|c| + 1..] == d;
    }
  }

  /** When the first names hold no `|`, keys agree exactly when the case-folded cleaned
      first names agree and the case-folded cleaned last names agree. */
  lemma KeyInjective(a: string, b: string, c: string, d: string)
    requires '|' !in a && '|' !in c
    ensures AthleteKey(a, b) == AthleteKey(c, d)
            <==> Lower(Clean(a)) == Lower(Clean(c)) && Lower(Clean(b)) == Lower(Clean(d))
  {
    CleanKeepsOut(a, '|');
    CleanKeepsOut(c, '|');
    LowerKeepsNonLetter(Clean(a), '|');
    LowerKeepsNonLetter(Clean(c), '|');
    SeparatedInjective(Lower(Clean(a)), Lower(Clean(b)), Lower(Clean(c)), Lower(Clean(d)), '|');
  }
}
