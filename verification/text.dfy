/**
 * Text primitives used by the log viewer: the two ways the source cuts a
 * file into lines (`readlines()` keeps the terminators, `splitlines()`
 * drops them), joining with a line feed, and `str.strip()`.
 *
 * Only the line feed is treated as a line terminator; see README.md.
 */
module Text {

  const LF: char := '\n'

  /** `b` ends with `a`. */
  predicate IsSuffix<T(==)>(a: seq<T>, b: seq<T>)
  {
    |a| <= |b| && b[|b| - |a|..] == a
  }

  /** Python's `s.endswith(suffix)`. */
  predicate EndsWith(s: string, suffix: string)
  {
    IsSuffix(suffix, s)
  }

  predicate EndsWithLF(s: string)
  {
    s != [] && s[|s| - 1] == LF
  }

  /** The last `n` elements of `xs`, or all of them when there are fewer. */
  function Last<T>(xs: seq<T>, n: nat): (r: seq<T>)
    ensures |r| == if n <= |xs| then n else |xs|
    ensures r == xs[|xs| - |r|..]
  {
    if n >= |xs| then xs else xs[|xs| - n..]
  }

  /** Concatenation of a sequence of strings. */
  function Concat(xs: seq<string>): string
  {
    if xs == [] then [] else xs[0] + Concat(xs[1..])
  }

  /** `sep.join(xs)` with a line feed as separator. */
  function Join(xs: seq<string>): string
  {
    if xs == [] then []
    else if |xs| == 1 then xs[0]
    else xs[0] + [LF] + Join(xs[1..])
  }

  /** A piece produced by `readlines()`: non-empty, a line feed only at its end. */
  predicate IsLine(l: string)
  {
    l != [] && LF !in l[..|l| - 1]
  }

  /**
   * `readlines()`: cut after every line feed, each piece keeping its
   * terminator; only the last piece may lack one.
   */
  function KeepEnds(s: string): (r: seq<string>)
    ensures Concat(r) == s
    ensures forall i :: 0 <= i < |r| ==> IsLine(r[i])
    ensures forall i :: 0 <= i < |r| - 1 ==> EndsWithLF(r[i])
    decreases |s|
  {
    if s == [] then []
    else if s[0] == LF then
      var t := KeepEnds(s[1..]);
      assert ([[LF]] + t)[1..] == t;
      [[LF]] + t
    else
      var t := KeepEnds(s[1..]);
      if t == [] then
        assert s == [s[0]];
        [[s[0]]]
      else
        var r := [[s[0]] + t[0]] + t[1..];
        assert r[1..] == t[1..];
        assert ([s[0]] + t[0])[..|[s[0]] + t[0]| - 1] == [s[0]] + t[0][..|t[0]| - 1];
        r
  }

  /** A line without its terminating line feed, if it has one. */
  function Chomp(l: string): string
  {
    if EndsWithLF(l) then l[..|l| - 1] else l
  }

  /**
   * `splitlines()`: the lines of `s` without their terminators. A final
   * line feed does not start an extra empty line, and the empty text has
   * no lines.
   */
  function Lines(s: string): (r: seq<string>)
    ensures forall i :: 0 <= i < |r| ==> LF !in r[i]
    ensures r == [] <==> s == []
    decreases |s|
  {
    if s == [] then []
    else if s[0] == LF then [[]] + Lines(s[1..])
    else
      var t := Lines(s[1..]);
      if t == [] then [[s[0]]] else [[s[0]] + t[0]] + t[1..]
  }

  /** `s.split("\n")`: every piece between line feeds, so never empty. */
  function SplitLF(s: string): (r: seq<string>)
    ensures |r| >= 1
    ensures forall i :: 0 <= i < |r| ==> LF !in r[i]
    decreases |s|
  {
    if s == [] then [[]]
    else if s[0] == LF then [[]] + SplitLF(s[1..])
    else
      var t := SplitLF(s[1..]);
      [[s[0]] + t[0]] + t[1..]
  }

  /** Joining the lines back restores the text, up to a final line feed. */
  lemma {:induction false} JoinLines(s: string)
    ensures Join(Lines(s)) + (if EndsWithLF(s) then [LF] else []) == s
    decreases |s|
  {
    if s != [] {
      var s' := s[1..];
      JoinLines(s');
      var t := Lines(s');
      var e: string := if EndsWithLF(s) then [LF] else [];
      if s' != [] {
        assert EndsWithLF(s) == EndsWithLF(s');
      }
      if s[0] == LF {
        if s' == [] {
          assert Lines(s) == [[]];
        } else {
          JoinAfterEmpty(t);
          assert ([LF] + Join(t)) + e == [LF] + s';
        }
      } else if t == [] {
        assert Lines(s) == [[s[0]]];
      } else {
        JoinAfterChar(s[0], t);
        assert ([s[0]] + Join(t)) + e == [s[0]] + s';
      }
      assert s == [s[0]] + s';
    }
  }

  lemma JoinAfterEmpty(t: seq<string>)
    requires t != []
    ensures Join([[]] + t) == [LF] + Join(t)
  {
    assert ([[]] + t)[1..] == t;
  }

  lemma JoinAfterChar(c: char, t: seq<string>)
    requires t != []
    ensures Join([[c] + t[0]] + t[1..]) == [c] + Join(t)
  {
    var r := [[c] + t[0]] + t[1..];
    assert r[1..] == t[1..];
    if |t| > 1 {
      assert Join(t) == t[0] + [LF] + Join(t[1..]);
    }
  }


  /** Splitting at line feeds and joining with line feeds are inverse. */
  lemma {:induction false} JoinSplitLF(s: string)
    ensures Join(SplitLF(s)) == s
    decreases |s|
  {
    if s != [] {
      var s' := s[1..];
      assert s == [s[0]] + s';
      JoinSplitLF(s');
      var t := SplitLF(s');
      if s[0] == LF {
        assert SplitLF(s)[1..] == t;
      } else {
        var r := [[s[0]] + t[0]] + t[1..];
        assert r[1..] == t[1..];
        if |t| > 1 {
          assert Join(t) == t[0] + [LF] + Join(t[1..]);
        }
      }
    }
  }

  /** The lines of `readlines()` are those of `splitlines()` with their terminators. */
  lemma {:induction false} KeepEndsChomp(s: string)
    ensures |KeepEnds(s)| == |Lines(s)|
    ensures forall i :: 0 <= i < |Lines(s)| ==> Lines(s)[i] == Chomp(KeepEnds(s)[i])
    decreases |s|
  {
    if s != [] {
      var s' := s[1..];
      KeepEndsChomp(s');
      var k := KeepEnds(s');
      var t := Lines(s');
      if s[0] != LF && t != [] {
        var l := [s[0]] + k[0];
        assert Chomp(l) == [s[0]] + Chomp(k[0]);
      }
    }
  }

  /**
   * Reading only a suffix `d` of the text cuts at most its first line:
   * every other line of `d` is, in order, a trailing line of the whole text.
   */
  lemma {:induction false} LinesOfSuffix(p: string, d: string)
    requires d != []
    ensures |Lines(p + d)| >= |Lines(d)|
    ensures IsSuffix(Lines(d)[1..], Lines(p + d))
    decreases |p|
  {
    if p == [] {
      assert p + d == d;
    } else {
      var p' := p[1..];
      assert (p + d)[1..] == p' + d;
      LinesOfSuffix(p', d);
      var t := Lines(p' + d);
      var m := |Lines(d)| - 1;
      if p[0] == LF {
        assert Lines(p + d) == [[]] + t;
      } else {
        var r := [[p[0]] + t[0]] + t[1..];
        assert Lines(p + d) == r;
        assert r[|r| - m..] == t[|t| - m..];
      }
    }
  }

  /** Same-length suffixes of a sequence and of one of its suffixes agree. */
  lemma LastOfSuffix<T>(a: seq<T>, b: seq<T>, n: nat)
    requires IsSuffix(a, b) && n <= |a|
    ensures Last(b, n) == Last(a, n)
  {
    assert b[|b| - |a|..][|a| - n..] == b[|b| - n..];
  }

  /** Python's `str.isspace()` on one character: the characters `str.strip()` removes. */
  predicate IsSpace(c: char)
  {
    || ('\t' <= c <= '\r')
    || ('\U{1C}' <= c <= '\U{1F}')
    || c == ' '
    || c == '\U{85}'
    || c == '\U{A0}'
    || c == '\U{1680}'
    || ('\U{2000}' <= c <= '\U{200A}')
    || c == '\U{2028}'
    || c == '\U{2029}'
    || c == '\U{202F}'
    || c == '\U{205F}'
    || c == '\U{3000}'
  }

  predicate AllSpace(s: string)
  {
    forall i :: 0 <= i < |s| ==> IsSpace(s[i])
  }

  /** `r` is `s` with all leading and trailing whitespace removed and nothing else. */
  ghost predicate IsStripOf(r: string, s: string)
  {
    exists i, j :: StrippedBetween(r, s, i, j)
  }

  ghost predicate StrippedBetween(r: string, s: string, i: int, j: int)
  {
    && 0 <= i <= j <= |s|
    && r == s[i..j]
    && AllSpace(s[..i])
    && AllSpace(s[j..])
    && (r == [] || (!IsSpace(r[0]) && !IsSpace(r[|r| - 1])))
  }

  function TrimStart(s: string): (r: string)
    ensures IsSuffix(r, s)
    ensures AllSpace(s[..|s| - |r|])
    ensures r == [] || !IsSpace(r[0])
  {
    if s != [] && IsSpace(s[0]) then
      var r := TrimStart(s[1..]);
      assert s[..|s| - |r|] == [s[0]] + s[1..][..|s[1..]| - |r|];
      r
    else s
  }

  function TrimEnd(s: string): (r: string)
    ensures r <= s
    ensures AllSpace(s[|r|..])
    ensures r == [] || !IsSpace(r[|r| - 1])
  {
    if s != [] && IsSpace(s[|s| - 1]) then
      var r := TrimEnd(s[..|s| - 1]);
      assert s[|r|..] == s[..|s| - 1][|r|..] + [s[|s| - 1]];
      r
    else s
  }

  /** Python's `s.strip()` with no argument. */
  function Strip(s: string): (r: string)
    ensures IsStripOf(r, s)
  {
    var a := TrimStart(s);
    var r := TrimEnd(a);
    var i := |s| - |a|;
    assert a == s[i..];
    assert r == s[i..i + |r|];
    assert s[i + |r|..] == a[|r|..];
    assert r != [] ==> r[0] == a[0];
    assert StrippedBetween(r, s, i, i + |r|);
    r
  }

  /** Stripping is well defined: there is only one way to strip a text. */
  lemma StripUnique(r1: string, r2: string, s: string)
    requires IsStripOf(r1, s) && IsStripOf(r2, s)
    ensures r1 == r2
  {
    var i1, j1 :| StrippedBetween(r1, s, i1, j1);
    var i2, j2 :| StrippedBetween(r2, s, i2, j2);
    EmptyStripMeansAllSpace(r1, s, i1, j1);
    EmptyStripMeansAllSpace(r2, s, i2, j2);
    if r1 != [] {
      SameStart(r1, r2, s, i1, j1, i2, j2);
      SameEnd(r1, r2, s, i1, j1, i2, j2);
    }
  }

  lemma SameStart(r1: string, r2: string, s: string, i1: int, j1: int, i2: int, j2: int)
    requires StrippedBetween(r1, s, i1, j1) && StrippedBetween(r2, s, i2, j2)
    requires r1 != [] && r2 != []
    ensures i1 == i2
  {
    assert s[i1] == r1[0] && s[i2] == r2[0];
    assert forall k :: 0 <= k < i1 ==> s[..i1][k] == s[k];
    assert forall k :: 0 <= k < i2 ==> s[..i2][k] == s[k];
  }

  lemma SameEnd(r1: string, r2: string, s: string, i1: int, j1: int, i2: int, j2: int)
    requires StrippedBetween(r1, s, i1, j1) && StrippedBetween(r2, s, i2, j2)
    requires r1 != [] && r2 != []
    ensures j1 == j2
  {
    assert s[j1 - 1] == r1[|r1| - 1] && s[j2 - 1] == r2[|r2| - 1];
    assert forall k :: j1 <= k < |s| ==> s[j1..][k - j1] == s[k];
    assert forall k :: j2 <= k < |s| ==> s[j2..][k - j2] == s[k];
  }

  lemma EmptyStripMeansAllSpace(r: string, s: string, i: int, j: int)
    requires StrippedBetween(r, s, i, j)
    ensures r == [] <==> AllSpace(s)
  {
    if r == [] {
      forall k | 0 <= k < |s|
        ensures IsSpace(s[k])
      {
        if k < i {
          assert s[..i][k] == s[k];
        } else {
          assert s[j..][k - j] == s[k];
        }
      }
    } else {
      assert s[i] == r[0];
    }
  }

  /** Stripping twice is stripping once. */
  lemma StripIdempotent(s: string)
    ensures Strip(Strip(s)) == Strip(s)
  {
    var r := Strip(s);
    if r == [] {
      assert StrippedBetween(r, r, 0, 0);
    } else {
      assert r[..0] == [] && r[|r|..] == [] && r[0..|r|] == r;
      assert StrippedBetween(r, r, 0, |r|);
    }
    StripUnique(Strip(r), r, r);
  }

  /** A line terminator is whitespace, so it never survives `strip()`. */
  lemma StripChomp(l: string)
    ensures Strip(Chomp(l)) == Strip(l)
  {
    if EndsWithLF(l) {
      var c := Chomp(l);
      var r := Strip(l);
      var i, j :| StrippedBetween(r, l, i, j);
      ChompStrippedBetween(r, l, i, j);
      var i', j' :| StrippedBetween(r, c, i', j');
      StripUnique(Strip(c), r, c);
    }
  }

  /** Where `l` strips to `r`, so does `l` without its final line feed. */
  lemma ChompStrippedBetween(r: string, l: string, i: int, j: int)
    requires EndsWithLF(l) && StrippedBetween(r, l, i, j)
    ensures exists i', j' :: StrippedBetween(r, Chomp(l), i', j')
  {
    var c := Chomp(l);
    assert c == l[..|l| - 1];
    if r == [] {
      EmptyStripMeansAllSpace(r, l, i, j);
      ChompAllSpace(l);
      assert c[..0] == [] && c[0..0] == [];
      assert StrippedBetween(r, c, 0, 0);
    } else {
      assert IsSpace(l[|l| - 1]);
      assert r[|r| - 1] == l[j - 1];
      assert j <= |l| - 1;
      assert c[..i] == l[..i];
      assert c[i..j] == l[i..j];
      assert c[j..] == l[j..|l| - 1];
      AllSpacePrefix(l[j..], |l| - 1 - j);
      assert l[j..][..|l| - 1 - j] == l[j..|l| - 1];
      assert StrippedBetween(r, c, i, j);
    }
  }

  lemma ChompAllSpace(l: string)
    requires EndsWithLF(l) && AllSpace(l)
    ensures AllSpace(l[..|l| - 1]) && l[..|l| - 1][0..] == l[..|l| - 1]
  {
    assert forall k :: 0 <= k < |l| - 1 ==> l[..|l| - 1][k] == l[k];
  }

  lemma AllSpacePrefix(s: string, n: nat)
    requires AllSpace(s) && n <= |s|
    ensures AllSpace(s[..n])
  {
    assert forall k :: 0 <= k < n ==> s[..n][k] == s[k];
  }
}
