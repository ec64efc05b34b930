/** Python's `str` operations that the scraper relies on, over `seq<char>`:
    `split` with an explicit separator, `strip()` with no argument,
    `replace(c, '')`, `startswith`, and iterating a text file line by line. */
module PyStr {

  // ---------------------------------------------------------------------------
  // Searching
  // ---------------------------------------------------------------------------

  /** `sep` occurs in `s` starting at index `j`. */
  predicate OccursAt(s: string, sep: string, j: nat) {
    j + |sep| <= |s| && s[j..j + |sep|] == sep
  }

  /** Python's `sep in s`. */
  predicate Contains(s: string, sep: string) {
    exists j: nat | j <= |s| :: OccursAt(s, sep, j)
  }

  /** Index of the first occurrence of `sep` at or after `from`, or `|s|` when there is none. */
  function FindFrom(s: string, sep: string, from: nat): (i: nat)
    requires |sep| > 0 && from <= |s|
    ensures from <= i <= |s|
    ensures i < |s| ==> OccursAt(s, sep, i)
    ensures forall j: nat :: from <= j < i ==> !OccursAt(s, sep, j)
    decreases |s| - from
  {
    if from == |s| then |s|
    else if OccursAt(s, sep, from) then from
    else FindFrom(s, sep, from + 1)
  }

  /** Python's `s.find(sep)`, with "not found" reported as `|s|` instead of -1. */
  function Find(s: string, sep: string): (i: nat)
    requires |sep| > 0
    ensures i <= |s|
    ensures i < |s| ==> OccursAt(s, sep, i)
    ensures forall j: nat :: j < i ==> !OccursAt(s, sep, j)
  {
    FindFrom(s, sep, 0)
  }

  /** `find` reports "not found" exactly when `sep` does not occur. */
  lemma FindContains(s: string, sep: string)
    requires |sep| > 0
    ensures Find(s, sep) < |s| <==> Contains(s, sep)
  {
    var i := Find(s, sep);
    if Contains(s, sep) {
      var j: nat :| j <= |s| && OccursAt(s, sep, j);
      assert i <= j;
    }
  }

  /** For a one-character separator, an occurrence is just an equal character. */
  lemma OccursAtChar(s: string, c: char, j: nat)
    ensures OccursAt(s, [c], j) <==> j < |s| && s[j] == c
  {
    if j < |s| {
      assert s[j..j + 1] == [s[j]];
    }
  }

  /** The first occurrence of `c` is at the first index holding `c`. */
  lemma FindChar(s: string, c: char, i: nat)
    requires i <= |s|
    requires i < |s| ==> s[i] == c
    requires forall k :: 0 <= k < i ==> s[k] != c
    ensures Find(s, [c]) == i
  {
    var f := Find(s, [c]);
    OccursAtChar(s, c, f);
    OccursAtChar(s, c, i);
  }

  /** Cutting the text after the first `c` does not move it. */
  lemma FindCharInPrefix(s: string, c: char, n: nat)
    requires Find(s, [c]) <= n <= |s|
    ensures Find(s[..n], [c]) == Find(s, [c])
  {
    var f := Find(s, [c]);
    OccursAtChar(s, c, f);
    forall k | 0 <= k < f ensures s[..n][k] != c {
      OccursAtChar(s, c, k);
    }
    FindChar(s[..n], c, f);
  }

  /** A one-character `sep in s` is Dafny's `c in s`. */
  lemma ContainsChar(s: string, c: char)
    ensures Contains(s, [c]) <==> c in s
  {
    if c in s {
      var k :| 0 <= k < |s| && s[k] == c;
      OccursAtChar(s, c, k);
    }
    if Contains(s, [c]) {
      var j: nat :| OccursAt(s, [c], j);
      OccursAtChar(s, c, j);
    }
  }

  // ---------------------------------------------------------------------------
  // split / join
  // ---------------------------------------------------------------------------

  /** Python's `sep.join(parts)`. */
  function Join(parts: seq<string>, sep: string): string
  {
    if |parts| == 0 then []
    else if |parts| == 1 then parts[0]
    else parts[0] + sep + Join(parts[1..], sep)
  }

  /** Appending one more part adds one separator and that part. */
  lemma {:induction false} JoinSnoc(parts: seq<string>, x: string, sep: string)
    requires |parts| >= 1
    ensures Join(parts + [x], sep) == Join(parts, sep) + sep + x
    decreases |parts|
  {
    if |parts| == 1 {
      assert (parts + [x])[1..] == [x];
    } else {
      assert (parts + [x])[1..] == parts[1..] + [x];
      JoinSnoc(parts[1..], x, sep);
    }
  }

  lemma NoOccurrenceInPrefix(s: string, sep: string, i: nat)
    requires |sep| > 0 && i <= |s|
    requires forall j: nat :: j < i ==> !OccursAt(s, sep, j)
    ensures !Contains(s[..i], sep)
  {
    if Contains(s[..i], sep) {
      var j: nat :| j <= i && OccursAt(s[..i], sep, j);
      assert j + |sep| <= i;
      assert s[..i][j..j + |sep|] == s[j..j + |sep|];
      assert OccursAt(s, sep, j);
    }
  }

  /** Python's `s.split(sep)` for a non-empty separator: the pieces between
      successive left-to-right, non-overlapping occurrences of `sep`. */
  function Split(s: string, sep: string): (parts: seq<string>)
    requires |sep| > 0
    ensures |parts| >= 1
    ensures Join(parts, sep) == s
    decreases |s|
  {
    var i := Find(s, sep);
    if i == |s| then [s]
    else
      assert s == s[..i] + sep + s[i + |sep|..] by {
        assert s == s[..i] + s[i..i + |sep|] + s[i + |sep|..];
      }
      [s[..i]] + Split(s[i + |sep|..], sep)
  }

  /** No piece of a split contains the separator. */
  lemma {:induction false} SplitPiecesFree(s: string, sep: string)
    requires |sep| > 0
    ensures forall k :: 0 <= k < |Split(s, sep)| ==> !Contains(Split(s, sep)[k], sep)
    decreases |s|
  {
    var i := Find(s, sep);
    if i == |s| {
      FindContains(s, sep);
    } else {
      NoOccurrenceInPrefix(s, sep, i);
      SplitPiecesFree(s[i + |sep|..], sep);
    }
  }

  /** The first piece of a split is everything before the first separator. */
  lemma SplitFirst(s: string, sep: string)
    requires |sep| > 0
    ensures Split(s, sep)[0] == s[..Find(s, sep)]
  {
  }

  /** Past the first separator, the remaining pieces are the split of what follows it. */
  lemma SplitRest(s: string, sep: string)
    requires |sep| > 0 && Contains(s, sep)
    ensures |Split(s, sep)| >= 2
    ensures Split(s, sep)[1..] == Split(s[Find(s, sep) + |sep|..], sep)
  {
    FindContains(s, sep);
  }

  /** Piece 1 of a split runs from just after the first separator to the next one. */
  lemma SplitSecond(s: string, sep: string)
    requires |sep| > 0 && Find(s, sep) < |s|
    ensures Find(s, sep) + |sep| <= |s|
    ensures |Split(s, sep)| >= 2
    ensures Split(s, sep)[1] == s[Find(s, sep) + |sep|..][..Find(s[Find(s, sep) + |sep|..], sep)]
  {
    FindContains(s, sep);
    SplitRest(s, sep);
    var rest := s[Find(s, sep) + |sep|..];
    assert Split(s, sep)[1] == Split(rest, sep)[0];
    SplitFirst(rest, sep);
  }

  /** A split yields a single piece exactly when the separator does not occur. */
  lemma SplitSingle(s: string, sep: string)
    requires |sep| > 0
    ensures |Split(s, sep)| == 1 <==> !Contains(s, sep)
  {
    FindContains(s, sep);
  }

  /** Splitting a text free of `c` yields the text alone. */
  lemma SplitCharNone(a: string, c: char)
    requires c !in a
    ensures Split(a, [c]) == [a]
  {
    FindChar(a, c, |a|);
  }

  /** A separator-free first piece is peeled off the front of the split. */
  lemma SplitCharCons(a: string, c: char, b: string)
    requires c !in a
    ensures Split(a + [c] + b, [c]) == [a] + Split(b, [c])
  {
    var s := a + [c] + b;
    FindChar(s, c, |a|);
    assert s[..|a|] == a;
    assert s[|a| + 1..] == b;
  }

  /** `s.split(c)` has one more piece than `s` has copies of `c`. */
  lemma {:induction false} SplitCharCount(s: string, c: char)
    ensures |Split(s, [c])| == multiset(s)[c] + 1
    decreases |s|
  {
    var i := Find(s, [c]);
    if i == |s| {
      forall k | 0 <= k < |s| ensures s[k] != c {
        OccursAtChar(s, c, k);
      }
      assert c !in multiset(s);
    } else {
      OccursAtChar(s, c, i);
      var a, b := s[..i], s[i + 1..];
      assert forall k :: 0 <= k < i ==> s[k] != c by {
        forall k | 0 <= k < i ensures s[k] != c {
          OccursAtChar(s, c, k);
        }
      }
      assert s == a + [c] + b;
      SplitCharCons(a, c, b);
      SplitCharCount(b, c);
      assert multiset(s) == multiset(a) + multiset{c} + multiset(b);
    }
  }

  // ---------------------------------------------------------------------------
  // strip
  // ---------------------------------------------------------------------------

  /** The characters for which Python's `str.isspace()` holds. */
  const Whitespace: set<char> := {
    '\t', '\n', '\U{0B}', '\U{0C}', '\r', '\U{1C}', '\U{1D}', '\U{1E}', '\U{1F}', ' ',
    '\U{85}', '\U{A0}', '\U{1680}',
    '\U{2000}', '\U{2001}', '\U{2002}', '\U{2003}', '\U{2004}', '\U{2005}',
    '\U{2006}', '\U{2007}', '\U{2008}', '\U{2009}', '\U{200A}',
    '\U{2028}', '\U{2029}', '\U{202F}', '\U{205F}', '\U{3000}'
  }

  predicate IsSpace(c: char) {
    c in Whitespace
  }

  predicate AllSpace(s: string) {
    forall k :: 0 <= k < |s| ==> IsSpace(s[k])
  }

  /** Index of the first non-whitespace character at or after `from`. */
  function SkipSpace(s: string, from: nat): (i: nat)
    requires from <= |s|
    ensures from <= i <= |s|
    ensures forall k :: from <= k < i ==> IsSpace(s[k])
    ensures i < |s| ==> !IsSpace(s[i])
    decreases |s| - from
  {
    if from == |s| || !IsSpace(s[from]) then from else SkipSpace(s, from + 1)
  }

  /** One past the last non-whitespace character at or after `lo`, scanning back from `hi`. */
  function SkipSpaceBack(s: string, lo: nat, hi: nat): (j: nat)
    requires lo <= hi <= |s|
    ensures lo <= j <= hi
    ensures forall k :: j <= k < hi ==> IsSpace(s[k])
    ensures j > lo ==> !IsSpace(s[j - 1])
    decreases hi
  {
    if hi == lo || !IsSpace(s[hi - 1]) then hi else SkipSpaceBack(s, lo, hi - 1)
  }

  /** The result of stripping `s` down to `s[i..j]`. */
  predicate StrippedAt(s: string, r: string, i: nat, j: nat) {
    && i <= j <= |s|
    && r == s[i..j]
    && AllSpace(s[..i])
    && AllSpace(s[j..])
    && (|r| > 0 ==> !IsSpace(r[0]) && !IsSpace(r[|r| - 1]))
  }

  /** Python's `s.strip()`: drop leading and trailing whitespace. */
  function Strip(s: string): (r: string)
    ensures exists i: nat, j: nat :: StrippedAt(s, r, i, j)
  {
    var i := SkipSpace(s, 0);
    var j := SkipSpaceBack(s, i, |s|);
    assert StrippedAt(s, s[i..j], i, j);
    s[i..j]
  }

  /** Whatever whitespace surrounds a core without outer whitespace, `strip` returns that core. */
  lemma StripOf(pre: string, core: string, suf: string)
    requires AllSpace(pre) && AllSpace(suf)
    requires |core| > 0 ==> !IsSpace(core[0]) && !IsSpace(core[|core| - 1])
    ensures Strip(pre + core + suf) == core
  {
    var s := pre + core + suf;
    var i := SkipSpace(s, 0);
    if |core| > 0 {
      assert s[|pre|] == core[0];
      assert i == |pre|;
      var j := SkipSpaceBack(s, i, |s|);
      assert s[|pre| + |core| - 1] == core[|core| - 1];
      assert j == |pre| + |core|;
      assert s[i..j] == core;
    } else {
      assert AllSpace(s);
      assert i == |s|;
    }
  }

  /** `strip` yields the empty string exactly when the text is all whitespace. */
  lemma StripEmptyIff(s: string)
    ensures Strip(s) == [] <==> AllSpace(s)
  {
    var i: nat, j: nat :| StrippedAt(s, Strip(s), i, j);
    if Strip(s) == [] {
      assert s == s[..i] + s[j..];
    } else {
      assert !IsSpace(s[i]);
    }
  }

  // ---------------------------------------------------------------------------
  // replace, startswith
  // ---------------------------------------------------------------------------

  /** Python's `s.replace(c, '')` for a one-character `c`. */
  function RemoveChar(s: string, c: char): (r: string)
    ensures multiset(r) == multiset(s)[c := 0]
    ensures c !in r
    ensures c !in s ==> r == s
    decreases |s|
  {
    if s == [] then []
    else
      assert s == [s[0]] + s[1..];
      if s[0] == c then RemoveChar(s[1..], c)
      else [s[0]] + RemoveChar(s[1..], c)
  }

  /** Removal works piecewise, so the surviving characters keep their order. */
  lemma {:induction false} RemoveCharConcat(a: string, b: string, c: char)
    ensures RemoveChar(a + b, c) == RemoveChar(a, c) + RemoveChar(b, c)
    decreases |a|
  {
    if a != [] {
      assert (a + b)[0] == a[0] && (a + b)[1..] == a[1..] + b;
      RemoveCharConcat(a[1..], b, c);
      if a[0] != c {
        assert [a[0]] + (RemoveChar(a[1..], c) + RemoveChar(b, c))
            == ([a[0]] + RemoveChar(a[1..], c)) + RemoveChar(b, c);
      }
    } else {
      assert a + b == b;
    }
  }

  /** Python's `s.startswith(p)`. */
  predicate StartsWith(s: string, p: string) {
    |p| <= |s| && s[..|p|] == p
  }

  // ---------------------------------------------------------------------------
  // Reading a text file line by line
  // ---------------------------------------------------------------------------

  /** Python's default text-mode reading ("universal newlines"): `\r\n` and a lone
      `\r` both arrive as `\n`. */
  function UniversalNewlines(s: string): (r: string)
    ensures '\r' !in r
    ensures '\r' !in s ==> r == s
    ensures |r| <= |s|
    decreases |s|
  {
    if s == [] then []
    else if s[0] == '\r' then
      "\n" + UniversalNewlines(if |s| > 1 && s[1] == '\n' then s[2..] else s[1..])
    else [s[0]] + UniversalNewlines(s[1..])
  }

  /** Text before the first `\r` passes through unchanged. */
  lemma {:induction false} UniversalNewlinesAppend(a: string, b: string)
    requires '\r' !in a
    ensures UniversalNewlines(a + b) == a + UniversalNewlines(b)
    decreases |a|
  {
    if a == [] {
      assert a + b == b;
    } else {
      var ab := a + b;
      assert UniversalNewlines(ab) == [a[0]] + UniversalNewlines(a[1..] + b) by {
        assert ab[0] == a[0] && a[0] != '\r';
        assert ab[1..] == a[1..] + b;
      }
      UniversalNewlinesAppend(a[1..], b);
      assert [a[0]] + (a[1..] + UniversalNewlines(b)) == a + UniversalNewlines(b) by {
        assert a == [a[0]] + a[1..];
      }
    }
  }

  /** A file whose lines end in `\r\n` is read with those endings as `\n`. */
  lemma {:induction false} CrLfRead(ps: seq<string>)
    requires forall k :: 0 <= k < |ps| ==> '\r' !in ps[k]
    ensures UniversalNewlines(Join(ps, "\r\n")) == Join(ps, "\n")
    decreases |ps|
  {
    if |ps| == 1 {
      UniversalNewlinesAppend(ps[0], []);
      assert ps[0] + [] == ps[0];
    } else if |ps| > 1 {
      var rest := Join(ps[1..], "\r\n");
      assert Join(ps, "\r\n") == ps[0] + ("\r\n" + rest);
      UniversalNewlinesAppend(ps[0], "\r\n" + rest);
      assert ("\r\n" + rest)[2..] == rest;
      CrLfRead(ps[1..]);
      assert Join(ps, "\n") == ps[0] + ("\n" + Join(ps[1..], "\n"));
    }
  }

  /** A file whose lines end in a lone `\r` (no `\n` after it) is read with those endings
      as `\n`. */
  lemma {:induction false} LoneCrRead(ps: seq<string>)
    requires forall k :: 0 <= k < |ps| ==> '\r' !in ps[k]
    requires forall k :: 1 <= k < |ps| ==> ps[k] == [] || ps[k][0] != '\n'
    ensures UniversalNewlines(Join(ps, "\r")) == Join(ps, "\n")
    decreases |ps|
  {
    if |ps| == 1 {
      UniversalNewlinesAppend(ps[0], []);
      assert ps[0] + [] == ps[0];
    } else if |ps| > 1 {
      var rest := Join(ps[1..], "\r");
      assert Join(ps, "\r") == ps[0] + ("\r" + rest);
      UniversalNewlinesAppend(ps[0], "\r" + rest);
      assert UniversalNewlines("\r" + rest) == "\n" + UniversalNewlines(rest) by {
        assert ps[1..][0] == ps[1];
        JoinHead(ps[1..], "\r");
        LoneCr(rest);
      }
      assert forall k :: 1 <= k < |ps[1..]| ==> ps[1..][k] == ps[k + 1];
      LoneCrRead(ps[1..]);
      assert Join(ps, "\n") == ps[0] + ("\n" + Join(ps[1..], "\n"));
    }
  }

  /** A `\r` not followed by `\n` is read as one `\n`. */
  lemma LoneCr(rest: string)
    requires rest == [] || rest[0] != '\n'
    ensures UniversalNewlines("\r" + rest) == "\n" + UniversalNewlines(rest)
  {
    assert ("\r" + rest)[1..] == rest;
  }

  /** A join starts with its first part, or with the separator when that part is empty. */
  lemma JoinHead(ps: seq<string>, sep: string)
    requires |ps| >= 1 && |sep| >= 1
    ensures ps[0] != [] ==> |Join(ps, sep)| >= 1 && Join(ps, sep)[0] == ps[0][0]
    ensures ps[0] == [] && |ps| >= 2 ==> |Join(ps, sep)| >= 1 && Join(ps, sep)[0] == sep[0]
  {
  }

  /** The texts concatenated in order. */
  function Concat(ls: seq<string>): string
  {
    if ls == [] then [] else ls[0] + Concat(ls[1..])
  }

  /** A line as Python's file iterator yields it: non-empty, a newline only as its last character. */
  predicate IsLine(l: string) {
    |l| > 0 && '\n' !in l[..|l| - 1]
  }

  /** A line that carries its terminating newline. */
  predicate IsTerminatedLine(l: string) {
    IsLine(l) && l[|l| - 1] == '\n'
  }

  /** Python's `for line in file`: the lines of `s`, each keeping its `\n`; only the last may lack one. */
  function Lines(s: string): (ls: seq<string>)
    ensures Concat(ls) == s
    ensures forall k :: 0 <= k < |ls| ==> IsLine(ls[k])
    ensures forall k :: 0 <= k < |ls| - 1 ==> IsTerminatedLine(ls[k])
    decreases |s|
  {
    if s == [] then []
    else
      var i := Find(s, "\n");
      if i == |s| then
        assert '\n' !in s by {
          forall k | 0 <= k < |s| ensures s[k] != '\n' {
            OccursAtChar(s, '\n', k);
          }
        }
        [s]
      else
        OccursAtChar(s, '\n', i);
        assert '\n' !in s[..i] by {
          forall k | 0 <= k < i ensures s[k] != '\n' {
            OccursAtChar(s, '\n', k);
          }
        }
        assert s[..i + 1][..i] == s[..i];
        assert s == s[..i + 1] + s[i + 1..];
        [s[..i + 1]] + Lines(s[i + 1..])
  }

  /** A terminated line is read back whole, whatever follows it. */
  lemma LinesCons(line: string, rest: string)
    requires IsTerminatedLine(line)
    ensures Lines(line + rest) == [line] + Lines(rest)
  {
    var s := line + rest;
    var n := |line|;
    assert forall k :: 0 <= k < n - 1 ==> s[k] != '\n' by {
      forall k | 0 <= k < n - 1 ensures s[k] != '\n' {
        assert s[k] == line[..n - 1][k];
      }
    }
    FindChar(s, '\n', n - 1);
    assert s[..n] == line;
    assert s[n..] == rest;
  }

  /** Terminated lines written one after another are read back one by one. */
  lemma {:induction false} LinesConcat(ls: seq<string>, last: string)
    requires forall k :: 0 <= k < |ls| ==> IsTerminatedLine(ls[k])
    ensures Lines(Concat(ls) + last) == ls + Lines(last)
    decreases |ls|
  {
    if ls != [] {
      var rest := Concat(ls[1..]) + last;
      ConcatConsAppend(ls, last);
      LinesCons(ls[0], rest);
      LinesConcat(ls[1..], last);
      ConsAppend(ls, Lines(last));
    } else {
      assert Concat(ls) + last == last;
      assert ls + Lines(last) == Lines(last);
    }
  }

  lemma ConcatConsAppend(ls: seq<string>, last: string)
    requires ls != []
    ensures Concat(ls) + last == ls[0] + (Concat(ls[1..]) + last)
  {
  }

  lemma ConsAppend(ls: seq<string>, tail: seq<string>)
    requires ls != []
    ensures [ls[0]] + (ls[1..] + tail) == ls + tail
  {
    assert ls == [ls[0]] + ls[1..];
  }

  /** A text without newlines is one line. */
  lemma LinesSingle(s: string)
    requires s != [] && '\n' !in s
    ensures Lines(s) == [s]
  {
    FindChar(s, '\n', |s|);
  }
}
