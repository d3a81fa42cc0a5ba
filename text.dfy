/** The JavaScript string operations the core relies on: `trim`,
    `startsWith`, `endsWith`, `includes` and `split` with a
    one-character separator. Code points stand for UTF-16 code units. */
module Text {

  /** ECMAScript's WhiteSpace and LineTerminator code points: what `trim`
      removes and what `parseInt` skips. */
  predicate IsSpace(c: char) {
    || c == '\t' || c == '\n' || c == '\U{000B}' || c == '\U{000C}' || c == '\r' || c == ' '
    || c == '\U{00A0}' || c == '\U{1680}' || ('\U{2000}' <= c <= '\U{200A}')
    || c == '\U{2028}' || c == '\U{2029}' || c == '\U{202F}' || c == '\U{205F}'
    || c == '\U{3000}' || c == '\U{FEFF}'
  }

  /** The length of the run of white space that starts the string. */
  function LeadingSpaces(s: string): (n: nat)
    ensures n <= |s|
    ensures forall i :: 0 <= i < n ==> IsSpace(s[i])
    ensures n == |s| || !IsSpace(s[n])
  {
    if s != [] && IsSpace(s[0]) then 1 + LeadingSpaces(s[1..]) else 0
  }

  /** The length of the run of white space that ends the string. */
  function TrailingSpaces(s: string): (n: nat)
    ensures n <= |s|
    ensures forall i :: |s| - n <= i < |s| ==> IsSpace(s[i])
    ensures n == |s| || !IsSpace(s[|s| - 1 - n])
  {
    if s != [] && IsSpace(s[|s| - 1]) then 1 + TrailingSpaces(s[..|s| - 1]) else 0
  }

  /** `s.trimStart()`: the suffix left after the leading white space; it
      does not start with white space and only white space precedes it. */
  function TrimStart(s: string): (r: string)
    ensures |r| <= |s| && r == s[|s| - |r|..]
    ensures r == [] || !IsSpace(r[0])
    ensures forall k :: 0 <= k < |s| - |r| ==> IsSpace(s[k])
  {
    s[LeadingSpaces(s)..]
  }

  /** `s.trim()`: the infix left after both runs of white space are
      removed. It starts after the leading white space, neither starts nor
      ends with white space, and only white space lies outside it. */
  function Trim(s: string): (r: string)
    ensures r == [] || (!IsSpace(r[0]) && !IsSpace(r[|r| - 1]))
    ensures LeadingSpaces(s) + |r| <= |s| && r == s[LeadingSpaces(s)..LeadingSpaces(s) + |r|]
    ensures forall k :: 0 <= k < |s| && (k < LeadingSpaces(s) || LeadingSpaces(s) + |r| <= k) ==> IsSpace(s[k])
    ensures (forall i :: 0 <= i < |s| ==> !IsSpace(s[i])) ==> r == s
  {
    var i := LeadingSpaces(s);
    if i == |s| then
      assert s[i..i] == [];
      []
    else
      var j := |s| - TrailingSpaces(s);
      assert i < j;
      s[i..j]
  }

  predicate StartsWith(s: string, prefix: string) {
    |prefix| <= |s| && s[..|prefix|] == prefix
  }

  predicate EndsWith(s: string, suffix: string) {
    |suffix| <= |s| && s[|s| - |suffix|..] == suffix
  }

  /** `s.startsWith(prefix)` holds exactly when `s` is `prefix` followed
      by some text. */
  lemma StartsWithIff(s: string, prefix: string)
    ensures StartsWith(s, prefix) <==> exists rest :: s == prefix + rest
  {
    if StartsWith(s, prefix) {
      assert s == prefix + s[|prefix|..];
    }
  }

  /** `s.endsWith(suffix)` holds exactly when `s` is some text followed by
      `suffix`. */
  lemma EndsWithIff(s: string, suffix: string)
    ensures EndsWith(s, suffix) <==> exists front :: s == front + suffix
  {
    if EndsWith(s, suffix) {
      assert s == s[..|s| - |suffix|] + suffix;
    }
  }

  /** The text before the first `c` (all of `s` when there is none). */
  function UpTo(s: string, c: char): (r: string)
    ensures c !in r && |r| <= |s| && s[..|r|] == r
    ensures |r| < |s| ==> s[|r|] == c
  {
    if s == [] || s[0] == c then "" else [s[0]] + UpTo(s[1..], c)
  }

  /** `parts.join(sep)`. */
  function Join(parts: seq<string>, sep: char): string {
    if parts == [] then ""
    else if |parts| == 1 then parts[0]
    else parts[0] + [sep] + Join(parts[1..], sep)
  }

  /** `s.split(sep)`: the pieces between separators, at least one of them,
      the first being the text before the first separator. */
  function Split(s: string, sep: char): (parts: seq<string>)
    ensures |parts| >= 1
    ensures parts[0] == UpTo(s, sep)
  {
    if s == [] then [""] else Prepend(s[0], Split(s[1..], sep), sep)
  }

  /** The pieces of `[c] + t`, given the pieces of `t`: a separator opens a
      new empty first piece, any other character extends the first piece. */
  function Prepend(c: char, parts: seq<string>, sep: char): (r: seq<string>)
    requires |parts| >= 1
    ensures |r| >= 1 && r[0] == (if c == sep then "" else [c] + parts[0])
  {
    if c == sep then [""] + parts else [[c] + parts[0]] + parts[1..]
  }

  /** Prepending to the first of several groups of pieces touches only that group. */
  lemma PrependConcat(c: char, x: seq<string>, y: seq<string>, sep: char)
    requires |x| >= 1
    ensures Prepend(c, x + y, sep) == Prepend(c, x, sep) + y
  {
    if c != sep {
      assert (x + y)[1..] == x[1..] + y;
    }
  }

  /** Prepending to the pieces prepends to their join. */
  lemma JoinPrepend(c: char, parts: seq<string>, sep: char)
    requires |parts| >= 1
    ensures Join(Prepend(c, parts, sep), sep) == [c] + Join(parts, sep)
  {
    var r := Prepend(c, parts, sep);
    if c == sep {
      assert r[1..] == parts;
    } else if |parts| > 1 {
      assert r[1..] == parts[1..];
    }
  }

  /** Joining the pieces of a split with the separator gives the text back. */
  lemma {:induction false} SplitJoin(s: string, sep: char)
    ensures Join(Split(s, sep), sep) == s
  {
    if s != [] {
      SplitJoin(s[1..], sep);
      JoinPrepend(s[0], Split(s[1..], sep), sep);
      assert s == [s[0]] + s[1..];
    }
  }

  /** No piece of a split holds the separator. */
  lemma {:induction false} SplitPiecesFree(s: string, sep: char)
    ensures forall i :: 0 <= i < |Split(s, sep)| ==> sep !in Split(s, sep)[i]
  {
    if s != [] {
      var t := s[1..];
      SplitPiecesFree(t, sep);
      var rest := Split(t, sep);
      var parts := Split(s, sep);
      if s[0] == sep {
        assert parts == [""] + rest;
        assert forall i :: 1 <= i < |parts| ==> parts[i] == rest[i - 1];
      } else {
        assert parts == [[s[0]] + rest[0]] + rest[1..];
        assert forall i :: 1 <= i < |parts| ==> parts[i] == rest[i];
      }
    }
  }

  lemma SplitWithout(s: string, sep: char)
    requires sep !in s
    ensures Split(s, sep) == [s]
  {
    if s != [] {
      SplitWithout(s[1..], sep);
      assert s == [s[0]] + s[1..];
    }
  }

  /** Splitting at a separator placed between `a` and `b` splits each side. */
  lemma {:induction false} SplitConcat(a: string, b: string, sep: char)
    ensures Split(a + [sep] + b, sep) == Split(a, sep) + Split(b, sep)
  {
    var s := a + [sep] + b;
    if a == [] {
      assert s == [sep] + b;
      assert s[1..] == b;
    } else {
      assert s[0] == a[0] && s[1..] == a[1..] + [sep] + b;
      SplitConcat(a[1..], b, sep);
      PrependConcat(a[0], Split(a[1..], sep), Split(b, sep), sep);
    }
  }

  /** The first piece ends at the first separator; the rest are the pieces
      of what follows it. */
  lemma SplitFirst(a: string, b: string, sep: char)
    requires sep !in a
    ensures Split(a + [sep] + b, sep) == [a] + Split(b, sep)
  {
    SplitConcat(a, b, sep);
    SplitWithout(a, sep);
  }

  /** Two separator-free pieces joined by one separator split back apart. */
  lemma SplitPair(a: string, b: string, sep: char)
    requires sep !in a && sep !in b
    ensures Split(a + [sep] + b, sep) == [a, b]
  {
    SplitConcat(a, b, sep);
    SplitWithout(a, sep);
    SplitWithout(b, sep);
  }

  /** The join of several pieces ends with a separator and the last piece. */
  lemma {:induction false} JoinLast(parts: seq<string>, sep: char)
    requires |parts| > 1
    ensures Join(parts, sep) == Join(parts[..|parts| - 1], sep) + [sep] + parts[|parts| - 1]
  {
    var n := |parts|;
    if n > 2 {
      JoinLast(parts[1..], sep);
      assert parts[1..][..n - 2] == parts[..n - 1][1..];
      assert parts[1..][n - 2] == parts[n - 1];
    }
  }

  /** The last piece of a split (what `split(sep).pop()` returns) is the
      text after the last separator. */
  lemma SplitLast(s: string, sep: char)
    ensures var parts := Split(s, sep); var p := parts[|parts| - 1];
      && EndsWith(s, p) && sep !in p
      && (|p| < |s| ==> s[|s| - |p| - 1] == sep)
      && (|parts| > 1 ==> |p| < |s|)
  {
    var parts := Split(s, sep);
    var n := |parts|;
    SplitJoin(s, sep);
    SplitPiecesFree(s, sep);
    assert sep !in parts[n - 1];
    if n > 1 {
      JoinLast(parts, sep);
      var front := Join(parts[..n - 1], sep);
      var last := parts[n - 1];
      assert s == front + [sep] + last;
      assert |s| - |last| - 1 == |front|;
      assert s[|front|] == sep;
      assert s[|front| + 1..] == last;
      assert sep !in last;
    } else {
      assert s == parts[0];
    }
  }
}
