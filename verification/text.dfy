/** Strings as sequences of characters: joining with a separator (Rust's `join`),
    splitting at a character, and the prefix/suffix tests the fixed-text patterns use. */
module Text {

  /** `parts` with `sep` between neighbours, as `[String]::join(sep)` builds it. */
  function Join(parts: seq<string>, sep: string): string
  {
    if |parts| == 0 then ""
    else if |parts| == 1 then parts[0]
    else parts[0] + sep + Join(parts[1..], sep)
  }

  /** The pieces of `s` between occurrences of `c` (an empty `s` is one empty piece). */
  function Split(s: string, c: char): (parts: seq<string>)
    ensures |parts| > 0
  {
    if |s| == 0 then [""]
    else
      var rest := Split(s[1..], c);
      if s[0] == c then [""] + rest else [[s[0]] + rest[0]] + rest[1..]
  }

  predicate StartsWith(s: string, prefix: string)
  {
    |prefix| <= |s| && s[..|prefix|] == prefix
  }

  predicate EndsWith(s: string, suffix: string)
  {
    |suffix| <= |s| && s[|s| - |suffix|..] == suffix
  }

  lemma {:induction false} SplitWithout(t: string, c: char)
    requires c !in t
    ensures Split(t, c) == [t]
  {
    if |t| > 0 {
      SplitWithout(t[1..], c);
      assert [t[0]] + t[1..] == t;
    }
  }

  lemma {:induction false} SplitAfter(t: string, c: char, s: string)
    requires c !in t
    ensures Split(t + [c] + s, c) == [t] + Split(s, c)
  {
    if |t| == 0 {
      assert t + [c] + s == [c] + s;
      assert ([c] + s)[1..] == s;
    } else {
      SplitAfter(t[1..], c, s);
      assert (t + [c] + s)[1..] == t[1..] + [c] + s;
      assert [t[0]] + t[1..] == t;
    }
  }

  /** Splitting undoes joining, when no part contains the separator character. */
  lemma {:induction false} SplitJoin(parts: seq<string>, c: char)
    requires |parts| > 0
    requires forall k :: 0 <= k < |parts| ==> c !in parts[k]
    ensures Split(Join(parts, [c]), c) == parts
  {
    if |parts| == 1 {
      SplitWithout(parts[0], c);
    } else {
      SplitJoin(parts[1..], c);
      SplitAfter(parts[0], c, Join(parts[1..], [c]));
      assert [parts[0]] + parts[1..] == parts;
    }
  }

  /** A character found in no part and not in the separator is not in the joined string. */
  lemma {:induction false} JoinExcludes(parts: seq<string>, sep: string, c: char)
    requires c !in sep
    requires forall k :: 0 <= k < |parts| ==> c !in parts[k]
    ensures c !in Join(parts, sep)
  {
    if |parts| > 1 {
      JoinExcludes(parts[1..], sep, c);
    }
  }

  /** The last character of a join is the last character of the last part. */
  lemma {:induction false} JoinLast(parts: seq<string>, sep: string)
    requires |parts| > 0 && |parts[|parts| - 1]| > 0
    ensures var j := Join(parts, sep); |j| > 0 && j[|j| - 1] == parts[|parts| - 1][|parts[|parts| - 1]| - 1]
  {
    if |parts| > 1 {
      JoinLast(parts[1..], sep);
    }
  }

  /** Joining two non-empty lists: the joins of both, with one separator between them. */
  lemma {:induction false} JoinAppend(a: seq<string>, b: seq<string>, sep: string)
    requires |a| > 0 && |b| > 0
    ensures Join(a + b, sep) == Join(a, sep) + sep + Join(b, sep)
  {
    if |a| == 1 {
      assert (a + b)[1..] == b;
    } else {
      JoinAppend(a[1..], b, sep);
      assert (a + b)[1..] == a[1..] + b;
    }
  }

  /** Text after a join extends its last part. */
  lemma {:induction false} JoinExtendLast(parts: seq<string>, sep: string, s: string)
    requires |parts| > 0
    ensures Join(parts, sep) + s == Join(parts[..|parts| - 1] + [parts[|parts| - 1] + s], sep)
  {
    var n := |parts|;
    if n > 1 {
      var rest := parts[1..];
      JoinExtendLast(rest, sep, s);
      var g := parts[..n - 1] + [parts[n - 1] + s];
      var g' := rest[..n - 2] + [rest[n - 2] + s];
      assert g == [parts[0]] + g';
      assert Join(parts, sep) == parts[0] + sep + Join(rest, sep);
      JoinCons(parts[0], g', sep);
    } else {
      assert parts[..0] + [parts[0] + s] == [parts[0] + s];
    }
  }

  /** Two joins with text glued to the end of the second, and one more part after it. */
  lemma GluedJoin(a: seq<string>, b: seq<string>, x: string, y: string, sep: string)
    requires |a| > 0 && |b| > 0
    ensures Join(a, sep) + sep + Join(b, sep) + x + sep + y
            == Join(a + (b[..|b| - 1] + [b[|b| - 1] + x] + [y]), sep)
  {
    var n := |b|;
    var glued := b[..n - 1] + [b[n - 1] + x];
    JoinExtendLast(b, sep, x);
    JoinAppend(glued, [y], sep);
    JoinAppend(a, glued + [y], sep);
    Regroup(Join(a, sep), sep, Join(b, sep), x, y, Join(glued, sep));
  }

  lemma Regroup(a: string, sep: string, b: string, x: string, y: string, g: string)
    requires b + x == g
    ensures a + sep + b + x + sep + y == a + sep + (g + sep + y)
  {
  }

  lemma JoinCons(first: string, rest: seq<string>, sep: string)
    requires |rest| > 0
    ensures Join([first] + rest, sep) == first + sep + Join(rest, sep)
  {
    assert ([first] + rest)[1..] == rest;
  }
}
