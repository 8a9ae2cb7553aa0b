/** String helpers of the Go standard library the checks lean on. A Go string is compared byte by byte; on
    UTF-8 that is the order of the code points, which is the order of Dafny's `char`. */
module Strings {

  /** Go's `<` on strings: strict lexicographic order (Dafny's own `<` on sequences is the prefix order). */
  predicate Less(a: string, b: string) {
    b != "" && (a == "" || a[0] < b[0] || (a[0] == b[0] && Less(a[1..], b[1..])))
  }

  /** Strings compare at the first character that differs; where there is none, the shorter comes first. */
  predicate DiffersFirstAt(a: string, b: string, k: int) {
    && 0 <= k <= |a| && k < |b| && (forall i :: 0 <= i < k ==> a[i] == b[i])
    && (k == |a| || a[k] < b[k])
  }

  ghost predicate ComesBefore(a: string, b: string) {
    exists k :: DiffersFirstAt(a, b, k)
  }

  lemma {:induction false} LessIff(a: string, b: string)
    ensures Less(a, b) <==> ComesBefore(a, b)
  {
    if a == "" || b == "" || a[0] != b[0] {
      assert Less(a, b) ==> DiffersFirstAt(a, b, 0);
    } else {
      LessIff(a[1..], b[1..]);
      if k :| DiffersFirstAt(a[1..], b[1..], k) {
        assert forall i :: 0 < i <= k ==> a[i] == a[1..][i - 1] && b[i] == b[1..][i - 1];
        assert DiffersFirstAt(a, b, k + 1);
      }
      if k :| DiffersFirstAt(a, b, k) {
        assert DiffersFirstAt(a[1..], b[1..], k - 1);
      }
    }
  }

  lemma LessTrichotomy(a: string, b: string)
    ensures !Less(a, a)
    ensures a != b ==> Less(a, b) != Less(b, a)
  {
    if a != "" && b != "" && a[0] == b[0] {
      LessTrichotomy(a[1..], b[1..]);
      assert a == [a[0]] + a[1..] && b == [b[0]] + b[1..];
    } else if a != "" {
      LessTrichotomy(a[1..], a[1..]);
    }
  }

  lemma LessTransitive(a: string, b: string, c: string)
    requires Less(a, b) && Less(b, c)
    ensures Less(a, c)
  {
    if a != "" && a[0] == b[0] == c[0] {
      LessTransitive(a[1..], b[1..], c[1..]);
    }
  }

  /** strings.ToLower on ASCII. */
  function Lower(s: string): (r: string)
    ensures |r| == |s|
  {
    if s == "" then "" else [if 'A' <= s[0] <= 'Z' then s[0] - 'A' + 'a' else s[0]] + Lower(s[1..])
  }

  /** strings.Join with a one-character separator. */
  function Join(parts: seq<string>, sep: char): string {
    if parts == [] then "" else if |parts| == 1 then parts[0] else parts[0] + [sep] + Join(parts[1..], sep)
  }

  /** The pieces of `s` between occurrences of `sep`; always at least one piece. */
  function Split(s: string, sep: char): (parts: seq<string>)
    ensures |parts| >= 1
    ensures forall p :: p in parts ==> sep !in p
  {
    if s == "" then [""]
    else
      var rest := Split(s[1..], sep);
      if s[0] == sep then [""] + rest else [[s[0]] + rest[0]] + rest[1..]
  }

  lemma {:induction false} SplitThenJoin(s: string, sep: char)
    ensures Join(Split(s, sep), sep) == s
  {
    if s != "" {
      SplitThenJoin(s[1..], sep);
      var rest := Split(s[1..], sep);
      if s[0] == sep {
        assert ([""] + rest)[1..] == rest;
        assert "" + [sep] + s[1..] == s;
      } else {
        var parts := [[s[0]] + rest[0]] + rest[1..];
        assert parts[1..] == rest[1..];
        if |rest| == 1 {
          assert [s[0]] + rest[0] == s;
        } else {
          assert [s[0]] + rest[0] + [sep] + Join(rest[1..], sep) == [s[0]] + (rest[0] + [sep] + Join(rest[1..], sep));
        }
      }
    }
  }

  lemma {:induction false} SplitAtSeparator(x: string, y: string, sep: char)
    ensures Split(x + [sep] + y, sep) == Split(x, sep) + Split(y, sep)
  {
    var s := x + [sep] + y;
    if x == "" {
      assert s[1..] == y && s[0] == sep;
      assert Split(x, sep) == [""];
    } else {
      SplitAtSeparator(x[1..], y, sep);
      assert s[1..] == x[1..] + [sep] + y && s[0] == x[0];
      GrowsAtFront(s[0], sep, Split(x[1..], sep), Split(y, sep));
    }
  }

  lemma GrowsAtFront(c: char, sep: char, front: seq<string>, back: seq<string>)
    requires front != []
    ensures [""] + (front + back) == [""] + front + back
    ensures [[c] + (front + back)[0]] + (front + back)[1..] == [[c] + front[0]] + front[1..] + back
  {
  }

  lemma {:induction false} SplitSeparatorFree(s: string, sep: char)
    requires sep !in s
    ensures Split(s, sep) == [s]
  {
    if s != "" {
      SplitSeparatorFree(s[1..], sep);
      assert [s[0]] + s[1..] == s;
    }
  }

  /** Joining parts that do not contain the separator loses nothing. */
  lemma {:induction false} JoinThenSplit(parts: seq<string>, sep: char)
    requires parts != [] && forall p :: p in parts ==> sep !in p
    ensures Split(Join(parts, sep), sep) == parts
  {
    SplitSeparatorFree(parts[0], sep);
    if |parts| > 1 {
      JoinThenSplit(parts[1..], sep);
      SplitAtSeparator(parts[0], Join(parts[1..], sep), sep);
    }
  }

  lemma {:induction false} JoinAppends(a: seq<string>, b: seq<string>, sep: char)
    requires a != [] && b != []
    ensures Join(a + b, sep) == Join(a, sep) + [sep] + Join(b, sep)
  {
    assert (a + b)[1..] == a[1..] + b;
    if |a| > 1 {
      JoinAppends(a[1..], b, sep);
    }
  }

  lemma {:induction false} JoinIsFreeOf(parts: seq<string>, sep: char, c: char)
    requires c != sep && forall p :: p in parts ==> c !in p
    ensures c !in Join(parts, sep)
  {
    if |parts| > 1 {
      JoinIsFreeOf(parts[1..], sep, c);
    }
  }

  /** The text before the first separator, and the text after it. */
  function Before(s: string, sep: char): string {
    Split(s, sep)[0]
  }

  function After(s: string, sep: char): string {
    Join(Split(s, sep)[1..], sep)
  }

  lemma CutAtFirst(a: string, b: string, sep: char)
    requires sep !in a
    ensures Before(a + [sep] + b, sep) == a && After(a + [sep] + b, sep) == b
  {
    SplitAtSeparator(a, b, sep);
    SplitSeparatorFree(a, sep);
    SplitThenJoin(b, sep);
  }

  lemma {:induction false} LowerFacts(s: string)
    ensures Lower(Lower(s)) == Lower(s)
    ensures forall c :: c in Lower(s) ==> c in s || 'a' <= c <= 'z'
  {
    if s != "" {
      LowerFacts(s[1..]);
      assert Lower(s)[1..] == Lower(s[1..]);
    }
  }

  /** A piece of text of one letter, longer than `n`. */
  function Xs(n: nat): (s: string)
    ensures |s| == n + 1 && forall c :: c in s ==> c == 'x'
  {
    if n == 0 then "x" else "x" + Xs(n - 1)
  }

  /** Go's %q on a string without characters that need escaping. */
  function Quoted(s: string): string {
    "\"" + s + "\""
  }
}
