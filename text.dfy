/**
 * The Kotlin/JVM string operations the library is built from, on strings
 * as sequences of UTF-16 code units (`char`).
 */
module Text {

  /** `p` occurs in `s` starting at index `i`. */
  predicate Occurs(s: string, p: string, i: int) {
    0 <= i && i + |p| <= |s| && forall j :: 0 <= j < |p| ==> s[i + j] == p[j]
  }

  /**
   * `String.indexOf(p, from)` for a non-empty `p`: the first occurrence at or
   * after `from` (a negative `from` counts as 0), or -1 when there is none.
   */
  function IndexOf(s: string, p: string, from: int): (r: int)
    requires |p| > 0
    ensures -1 <= r
    ensures r >= 0 ==> from <= r && r + |p| <= |s|
    decreases |s| - from
  {
    if from < 0 then IndexOf(s, p, 0)
    else if from + |p| > |s| then -1
    else if Occurs(s, p, from) then from
    else IndexOf(s, p, from + 1)
  }

  /** What `IndexOf` finds is an occurrence. */
  lemma {:induction false} IndexOfFound(s: string, p: string, from: int)
    requires |p| > 0
    ensures IndexOf(s, p, from) >= 0 ==> Occurs(s, p, IndexOf(s, p, from))
    decreases |s| - from
  {
    if from < 0 {
      IndexOfFound(s, p, 0);
    } else if from + |p| <= |s| && !Occurs(s, p, from) {
      IndexOfFound(s, p, from + 1);
    }
  }

  /** `IndexOf` finds the first occurrence: there is none between `from` and the result. */
  lemma {:induction false} IndexOfFirst(s: string, p: string, from: int)
    requires |p| > 0
    ensures var r := IndexOf(s, p, from);
      forall i {:trigger Occurs(s, p, i)} :: from <= i && (r < 0 || i < r) ==> !Occurs(s, p, i)
    decreases |s| - from
  {
    if from < 0 {
      IndexOfFirst(s, p, 0);
    } else if from + |p| <= |s| && !Occurs(s, p, from) {
      IndexOfFirst(s, p, from + 1);
    }
  }

  /** An occurrence with none before it from `from` on is what `IndexOf` finds. */
  lemma IndexOfIs(s: string, p: string, from: int, r: int)
    requires |p| > 0 && 0 <= from <= r && Occurs(s, p, r)
    requires forall i :: from <= i < r ==> !Occurs(s, p, i)
    ensures IndexOf(s, p, from) == r
  {
    IndexOfFound(s, p, from);
    IndexOfFirst(s, p, from);
  }

  /** A pattern does not occur where its first character is missing. */
  lemma NotOccursAt(s: string, p: string, i: int)
    requires |p| > 0 && (0 <= i < |s| ==> s[i] != p[0])
    ensures !Occurs(s, p, i)
  {
    if 0 <= i < |s| {
      assert s[i + 0] != p[0];
    }
  }

  /** A pattern whose first character is not in `s` does not occur in it. */
  lemma NoOccurrence(s: string, p: string)
    requires |p| > 0 && p[0] !in s
    ensures forall i :: !Occurs(s, p, i)
  {
    forall i | 0 <= i && i + |p| <= |s|
      ensures !Occurs(s, p, i)
    {
      assert s[i] in s;
    }
  }

  /** A pattern holding a character that `s` lacks does not occur in it. */
  lemma AbsentCharNoOccurrence(s: string, p: string, j: int)
    requires 0 <= j < |p| && p[j] !in s
    ensures forall i :: !Occurs(s, p, i)
  {
    forall i | 0 <= i && i + |p| <= |s|
      ensures !Occurs(s, p, i)
    {
      assert s[i + j] in s;
    }
  }

  /** A search starting before a stretch with no occurrence finds what a search after it finds. */
  lemma {:induction false} IndexOfSkip(s: string, p: string, from: int, m: int)
    requires |p| > 0 && 0 <= from <= m
    requires forall i :: from <= i < m ==> !Occurs(s, p, i)
    ensures IndexOf(s, p, from) == IndexOf(s, p, m)
    decreases m - from
  {
    if from < m && from + |p| <= |s| {
      assert !Occurs(s, p, from);
      IndexOfSkip(s, p, from + 1, m);
    }
  }

  /** `String.indexOf(c, from)` for a one-character pattern, stated on characters. */
  function FindChar(s: string, c: char, from: int): (r: int)
    ensures -1 <= r < |s|
    ensures r >= 0 ==> from <= r && s[r] == c
    decreases |s| - from
  {
    if from < 0 then FindChar(s, c, 0)
    else if from >= |s| then -1
    else if s[from] == c then from
    else FindChar(s, c, from + 1)
  }

  /** `FindChar` finds the first `c`: there is none between `from` and the result. */
  lemma {:induction false} FindCharFirst(s: string, c: char, from: int)
    ensures var r := FindChar(s, c, from);
      forall i :: from <= i && 0 <= i < |s| && (r < 0 || i < r) ==> s[i] != c
    decreases |s| - from
  {
    if from < 0 {
      FindCharFirst(s, c, 0);
    } else if from < |s| && s[from] != c {
      FindCharFirst(s, c, from + 1);
    }
  }

  /** The first `c` from `b` on, when the text there is `w`, holding no `c`, and then `c`. */
  lemma FindCharAfter(s: string, b: int, w: string, c: char)
    requires 0 <= b && b + |w| < |s| && s[b..b + |w|] == w && c !in w && s[b + |w|] == c
    ensures FindChar(s, c, b) == b + |w|
  {
    FindCharFirst(s, c, b);
    assert forall i :: b <= i < b + |w| ==> s[i] == w[i - b];
  }

  /** `String.contains(p)` for a non-empty `p`. */
  predicate Contains(s: string, p: string)
    requires |p| > 0
  {
    IndexOf(s, p, 0) >= 0
  }

  lemma ContainsIff(s: string, p: string)
    requires |p| > 0
    ensures Contains(s, p) <==> exists i :: Occurs(s, p, i)
  {
    IndexOfFound(s, p, 0);
    IndexOfFirst(s, p, 0);
  }

  predicate StartsWith(s: string, p: string) {
    |p| <= |s| && s[..|p|] == p
  }

  predicate EndsWith(s: string, p: string) {
    |p| <= |s| && s[|s| - |p|..] == p
  }

  /** `String.replace(pat, rep)`: every non-overlapping occurrence, left to right. */
  function Replace(s: string, pat: string, rep: string): string
    requires |pat| > 0
    decreases |s|
  {
    if |s| < |pat| then s
    else if s[..|pat|] == pat then rep + Replace(s[|pat|..], pat, rep)
    else [s[0]] + Replace(s[1..], pat, rep)
  }

  /** A prefix that cannot start an occurrence of `pat` passes through `Replace` unchanged. */
  lemma {:induction false} ReplaceSkip(w: string, rest: string, pat: string, rep: string)
    requires |pat| > 0
    requires forall i :: 0 <= i < |w| ==> w[i] != pat[0]
    ensures Replace(w + rest, pat, rep) == w + Replace(rest, pat, rep)
    decreases |w|
  {
    if |w| > 0 {
      var s := w + rest;
      assert s[1..] == w[1..] + rest;
      ReplaceSkip(w[1..], rest, pat, rep);
      if |s| >= |pat| {
        assert s[..|pat|][0] == w[0];
        assert s[..|pat|] != pat;
        assert Replace(s, pat, rep) == [s[0]] + Replace(s[1..], pat, rep);
        assert Replace(s[1..], pat, rep) == w[1..] + Replace(rest, pat, rep);
        assert s[0] == w[0];
        assert w == [w[0]] + w[1..];
        assert [w[0]] + (w[1..] + Replace(rest, pat, rep)) == w + Replace(rest, pat, rep);
      } else {
        assert Replace(s, pat, rep) == s;
        assert Replace(rest, pat, rep) == rest;
      }
    } else {
      assert w + rest == rest;
    }
  }

  /** A string with no character that could start `pat` is left alone by `Replace`. */
  lemma ReplaceAbsent(s: string, pat: string, rep: string)
    requires |pat| > 0
    requires forall i :: 0 <= i < |s| ==> s[i] != pat[0]
    ensures Replace(s, pat, rep) == s
  {
    ReplaceSkip(s, [], pat, rep);
    assert s + [] == s;
  }

  /** `count { it == c }`. */
  function CountChar(s: string, c: char): nat {
    if s == [] then 0 else (if s[0] == c then 1 else 0) + CountChar(s[1..], c)
  }

  /**
   * Kotlin's `Char.isWhitespace()`: `Character.isWhitespace(c) || Character.isSpaceChar(c)`,
   * i.e. the ASCII controls 9-13 and 28-31 and the Unicode space, line and paragraph separators.
   */
  predicate IsWhitespace(c: char) {
    var n := c as int;
    (9 <= n <= 13) || (28 <= n <= 32) || n == 0xA0 || n == 0x1680
    || (0x2000 <= n <= 0x200A) || n == 0x2028 || n == 0x2029 || n == 0x202F
    || n == 0x205F || n == 0x3000
  }

  /** `isBlank()`: empty or only whitespace. */
  predicate IsBlank(s: string) {
    forall i :: 0 <= i < |s| ==> IsWhitespace(s[i])
  }

  function TrimStart(s: string): (r: string)
    ensures |r| <= |s| && r == s[|s| - |r|..]
    ensures r == [] || !IsWhitespace(r[0])
    ensures forall i :: 0 <= i < |s| - |r| ==> IsWhitespace(s[i])
  {
    if |s| > 0 && IsWhitespace(s[0]) then TrimStart(s[1..]) else s
  }

  function TrimEnd(s: string): (r: string)
    ensures |r| <= |s| && r == s[..|r|]
    ensures r == [] || !IsWhitespace(r[|r| - 1])
    ensures forall i :: |r| <= i < |s| ==> IsWhitespace(s[i])
  {
    if |s| > 0 && IsWhitespace(s[|s| - 1]) then TrimEnd(s[..|s| - 1]) else s
  }

  /** Kotlin's `String.trim()`: drop leading and trailing whitespace. */
  function Trim(s: string): string {
    TrimEnd(TrimStart(s))
  }

  /** Trimming a string that is not blank leaves a non-empty string. */
  lemma TrimNotBlank(s: string)
    requires !IsBlank(s)
    ensures Trim(s) != []
  {
    var i :| 0 <= i < |s| && !IsWhitespace(s[i]);
    var t := TrimStart(s);
    var k := i - (|s| - |t|);
    assert 0 <= k < |t| && t[k] == s[i];
    assert k < |TrimEnd(t)|;
  }

  /** A string that starts and ends with a non-whitespace character is its own trim. */
  lemma TrimFramed(s: string)
    requires |s| > 0 && !IsWhitespace(s[0]) && !IsWhitespace(s[|s| - 1])
    ensures Trim(s) == s
  {
  }

  /** Strip leading `' '` characters only (the ` *` of a regular expression). */
  function TrimStartSpaces(s: string): (r: string)
    ensures |r| <= |s| && r == s[|s| - |r|..]
    ensures r == [] || r[0] != ' '
  {
    if |s| > 0 && s[0] == ' ' then TrimStartSpaces(s[1..]) else s
  }

  function TrimEndSpaces(s: string): (r: string)
    ensures |r| <= |s| && r == s[..|r|]
    ensures r == [] || r[|r| - 1] != ' '
  {
    if |s| > 0 && s[|s| - 1] == ' ' then TrimEndSpaces(s[..|s| - 1]) else s
  }

  /**
   * `split(Regex(" *, *"))`: split at every `,` and drop the spaces on both
   * sides of it. Empty pieces are kept, the first piece keeps its leading
   * spaces and the last keeps its trailing ones.
   */
  function SplitFields(s: string): (r: seq<string>)
    ensures |r| >= 1
    decreases |s|
  {
    var c := FindChar(s, ',', 0);
    if c < 0 then [s]
    else [TrimEndSpaces(s[..c])] + SplitFields(TrimStartSpaces(s[c + 1..]))
  }

  /** `split(Regex(c), 2)`: at the first `c` only. */
  function SplitFirst(s: string, c: char): (r: seq<string>)
    ensures 1 <= |r| <= 2
    ensures |r| == 2 <==> c in s
  {
    FindCharFirst(s, c, 0);
    var i := FindChar(s, c, 0);
    if i < 0 then [s] else [s[..i], s[i + 1..]]
  }

  /** `split(c)`: at every `c`, keeping empty pieces. */
  function SplitAll(s: string, c: char): (r: seq<string>)
    ensures |r| == CountChar(s, c) + 1
    decreases |s|
  {
    var i := FindChar(s, c, 0);
    FindCharFirst(s, c, 0);
    if i < 0 then (CountNone(s, c); [s])
    else (CountSplit(s, c, i); [s[..i]] + SplitAll(s[i + 1..], c))
  }

  lemma {:induction false} CountNone(s: string, c: char)
    requires c !in s
    ensures CountChar(s, c) == 0
  {
    if s != [] {
      assert s[0] != c;
      assert forall x :: x in s[1..] ==> x in s;
      CountNone(s[1..], c);
    }
  }

  lemma {:induction false} CountAppend(a: string, b: string, c: char)
    ensures CountChar(a + b, c) == CountChar(a, c) + CountChar(b, c)
  {
    if a == [] {
      assert a + b == b;
    } else {
      assert (a + b)[1..] == a[1..] + b;
      CountAppend(a[1..], b, c);
    }
  }

  lemma CountSplit(s: string, c: char, i: int)
    requires 0 <= i < |s| && s[i] == c && c !in s[..i]
    ensures CountChar(s, c) == 1 + CountChar(s[i + 1..], c)
  {
    assert s == s[..i] + ([s[i]] + s[i + 1..]);
    CountAppend(s[..i], [s[i]] + s[i + 1..], c);
    CountNone(s[..i], c);
    assert ([s[i]] + s[i + 1..])[1..] == s[i + 1..];
  }

  /** `joinToString(sep)`. */
  function Join(parts: seq<string>, sep: string): string
    decreases |parts|
  {
    if |parts| == 0 then ""
    else if |parts| == 1 then parts[0]
    else Join(parts[..|parts| - 1], sep) + sep + parts[|parts| - 1]
  }

  /** `joinToString` read from the front: the first part, the separator, the join of the rest. */
  lemma {:induction false} JoinCons(a: string, rest: seq<string>, sep: string)
    requires |rest| >= 1
    ensures Join([a] + rest, sep) == a + sep + Join(rest, sep)
    decreases |rest|
  {
    var ps := [a] + rest;
    if |rest| > 1 {
      var n := |rest| - 1;
      JoinCons(a, rest[..n], sep);
      assert ps[..|ps| - 1] == [a] + rest[..n];
      assert rest[..n] + [rest[n]] == rest;
    } else {
      assert ps[..1] == [a];
    }
  }

  /** One step of `" *, *"` splitting at a `,` with no spaces beside it. */
  lemma {:induction false} SplitFieldsCons(a: string, j: string)
    requires ',' !in a && (a == [] || a[|a| - 1] != ' ') && (j == [] || j[0] != ' ')
    ensures SplitFields(a + "," + j) == [a] + SplitFields(j)
  {
    var s := a + "," + j;
    FindCharAfter(s, 0, a, ',');
  }

  /** A join read from the front, between a head and a tail. */
  lemma JoinFramed(h: string, a: string, rest: seq<string>, sep: string, e: string)
    requires |rest| >= 1
    ensures h + a + sep + Join(rest, sep) + e == h + Join([a] + rest, sep) + e
  {
    JoinCons(a, rest, sep);
  }

  /** Every part written after its separator. */
  function Prefixed(parts: seq<string>, sep: string): string
    decreases |parts|
  {
    if parts == [] then "" else sep + parts[0] + Prefixed(parts[1..], sep)
  }

  /** One more part is one more separator and that part at the end. */
  lemma {:induction false} PrefixedSnoc(parts: seq<string>, p: string, sep: string)
    ensures Prefixed(parts + [p], sep) == Prefixed(parts, sep) + sep + p
    decreases |parts|
  {
    if parts == [] {
      assert Prefixed([p], sep) == sep + p + Prefixed([], sep);
    } else {
      PrefixedSnoc(parts[1..], p, sep);
      assert (parts + [p])[1..] == parts[1..] + [p];
    }
  }

  /** A join with a separator in front is every part after its separator. */
  lemma {:induction false} JoinPrefixed(parts: seq<string>, sep: string)
    requires parts != []
    ensures sep + Join(parts, sep) == Prefixed(parts, sep)
    decreases |parts|
  {
    if |parts| > 1 {
      var rest := parts[1..];
      assert [parts[0]] + rest == parts;
      JoinCons(parts[0], rest, sep);
      JoinPrefixed(rest, sep);
      assert sep + Join(parts, sep) == (sep + parts[0]) + (sep + Join(rest, sep));
    } else {
      assert parts[1..] == [];
    }
  }

  /** Reading the first separated part off the text at `a`. */
  lemma PrefixedStep(s: string, a: int, parts: seq<string>, sep: string, e: string)
    requires parts != [] && 0 <= a <= |s| && s[a..] == Prefixed(parts, sep) + e
    ensures var n := a + |sep| + |parts[0]|;
      n <= |s| && s[a..n] == sep + parts[0] && s[n..] == Prefixed(parts[1..], sep) + e
  {
    var x := sep + parts[0];
    var y := Prefixed(parts[1..], sep) + e;
    PrefixedCons(parts, sep, e);
    SliceConcat(s, a, x, y);
  }

  lemma PrefixedCons(parts: seq<string>, sep: string, e: string)
    requires parts != []
    ensures Prefixed(parts, sep) + e == (sep + parts[0]) + (Prefixed(parts[1..], sep) + e)
  {
  }

  /** A suffix that is two pieces holds the first piece, then the second. */
  lemma SliceConcat(s: string, a: int, x: string, y: string)
    requires 0 <= a <= |s| && s[a..] == x + y
    ensures a + |x| <= |s| && s[a..a + |x|] == x && s[a + |x|..] == y
  {
    assert s[a..a + |x|] == s[a..][..|x|];
    assert s[a + |x|..] == s[a..][|x|..];
  }

  /** Fields with no `,` inside and no space next to where a separator goes. */
  predicate CleanFields(parts: seq<string>) {
    && (forall k :: 0 <= k < |parts| ==> ',' !in parts[k])
    && (forall k :: 1 <= k < |parts| ==> parts[k] == [] || parts[k][0] != ' ')
    && (forall k :: 0 <= k < |parts| - 1 ==> parts[k] == [] || parts[k][|parts[k]| - 1] != ' ')
  }

  /**
   * Splitting a `,`-join at `" *, *"` gives the parts back when no part
   * holds a `,` and no space sits next to a separator.
   */
  lemma {:induction false} SplitFieldsJoin(parts: seq<string>)
    requires |parts| >= 1 && CleanFields(parts)
    ensures SplitFields(Join(parts, ",")) == parts
    decreases |parts|
  {
    var a := parts[0];
    if |parts| == 1 {
      FindCharFirst(a, ',', 0);
      assert FindChar(a, ',', 0) < 0;
    } else {
      var rest := parts[1..];
      JoinCons(a, rest, ",");
      assert [a] + rest == parts;
      CleanTail(parts);
      SplitFieldsCons(a, Join(rest, ","));
      SplitFieldsJoin(rest);
    }
  }

  /** The tail of clean fields is clean, and its join starts with no space. */
  lemma CleanTail(parts: seq<string>)
    requires |parts| >= 2 && CleanFields(parts)
    ensures CleanFields(parts[1..])
    ensures var j := Join(parts[1..], ","); j == [] || j[0] != ' '
  {
    var rest := parts[1..];
    assert forall k :: 0 <= k < |rest| ==> rest[k] == parts[k + 1];
    if |rest| > 1 {
      JoinCons(rest[0], rest[1..], ",");
      assert [rest[0]] + rest[1..] == rest;
    }
  }

  /** A suffix is its two parts either side of `m`. */
  lemma SuffixSplit(s: string, a: int, m: int)
    requires 0 <= a <= m <= |s|
    ensures s[a..] == s[a..m] + s[m..]
  {
  }

  /** The pieces written one after the other. */
  function Concat(parts: seq<string>): string
    decreases |parts|
  {
    if parts == [] then "" else parts[0] + Concat(parts[1..])
  }

  lemma {:induction false} ConcatAppend(a: seq<string>, b: seq<string>)
    ensures Concat(a + b) == Concat(a) + Concat(b)
    decreases |a|
  {
    if a == [] {
      assert a + b == b;
    } else {
      assert (a + b)[1..] == a[1..] + b;
      ConcatAppend(a[1..], b);
    }
  }

  /** Decimal rendering of a natural number (`"$i"`). */
  function NatToString(n: nat): (r: string)
    ensures |r| >= 1
    ensures forall i :: 0 <= i < |r| ==> '0' <= r[i] <= '9'
  {
    var d := ['0' + (n % 10) as char];
    if n < 10 then d else NatToString(n / 10) + d
  }
}
