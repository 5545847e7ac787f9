/**
 * The parts of Python's `str` the models rely on, over strings of code points:
 * `isspace`, `strip`, `lower` (ASCII letters only), `in`, `find`, `split(sep)`,
 * `sep.join`, `splitlines`, the `<` ordering used by `sorted`, and `str(n)`.
 */
module Text {
  import opened Wrappers
  import opened Collections

  // ---------------------------------------------------------------------------
  // Whitespace
  // ---------------------------------------------------------------------------

  /** The code points for which Python's `str.isspace()` holds. */
  predicate IsSpace(c: char) {
    var n := c as int;
    (9 <= n <= 13) || (28 <= n <= 32) || n == 0x85 || n == 0xA0 || n == 0x1680
    || (0x2000 <= n <= 0x200A) || n == 0x2028 || n == 0x2029 || n == 0x202F
    || n == 0x205F || n == 0x3000
  }

  function NotSpace(c: char): bool { !IsSpace(c) }

  /** The line boundaries of `str.splitlines()` (a `\r` followed by `\n` counts once). */
  predicate IsLineBreak(c: char) {
    var n := c as int;
    (10 <= n <= 13) || (28 <= n <= 30) || n == 0x85 || n == 0x2028 || n == 0x2029
  }

  lemma LineBreakIsSpace(c: char)
    ensures IsLineBreak(c) ==> IsSpace(c)
  {
  }

  predicate AllSpace(s: string) {
    forall i :: 0 <= i < |s| ==> IsSpace(s[i])
  }

  predicate NoLineBreak(s: string) {
    forall i :: 0 <= i < |s| ==> !IsLineBreak(s[i])
  }

  /** The characters of `s` that are not whitespace, in order. */
  function NonSpace(s: string): string
    decreases |s|
  {
    if s == [] then [] else (if IsSpace(s[0]) then [] else [s[0]]) + NonSpace(s[1..])
  }

  lemma {:induction false} NonSpaceOfSpaces(s: string)
    requires AllSpace(s)
    ensures NonSpace(s) == []
    decreases |s|
  {
    if s != [] {
      NonSpaceOfSpaces(s[1..]);
    }
  }

  lemma {:induction false} NonSpaceConcat(a: string, b: string)
    ensures NonSpace(a + b) == NonSpace(a) + NonSpace(b)
    decreases |a|
  {
    if a == [] {
      assert a + b == b;
    } else {
      assert (a + b)[1..] == a[1..] + b;
      NonSpaceConcat(a[1..], b);
    }
  }

  lemma NonSpaceDrop(x: string, y: string, z: string)
    requires NonSpace(y) == []
    ensures NonSpace(x + y + z) == NonSpace(x) + NonSpace(z)
  {
    NonSpaceConcat(x + y, z);
    NonSpaceConcat(x, y);
    assert NonSpace(x) + [] == NonSpace(x);
  }

  /** Whitespace on either side of `y` adds nothing to its non-whitespace content. */
  lemma NonSpaceAround(x: string, y: string, z: string)
    requires AllSpace(x) && AllSpace(z)
    ensures NonSpace(x + y + z) == NonSpace(y)
  {
    NonSpaceConcat(x + y, z);
    NonSpaceConcat(x, y);
    NonSpaceOfSpaces(x);
    NonSpaceOfSpaces(z);
    assert NonSpace(x + y + z) == [] + NonSpace(y) + [];
  }

  // ---------------------------------------------------------------------------
  // strip
  // ---------------------------------------------------------------------------

  /** The first position at or after `from` that holds a non-whitespace character, or `|s|`. */
  function SkipSpaces(s: string, from: nat): (k: nat)
    requires from <= |s|
    ensures from <= k <= |s| && (k < |s| ==> !IsSpace(s[k]))
    ensures forall i :: from <= i < k ==> IsSpace(s[i])
    decreases |s| - from
  {
    if from < |s| && IsSpace(s[from]) then SkipSpaces(s, from + 1) else from
  }

  /** The start of the run of whitespace that ends at `hi`, looking no further left than `lo`. */
  function SkipSpacesBack(s: string, lo: nat, hi: nat): (k: nat)
    requires lo <= hi <= |s|
    ensures lo <= k <= hi && (k > lo ==> !IsSpace(s[k - 1]))
    ensures forall i :: k <= i < hi ==> IsSpace(s[i])
    decreases hi - lo
  {
    if hi > lo && IsSpace(s[hi - 1]) then SkipSpacesBack(s, lo, hi - 1) else hi
  }

  /**
   * `s.strip()`: the piece `s[a..b]` left after removing the leading run
   * `s[..a]` and the trailing run `s[b..]` of whitespace; it neither starts
   * nor ends with whitespace, and only whitespace is removed.
   */
  function Strip(s: string): (r: string)
    ensures exists a, b :: 0 <= a <= b <= |s| && r == s[a..b] && AllSpace(s[..a]) && AllSpace(s[b..])
    ensures r == [] || (!IsSpace(r[0]) && !IsSpace(r[|r| - 1]))
    ensures NonSpace(r) == NonSpace(s)
  {
    var a := SkipSpaces(s, 0);
    var b := SkipSpacesBack(s, a, |s|);
    StripSpec(s, a, b);
    s[a..b]
  }

  lemma StripSpec(s: string, a: nat, b: nat)
    requires a <= b <= |s|
    requires forall i :: 0 <= i < a ==> IsSpace(s[i])
    requires forall i :: b <= i < |s| ==> IsSpace(s[i])
    ensures AllSpace(s[..a]) && AllSpace(s[b..])
    ensures NonSpace(s[a..b]) == NonSpace(s)
  {
    var x, y, z := s[..a], s[a..b], s[b..];
    assert AllSpace(x) by {
      forall i | 0 <= i < |x| ensures IsSpace(x[i]) {
        assert x[i] == s[i];
      }
    }
    assert AllSpace(z) by {
      forall i | 0 <= i < |z| ensures IsSpace(z[i]) {
        assert z[i] == s[b + i];
      }
    }
    Pieces(s, a, b);
    NonSpaceAround(x, y, z);
  }

  // ---------------------------------------------------------------------------
  // lower
  // ---------------------------------------------------------------------------

  function LowerChar(c: char): char {
    if 'A' <= c <= 'Z' then (c as int + 32) as char else c
  }

  /** `s.lower()` with the case map restricted to ASCII letters. */
  function Lower(s: string): string {
    MapSeq(LowerChar, s)
  }

  // ---------------------------------------------------------------------------
  // Substrings: `p in s`, `s.find(p)`
  // ---------------------------------------------------------------------------

  predicate OccursAt(s: string, p: string, i: int) {
    0 <= i && i + |p| <= |s| && s[i..i + |p|] == p
  }

  lemma OccursShift(s: string, p: string)
    requires s != []
    ensures forall j :: 1 <= j ==> (OccursAt(s, p, j) <==> OccursAt(s[1..], p, j - 1))
  {
    forall j | 1 <= j ensures OccursAt(s, p, j) <==> OccursAt(s[1..], p, j - 1) {
      if j + |p| <= |s| {
        assert s[1..][j - 1..j - 1 + |p|] == s[j..j + |p|];
      }
    }
  }

  /** `s.find(p)`: the first position where `p` occurs in `s`, if any. */
  function IndexOf(s: string, p: string): (r: Option<nat>)
    ensures r.Some? ==> OccursAt(s, p, r.value) && forall j :: 0 <= j < r.value ==> !OccursAt(s, p, j)
    ensures r.None? ==> forall j :: !OccursAt(s, p, j)
    decreases |s|
  {
    if |p| > |s| then None
    else if s[..|p|] == p then Some(0)
    else
      OccursShift(s, p);
      assert !OccursAt(s, p, 0);
      match IndexOf(s[1..], p)
      case None => None
      case Some(j) =>
        assert OccursAt(s, p, j + 1);
        Some(j + 1)
  }

  /** `p in s`. */
  predicate Contains(s: string, p: string) {
    IndexOf(s, p).Some?
  }

  lemma ContainsInfix(s: string, p: string, a: int, b: int)
    requires 0 <= a <= b <= |s| && Contains(s[a..b], p)
    ensures Contains(s, p)
  {
    var t := s[a..b];
    var j := IndexOf(t, p).value;
    assert t[j..j + |p|] == p;
    var k := a + j;
    assert s[k..k + |p|] == p by {
      forall i | 0 <= i < |p| ensures s[k + i] == p[i] {
        assert p[i] == t[j..j + |p|][i] == t[j + i];
      }
    }
    assert OccursAt(s, p, k);
    var r := IndexOf(s, p);
    assert r.None? ==> !OccursAt(s, p, k);
  }

  /** The first position of `c` in `s`, if any. */
  function FirstIndexOf(s: string, c: char): (r: Option<nat>)
    ensures r.Some? ==> r.value < |s| && s[r.value] == c && forall j :: 0 <= j < r.value ==> s[j] != c
    ensures r.None? ==> forall j :: 0 <= j < |s| ==> s[j] != c
    decreases |s|
  {
    if s == [] then None
    else if s[0] == c then Some(0)
    else
      match FirstIndexOf(s[1..], c)
      case None => None
      case Some(j) => Some(j + 1)
  }

  /** The last position of `c` in `s`, if any. */
  function LastIndexOf(s: string, c: char): (r: Option<nat>)
    ensures r.Some? ==> r.value < |s| && s[r.value] == c && forall j :: r.value < j < |s| ==> s[j] != c
    ensures r.None? ==> forall j :: 0 <= j < |s| ==> s[j] != c
    decreases |s|
  {
    if s == [] then None
    else if s[|s| - 1] == c then Some(|s| - 1)
    else LastIndexOf(s[..|s| - 1], c)
  }

  // ---------------------------------------------------------------------------
  // split(sep) and sep.join(parts)
  // ---------------------------------------------------------------------------

  /** `sep.join(parts)`. */
  function Join(sep: string, parts: seq<string>): string
    decreases |parts|
  {
    if parts == [] then []
    else if |parts| == 1 then parts[0]
    else parts[0] + sep + Join(sep, parts[1..])
  }

  /**
   * `s.split(sep)` for a non-empty `sep`: the pieces between the occurrences
   * of `sep` found left to right without overlap. Joining them back with
   * `sep` gives `s`, and no piece contains `sep`.
   */
  function SplitOn(s: string, sep: string): (parts: seq<string>)
    requires |sep| > 0
    ensures |parts| >= 1
    ensures Join(sep, parts) == s
    ensures forall i :: 0 <= i < |parts| ==> !Contains(parts[i], sep)
    ensures Contains(s, sep) <==> |parts| >= 2
    ensures forall k :: 0 <= k < |parts| - 1 ==> IndexOf(Join(sep, parts[k..]), sep) == Some(|parts[k]|)
    decreases |s|
  {
    match IndexOf(s, sep)
    case None => [s]
    case Some(i) =>
      var rest := SplitOn(s[i + |sep|..], sep);
      var parts := [s[..i]] + rest;
      assert parts[1..] == rest;
      assert s == s[..i] + sep + s[i + |sep|..];
      NoEarlierOccurrence(s, sep, i);
      assert parts[0..] == parts;
      assert forall k :: 1 <= k < |parts| ==> parts[k..] == rest[k - 1..];
      parts
  }

  lemma NoEarlierOccurrence(s: string, p: string, i: nat)
    requires i <= |s| && |p| > 0
    requires forall j :: 0 <= j < i ==> !OccursAt(s, p, j)
    ensures !Contains(s[..i], p)
  {
    if Contains(s[..i], p) {
      var j := IndexOf(s[..i], p).value;
      assert s[..i][j..j + |p|] == s[j..j + |p|];
      assert OccursAt(s, p, j);
    }
  }

  /** The parts of a joined string without line breaks have none. */
  lemma {:induction false} NoLineBreakJoin(sep: string, parts: seq<string>)
    requires NoLineBreak(Join(sep, parts))
    ensures forall k :: 0 <= k < |parts| ==> NoLineBreak(parts[k])
    decreases |parts|
  {
    if |parts| >= 2 {
      var x, rest := parts[0] + sep, Join(sep, parts[1..]);
      assert forall i :: 0 <= i < |x| ==> (x + rest)[i] == x[i];
      assert forall i :: 0 <= i < |rest| ==> (x + rest)[|x| + i] == rest[i];
      assert forall i :: 0 <= i < |parts[0]| ==> x[i] == parts[0][i];
      NoLineBreakJoin(sep, parts[1..]);
      assert forall k :: 1 <= k < |parts| ==> parts[k] == parts[1..][k - 1];
    }
  }

  /** Joining with a separator of white space adds no visible character. */
  lemma {:induction false} NonSpaceJoin(sep: string, parts: seq<string>)
    requires AllSpace(sep)
    ensures NonSpace(Join(sep, parts)) == NonSpace(Concat(parts))
    decreases |parts|
  {
    if |parts| == 1 {
      assert parts[1..] == [] && parts[0] + [] == parts[0];
      assert Concat(parts) == parts[0];
    } else if |parts| >= 2 {
      NonSpaceJoin(sep, parts[1..]);
      NonSpaceOfSpaces(sep);
      NonSpaceDrop(parts[0], sep, Join(sep, parts[1..]));
      NonSpaceConcat(parts[0], Concat(parts[1..]));
    }
  }

  /** A slice of a string without line breaks has none. */
  lemma NoLineBreakSlice(s: string, a: nat, b: nat)
    requires a <= b <= |s| && NoLineBreak(s)
    ensures NoLineBreak(s[a..b])
  {
    assert forall i :: 0 <= i < b - a ==> s[a..b][i] == s[a + i];
  }

  /** A slice of a string that does not contain `p` does not contain it either. */
  lemma NotContainsSlice(s: string, p: string, a: nat, b: nat)
    requires a <= b <= |s| && !Contains(s, p)
    ensures !Contains(s[a..b], p)
  {
    if Contains(s[a..b], p) {
      ContainsInfix(s, p, a, b);
    }
  }

  /** `s.split(sep)[0]` is the text before the first `sep`, or all of `s`. */
  lemma SplitFirst(s: string, sep: string)
    requires |sep| > 0
    ensures SplitOn(s, sep)[0] == match IndexOf(s, sep) case None => s case Some(i) => s[..i]
  {
  }

  /** `s.split(sep)[1]`, when `sep` occurs, is the text between its first and second occurrence (or the end). */
  lemma SplitSecond(s: string, sep: string)
    requires |sep| > 0 && Contains(s, sep)
    ensures var i := IndexOf(s, sep).value;
            SplitOn(s, sep)[1] == SplitOn(s[i + |sep|..], sep)[0]
  {
  }

  // ---------------------------------------------------------------------------
  // splitlines
  // ---------------------------------------------------------------------------

  function FirstLineBreak(s: string): (r: Option<nat>)
    ensures r.Some? ==> r.value < |s| && IsLineBreak(s[r.value]) && forall j :: 0 <= j < r.value ==> !IsLineBreak(s[j])
    ensures r.None? ==> NoLineBreak(s)
    decreases |s|
  {
    if s == [] then None
    else if IsLineBreak(s[0]) then Some(0)
    else
      match FirstLineBreak(s[1..])
      case None => None
      case Some(j) => Some(j + 1)
  }

  /** `s.splitlines()`: the lines of `s`, without their line boundaries. */
  function SplitLines(s: string): (lines: seq<string>)
    ensures forall i :: 0 <= i < |lines| ==> NoLineBreak(lines[i])
    ensures lines == [] <==> s == []
    ensures s != [] ==> lines[0] == match FirstLineBreak(s) case None => s case Some(i) => s[..i]
    ensures s != [] && FirstLineBreak(s).None? ==> lines == [s]
    decreases |s|
  {
    if s == [] then []
    else
      match FirstLineBreak(s)
      case None => [s]
      case Some(i) =>
        var width := if s[i] == '\r' && i + 1 < |s| && s[i + 1] == '\n' then 2 else 1;
        assert forall j :: 0 <= j < i ==> s[..i][j] == s[j];
        [s[..i]] + SplitLines(s[i + width..])
  }

  /** Splitting into lines removes only the line boundaries, which are whitespace. */
  lemma {:induction false} SplitLinesNonSpace(s: string)
    ensures NonSpace(Concat(SplitLines(s))) == NonSpace(s)
    decreases |s|
  {
    if s != [] {
      match FirstLineBreak(s)
      case None =>
        assert SplitLines(s) == [s];
        assert Concat([s]) == s + Concat([]);
        assert s + [] == s;
      case Some(i) =>
        var width := if s[i] == '\r' && i + 1 < |s| && s[i + 1] == '\n' then 2 else 1;
        var rest := s[i + width..];
        SplitLinesFirst(s, i, width);
        SplitLinesNonSpace(rest);
        BreakNonSpace(s, i, width);
    }
  }

  /** After the first line and its boundary, the lines are those of the rest of the text. */
  lemma SplitLinesRest(s: string, i: nat, width: nat)
    requires s != [] && FirstLineBreak(s) == Some(i)
    requires width == if s[i] == '\r' && i + 1 < |s| && s[i + 1] == '\n' then 2 else 1
    ensures SplitLines(s) == [s[..i]] + SplitLines(s[i + width..])
  {
  }

  lemma SplitLinesFirst(s: string, i: nat, width: nat)
    requires s != [] && FirstLineBreak(s) == Some(i)
    requires width == if s[i] == '\r' && i + 1 < |s| && s[i + 1] == '\n' then 2 else 1
    ensures NonSpace(Concat(SplitLines(s))) == NonSpace(s[..i]) + NonSpace(Concat(SplitLines(s[i + width..])))
  {
    var lines := SplitLines(s);
    var rest := SplitLines(s[i + width..]);
    assert lines == [s[..i]] + rest;
    assert lines[1..] == rest;
    assert Concat(lines) == s[..i] + Concat(rest);
    NonSpaceConcat(s[..i], Concat(rest));
  }

  lemma BreakNonSpace(s: string, i: nat, width: nat)
    requires i < |s| && IsLineBreak(s[i])
    requires width == if s[i] == '\r' && i + 1 < |s| && s[i + 1] == '\n' then 2 else 1
    ensures NonSpace(s) == NonSpace(s[..i]) + NonSpace(s[i + width..])
  {
    BreakIsSpace(s, i, width);
    NonSpaceOfSpaces(s[i..i + width]);
    NonSpaceSkip(s, i, width);
  }

  /** A line boundary, one character or `"\r\n"`, is whitespace. */
  lemma BreakIsSpace(s: string, i: nat, width: nat)
    requires i < |s| && IsLineBreak(s[i])
    requires width == if s[i] == '\r' && i + 1 < |s| && s[i + 1] == '\n' then 2 else 1
    ensures AllSpace(s[i..i + width])
  {
    var gap := s[i..i + width];
    LineBreakIsSpace(s[i]);
    assert gap[0] == s[i];
    assert width == 2 ==> gap[1] == s[i + 1] == '\n';
  }

  lemma NonSpaceSkip(s: string, i: nat, width: nat)
    requires i + width <= |s|
    requires NonSpace(s[i..i + width]) == []
    ensures NonSpace(s) == NonSpace(s[..i]) + NonSpace(s[i + width..])
  {
    Pieces(s, i, i + width);
    NonSpaceDrop(s[..i], s[i..i + width], s[i + width..]);
  }

  /** Text joined with `'\n'` from non-empty lines free of line boundaries splits back into those lines. */
  lemma {:induction false} SplitLinesJoin(xs: seq<string>)
    requires forall i :: 0 <= i < |xs| ==> xs[i] != [] && NoLineBreak(xs[i])
    ensures SplitLines(Join("\n", xs)) == xs
    decreases |xs|
  {
    if |xs| == 1 {
      assert FirstLineBreak(xs[0]).None?;
    } else if |xs| > 1 {
      var s := Join("\n", xs);
      var x := xs[0];
      var rest := Join("\n", xs[1..]);
      assert s == x + "\n" + rest;
      assert s[..|x|] == x;
      assert s[|x|] == '\n';
      FirstBreakAt(s, |x|);
      assert s[|x| + 1..] == rest;
      SplitLinesJoin(xs[1..]);
    }
  }

  lemma {:induction false} FirstBreakAt(s: string, i: nat)
    requires i < |s| && IsLineBreak(s[i]) && NoLineBreak(s[..i])
    ensures FirstLineBreak(s) == Some(i)
    decreases i
  {
    if i > 0 {
      assert s[..i][0] == s[0];
      assert s[1..][..i - 1] == s[1..i];
      assert forall k :: 0 <= k < i - 1 ==> s[1..i][k] == s[..i][k + 1];
      FirstBreakAt(s[1..], i - 1);
    }
  }

  // ---------------------------------------------------------------------------
  // Ordering of strings (Python's `<` on `str`) and `sorted(set)`
  // ---------------------------------------------------------------------------

  /** Lexicographic order by code point; a proper prefix comes first. */
  predicate LexLess(a: string, b: string)
    decreases |a|
  {
    if a == [] then b != []
    else b != [] && (if a[0] == b[0] then LexLess(a[1..], b[1..]) else a[0] < b[0])
  }

  lemma {:induction false} LexIrreflexive(a: string)
    ensures !LexLess(a, a)
    decreases |a|
  {
    if a != [] {
      LexIrreflexive(a[1..]);
    }
  }

  lemma {:induction false} LexTransitive(a: string, b: string, c: string)
    requires LexLess(a, b) && LexLess(b, c)
    ensures LexLess(a, c)
    decreases |a|
  {
    if a != [] && a[0] == b[0] && b[0] == c[0] {
      LexTransitive(a[1..], b[1..], c[1..]);
    }
  }

  lemma {:induction false} LexTotal(a: string, b: string)
    requires a != b
    ensures LexLess(a, b) || LexLess(b, a)
    decreases |a|
  {
    if a != [] && b != [] && a[0] == b[0] {
      assert a == [a[0]] + a[1..] && b == [b[0]] + b[1..];
      LexTotal(a[1..], b[1..]);
    }
  }

  lemma LexAsymmetric(a: string, b: string)
    ensures !(LexLess(a, b) && LexLess(b, a))
  {
    if LexLess(a, b) && LexLess(b, a) {
      LexTransitive(a, b, a);
      LexIrreflexive(a);
    }
  }

  predicate StrictlyAscending(r: seq<string>) {
    forall i, j :: 0 <= i < j < |r| ==> LexLess(r[i], r[j])
  }

  predicate IsLeast(m: string, s: set<string>) {
    m in s && forall x :: x in s && x != m ==> LexLess(m, x)
  }

  lemma {:induction false} LeastExists(s: set<string>)
    requires s != {}
    ensures exists m :: IsLeast(m, s)
    decreases |s|
  {
    var y :| y in s;
    if s == {y} {
      assert IsLeast(y, s);
    } else {
      var t := s - {y};
      assert t != {} by { var z :| z in s && z != y; assert z in t; }
      LeastExists(t);
      var m :| IsLeast(m, t);
      if LexLess(y, m) {
        forall x | x in s && x != y ensures LexLess(y, x) {
          if x != m { LexTransitive(y, m, x); }
        }
        assert IsLeast(y, s);
      } else {
        LexTotal(y, m);
        assert IsLeast(m, s);
      }
    }
  }

  lemma LeastUnique(s: set<string>)
    ensures forall m, n :: IsLeast(m, s) && IsLeast(n, s) ==> m == n
  {
    forall m, n | IsLeast(m, s) && IsLeast(n, s) ensures m == n {
      LexAsymmetric(m, n);
    }
  }

  /** `sorted(s)` for a set of strings: its elements once each, in strictly ascending order. */
  function SortedSeq(s: set<string>): (r: seq<string>)
    ensures StrictlyAscending(r)
    ensures forall x :: x in r <==> x in s
    ensures |r| == |s|
    decreases |s|
  {
    if s == {} then []
    else
      LeastExists(s);
      LeastUnique(s);
      var m :| IsLeast(m, s);
      var rest := SortedSeq(s - {m});
      assert forall j :: 0 <= j < |rest| ==> rest[j] in s - {m};
      [m] + rest
  }

  // ---------------------------------------------------------------------------
  // str(n) for an int
  // ---------------------------------------------------------------------------

  function DigitChar(d: nat): char
    requires d < 10
  {
    (48 + d) as char
  }

  predicate IsDigit(c: char) { '0' <= c <= '9' }

  function NatToString(n: nat): (r: string)
    ensures |r| >= 1 && (|r| == 1 <==> n < 10)
    ensures forall i :: 0 <= i < |r| ==> IsDigit(r[i])
    decreases n
  {
    if n < 10 then [DigitChar(n)] else NatToString(n / 10) + [DigitChar(n % 10)]
  }

  /** `str(n)`: decimal digits, with a leading `-` for a negative number. */
  function IntToString(n: int): string {
    if n < 0 then "-" + NatToString(-n) else NatToString(n)
  }

  lemma {:induction false} NatToStringInjective(a: nat, b: nat)
    requires NatToString(a) == NatToString(b)
    ensures a == b
    decreases a
  {
    var ra, rb := NatToString(a), NatToString(b);
    if a < 10 || b < 10 {
      assert a < 10 && b < 10;
      assert ra[0] == DigitChar(a) && rb[0] == DigitChar(b);
    } else {
      assert ra[|ra| - 1] == DigitChar(a % 10) && rb[|rb| - 1] == DigitChar(b % 10);
      assert ra[..|ra| - 1] == NatToString(a / 10) && rb[..|rb| - 1] == NatToString(b / 10);
      NatToStringInjective(a / 10, b / 10);
    }
  }

  /** Distinct numbers have distinct decimal representations. */
  lemma IntToStringInjective(a: int, b: int)
    requires IntToString(a) == IntToString(b)
    ensures a == b
  {
    IntToStringSign(a);
    IntToStringSign(b);
    var ra, rb := IntToString(a), IntToString(b);
    if a < 0 {
      assert ra[1..] == NatToString(-a) && rb[1..] == NatToString(-b);
      NatToStringInjective(-a, -b);
    } else {
      NatToStringInjective(a, b);
    }
  }

  lemma IntToStringSign(n: int)
    ensures |IntToString(n)| >= 1 && (IntToString(n)[0] == '-' <==> n < 0)
  {
    if n >= 0 {
      assert IsDigit(NatToString(n)[0]);
    }
  }
}
