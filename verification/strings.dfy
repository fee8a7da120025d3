/** The parts of Go's `strings`, `strconv` and `path/filepath` packages that
    the backend relies on, over `string` = `seq<char>`.  Lengths count
    characters, which equals Go's byte length on ASCII text. */
module Strings {
  import opened Wrappers

  // ---------------------------------------------------------------------------
  // Whitespace and trimming
  // ---------------------------------------------------------------------------

  /** Go's `unicode.IsSpace`: ASCII tab, newline, vertical tab, form feed,
      carriage return and space, plus the Unicode White_Space characters
      outside ASCII. */
  predicate IsSpace(c: char) {
    var n := c as int;
    n == 0x20 || (0x09 <= n <= 0x0D) || n == 0x85 || n == 0xA0 || n == 0x1680
    || (0x2000 <= n <= 0x200A) || n == 0x2028 || n == 0x2029 || n == 0x202F
    || n == 0x205F || n == 0x3000
  }

  predicate AllSpace(s: string) {
    forall i :: 0 <= i < |s| ==> IsSpace(s[i])
  }

  /** The number of white-space characters `s` starts with. */
  function LeadingSpace(s: string): (n: nat)
    ensures n <= |s|
    ensures forall i :: 0 <= i < n ==> IsSpace(s[i])
    ensures n < |s| ==> !IsSpace(s[n])
  {
    if |s| == 0 || !IsSpace(s[0]) then 0
    else
      var n := LeadingSpace(s[1..]);
      assert forall i :: 1 <= i < n + 1 ==> s[i] == s[1..][i - 1];
      n + 1
  }

  /** The length of `s` once its trailing white space is dropped. */
  function TrailingStart(s: string): (n: nat)
    ensures n <= |s|
    ensures forall i :: n <= i < |s| ==> IsSpace(s[i])
    ensures n > 0 ==> !IsSpace(s[n - 1])
  {
    if |s| == 0 || !IsSpace(s[|s| - 1]) then |s|
    else
      var n := TrailingStart(s[..|s| - 1]);
      assert forall i :: n <= i < |s| - 1 ==> s[i] == s[..|s| - 1][i];
      n
  }

  /** Go's `strings.TrimSpace`: the run between the leading and the
      trailing white space. */
  function TrimSpace(s: string): (r: string)
    ensures r == [] <==> AllSpace(s)
    ensures r != [] ==> !IsSpace(r[0]) && !IsSpace(r[|r| - 1])
  {
    var a := LeadingSpace(s);
    if a == |s| then []
    else
      var b := TrailingStart(s);
      assert a < b;
      s[a..b]
  }

  /** Trimming keeps every character that is not white space and adds none. */
  lemma TrimSpaceChars(s: string)
    ensures forall c :: c in TrimSpace(s) ==> c in s
    ensures forall c :: !IsSpace(c) && c in s ==> c in TrimSpace(s)
  {
    var a := LeadingSpace(s);
    var r := TrimSpace(s);
    if a < |s| {
      var b := TrailingStart(s);
      assert r == s[a..b];
      forall c | c in r ensures c in s {
        var j :| 0 <= j < |r| && r[j] == c;
        assert s[a + j] == c;
      }
      forall c | !IsSpace(c) && c in s ensures c in r {
        var j :| 0 <= j < |s| && s[j] == c;
        assert r[j - a] == c;
      }
    }
  }

  /** A text without white space at either end is its own trim. */
  lemma TrimSpaceStops(s: string)
    requires s == [] || (!IsSpace(s[0]) && !IsSpace(s[|s| - 1]))
    ensures TrimSpace(s) == s
  {
    if s != [] {
      assert LeadingSpace(s) == 0;
      assert TrailingStart(s) == |s|;
    }
  }

  /** Trimming removes exactly the white space padded around a text whose
      own ends are not white space. */
  lemma TrimSpacePadded(w1: string, x: string, w2: string)
    requires AllSpace(w1) && AllSpace(w2)
    requires x == [] || (!IsSpace(x[0]) && !IsSpace(x[|x| - 1]))
    ensures TrimSpace(w1 + x + w2) == x
  {
    var s := w1 + x + w2;
    if x == [] {
      assert s == w1 + w2;
      forall i | 0 <= i < |s| ensures IsSpace(s[i]) {
        if i < |w1| {
          assert s[i] == w1[i];
        } else {
          assert s[i] == w2[i - |w1|];
        }
      }
    } else {
      PaddedEnds(s, w1, x, w2);
      assert s[|w1|..|w1| + |x|] == x;
    }
  }

  /** Where the leading and trailing white space of a padded text stop. */
  lemma PaddedEnds(s: string, w1: string, x: string, w2: string)
    requires s == w1 + x + w2 && AllSpace(w1) && AllSpace(w2)
    requires x != [] && !IsSpace(x[0]) && !IsSpace(x[|x| - 1])
    ensures LeadingSpace(s) == |w1| && TrailingStart(s) == |w1| + |x|
  {
    var a, b := |w1|, |w1| + |x|;
    assert s[a] == x[0] && s[b - 1] == x[|x| - 1];
    assert forall i :: 0 <= i < a ==> s[i] == w1[i];
    assert forall i :: b <= i < |s| ==> s[i] == w2[i - b];
  }

  lemma {:induction false} TrimSpaceIdempotent(s: string)
    ensures TrimSpace(TrimSpace(s)) == TrimSpace(s)
  {
    TrimSpaceStops(TrimSpace(s));
  }

  // ---------------------------------------------------------------------------
  // Prefixes, suffixes, substrings
  // ---------------------------------------------------------------------------

  /** Go's `strings.HasPrefix`. */
  predicate HasPrefix(s: string, p: string) {
    |p| <= |s| && s[..|p|] == p
  }

  /** Go's `strings.HasSuffix`. */
  predicate HasSuffix(s: string, p: string) {
    |p| <= |s| && s[|s| - |p|..] == p
  }

  /** Go's `strings.TrimPrefix`. */
  function TrimPrefix(s: string, p: string): (r: string)
    ensures HasPrefix(s, p) ==> p + r == s
    ensures !HasPrefix(s, p) ==> r == s
  {
    if HasPrefix(s, p) then s[|p|..] else s
  }

  /** Go's `strings.TrimSuffix`. */
  function TrimSuffix(s: string, p: string): (r: string)
    ensures HasSuffix(s, p) ==> r + p == s
    ensures !HasSuffix(s, p) ==> r == s
  {
    if HasSuffix(s, p) then s[..|s| - |p|] else s
  }

  /** `sub` occurs in `s` starting at index `i`. */
  predicate OccursAt(s: string, sub: string, i: int) {
    0 <= i && i + |sub| <= |s| && s[i..i + |sub|] == sub
  }

  /** Go's `strings.Contains`. */
  predicate Contains(s: string, sub: string) {
    exists i :: 0 <= i <= |s| - |sub| && OccursAt(s, sub, i)
  }

  /** A one-character needle is found exactly when the character occurs. */
  lemma ContainsChar(s: string, c: char)
    ensures Contains(s, [c]) <==> c in s
  {
    if c in s {
      var i :| 0 <= i < |s| && s[i] == c;
      assert OccursAt(s, [c], i);
    }
    if Contains(s, [c]) {
      var i :| 0 <= i <= |s| - 1 && OccursAt(s, [c], i);
      assert s[i] == s[i..i + 1][0];
    }
  }

  /** Go's `strings.IndexByte`: the first index of `c`, or -1. */
  function IndexByte(s: string, c: char): (r: int)
    ensures -1 <= r < |s|
    ensures r == -1 <==> c !in s
    ensures r >= 0 ==> s[r] == c && c !in s[..r]
    ensures forall i :: 0 <= i < |s| && (r < 0 || i < r) ==> s[i] != c
  {
    if |s| == 0 then -1
    else if s[0] == c then 0
    else
      var k := IndexByte(s[1..], c);
      if k == -1 then -1
      else
        assert s[..k + 1] == [s[0]] + s[1..][..k];
        k + 1
  }

  /** Go's `strings.LastIndexByte`: the last index of `c`, or -1. */
  function LastIndexByte(s: string, c: char): (r: int)
    ensures -1 <= r < |s|
    ensures r == -1 <==> c !in s
    ensures r >= 0 ==> s[r] == c && c !in s[r + 1..]
    ensures forall i :: r < i < |s| ==> s[i] != c
  {
    if |s| == 0 then -1
    else if s[|s| - 1] == c then
      assert s[|s|..] == [];
      |s| - 1
    else
      var init := s[..|s| - 1];
      var k := LastIndexByte(init, c);
      assert forall i :: 0 <= i < |init| ==> s[i] == init[i];
      NoneFrom(s, c, k + 1);
      k
  }

  lemma NoneFrom(s: string, c: char, lo: int)
    requires 0 <= lo <= |s| && forall i :: lo <= i < |s| ==> s[i] != c
    ensures c !in s[lo..]
    ensures lo == 0 ==> c !in s
  {
    assert forall i :: 0 <= i < |s| - lo ==> s[lo..][i] == s[lo + i];
  }


  // ---------------------------------------------------------------------------
  // Case mapping
  // ---------------------------------------------------------------------------

  /** Lower-cases an ASCII capital; every other character is unchanged. */
  function LowerChar(c: char): char {
    if 'A' <= c <= 'Z' then (c as int + 32) as char else c
  }

  /** Go's `strings.ToLower`, restricted to ASCII letters. */
  function ToLower(s: string): (r: string)
    ensures |r| == |s|
    ensures forall i :: 0 <= i < |s| ==> r[i] == LowerChar(s[i])
  {
    seq(|s|, i requires 0 <= i < |s| => LowerChar(s[i]))
  }

  lemma ToLowerAppend(a: string, b: string)
    ensures ToLower(a + b) == ToLower(a) + ToLower(b)
  {
    assert forall i :: 0 <= i < |a + b| ==> ToLower(a + b)[i] == (ToLower(a) + ToLower(b))[i];
  }

  // ---------------------------------------------------------------------------
  // Split, Join and ReplaceAll
  // ---------------------------------------------------------------------------

  /** Go's `strings.Join`. */
  function Join(parts: seq<string>, sep: string): string {
    if |parts| == 0 then ""
    else if |parts| == 1 then parts[0]
    else parts[0] + sep + Join(parts[1..], sep)
  }

  lemma JoinConsHead(c: string, x: string, xs: seq<string>, sep: string)
    ensures Join([c + x] + xs, sep) == c + Join([x] + xs, sep)
  {
    assert ([c + x] + xs)[1..] == xs;
    assert ([x] + xs)[1..] == xs;
  }

  /** Go's `strings.Split` for a non-empty separator: the pieces between the
      leftmost non-overlapping occurrences of `sep`.  Joining the pieces
      with `sep` gives back `s`, and no piece contains `sep`. */
  function SplitOn(s: string, sep: string): (r: seq<string>)
    requires |sep| > 0
    ensures |r| >= 1
    ensures HasPrefix(s, r[0])
    ensures Join(r, sep) == s
    ensures forall k :: 0 <= k < |r| ==> !Contains(r[k], sep)
    decreases |s|
  {
    if |s| < |sep| then
      [s]
    else if s[..|sep|] == sep then
      var rest := SplitOn(s[|sep|..], sep);
      assert s == sep + s[|sep|..];
      assert ([""] + rest)[1..] == rest;
      [""] + rest
    else
      var rest := SplitOn(s[1..], sep);
      NoOccurrenceExtend(s, sep, rest[0]);
      JoinConsHead([s[0]], rest[0], rest[1..], sep);
      assert [rest[0]] + rest[1..] == rest;
      assert s == [s[0]] + s[1..];
      [[s[0]] + rest[0]] + rest[1..]
  }

  lemma NoOccurrenceExtend(s: string, sep: string, p: string)
    requires 0 < |sep| <= |s| && s[..|sep|] != sep
    requires HasPrefix(s[1..], p) && !Contains(p, sep)
    ensures !Contains([s[0]] + p, sep)
  {
    var q := [s[0]] + p;
    assert q == s[..|q|];
    forall i | 0 <= i <= |q| - |sep| ensures !OccursAt(q, sep, i) {
      if i == 0 {
        assert q[..|sep|] == s[..|sep|];
      } else {
        assert q[i..i + |sep|] == p[i - 1..i - 1 + |sep|];
        assert !OccursAt(p, sep, i - 1);
      }
    }
  }

  /** Go's `strings.SplitN(s, sep, 2)` for a one-character `sep`: the whole
      string when `sep` does not occur, else the text before its first
      occurrence and everything after it. */
  function SplitFirst(s: string, sep: char): (r: seq<string>)
    ensures |r| == 1 || |r| == 2
    ensures |r| == 1 <==> sep !in s
    ensures |r| == 1 ==> r[0] == s
    ensures |r| == 2 ==> s == r[0] + [sep] + r[1] && sep !in r[0]
  {
    var i := IndexByte(s, sep);
    if i < 0 then [s]
    else
      assert s == s[..i] + [sep] + s[i + 1..];
      [s[..i], s[i + 1..]]
  }

  /** Splitting at the first `sep` undoes gluing two pieces with it, as long
      as the first piece has none. */
  lemma SplitFirstOf(a: string, sep: char, b: string)
    requires sep !in a
    ensures SplitFirst(a + [sep] + b, sep) == [a, b]
  {
    var s := a + [sep] + b;
    assert s[|a|] == sep;
    assert forall i :: 0 <= i < |a| ==> s[i] == a[i] != sep;
    assert IndexByte(s, sep) == |a|;
    var r := SplitFirst(s, sep);
    assert r[0] == s[..|a|] == a;
    assert r[1] == s[|a| + 1..] == b;
  }

  /** The first piece of `SplitOn` at a one-character separator ends at the
      first occurrence of that character, and the other pieces joined back
      are what follows it. */
  lemma SplitOnFirst(s: string, sep: char)
    ensures var r := SplitOn(s, [sep]);
      sep !in r[0] && (|r| == 1 <==> sep !in s)
      && (|r| >= 2 ==> s == r[0] + [sep] + Join(r[1..], [sep]))
  {
    var r := SplitOn(s, [sep]);
    ContainsChar(r[0], sep);
    if |r| == 1 {
      ContainsChar(s, sep);
    } else {
      assert s == r[0] + [sep] + Join(r[1..], [sep]);
      assert s[|r[0]|] == sep;
    }
  }

  /** Go's `strings.ReplaceAll` for a non-empty `pat`: scans left to right and
      replaces each non-overlapping occurrence of `pat` by `rep`. */
  function ReplaceAll(s: string, pat: string, rep: string): string
    requires |pat| > 0
    decreases |s|
  {
    if |s| < |pat| then s
    else if s[..|pat|] == pat then rep + ReplaceAll(s[|pat|..], pat, rep)
    else [s[0]] + ReplaceAll(s[1..], pat, rep)
  }

  /** Replacing every occurrence is splitting at the occurrences and joining
      the pieces with the replacement. */
  lemma {:induction false} ReplaceAllIsSplitJoin(s: string, pat: string, rep: string)
    requires |pat| > 0
    ensures ReplaceAll(s, pat, rep) == Join(SplitOn(s, pat), rep)
    decreases |s|
  {
    if |s| < |pat| {
    } else if s[..|pat|] == pat {
      var rest := SplitOn(s[|pat|..], pat);
      ReplaceAllIsSplitJoin(s[|pat|..], pat, rep);
      assert ([""] + rest)[1..] == rest;
    } else {
      var rest := SplitOn(s[1..], pat);
      ReplaceAllIsSplitJoin(s[1..], pat, rep);
      JoinConsHead([s[0]], rest[0], rest[1..], rep);
      assert [rest[0]] + rest[1..] == rest;
    }
  }

  /** Text without the pattern is left exactly as it is. */
  lemma {:induction false} ReplaceAllAbsent(s: string, pat: string, rep: string)
    requires |pat| > 0 && !Contains(s, pat)
    ensures ReplaceAll(s, pat, rep) == s
    decreases |s|
  {
    if |s| < |pat| {
    } else {
      assert !OccursAt(s, pat, 0);
      forall i | 0 <= i <= |s[1..]| - |pat| ensures !OccursAt(s[1..], pat, i) {
        assert s[1..][i..i + |pat|] == s[i + 1..i + 1 + |pat|];
        assert !OccursAt(s, pat, i + 1);
      }
      ReplaceAllAbsent(s[1..], pat, rep);
    }
  }

  /** When the pattern occurs, the replacement occurs in the result: the
      leftmost occurrence is always replaced. */
  lemma {:induction false} ReplaceAllInserts(s: string, pat: string, rep: string)
    requires |pat| > 0 && Contains(s, pat)
    ensures Contains(ReplaceAll(s, pat, rep), rep)
    decreases |s|
  {
    var i :| 0 <= i <= |s| - |pat| && OccursAt(s, pat, i);
    if s[..|pat|] == pat {
      var r := rep + ReplaceAll(s[|pat|..], pat, rep);
      assert OccursAt(r, rep, 0);
    } else {
      assert i > 0;
      assert s[1..][i - 1..i - 1 + |pat|] == s[i..i + |pat|];
      assert OccursAt(s[1..], pat, i - 1);
      ReplaceAllInserts(s[1..], pat, rep);
      var t := ReplaceAll(s[1..], pat, rep);
      var j :| 0 <= j <= |t| - |rep| && OccursAt(t, rep, j);
      var r := [s[0]] + t;
      assert r[j + 1..j + 1 + |rep|] == t[j..j + |rep|];
      assert OccursAt(r, rep, j + 1);
    }
  }

  // ---------------------------------------------------------------------------
  // Decimal integers (strconv.Itoa / strconv.Atoi)
  // ---------------------------------------------------------------------------

  const MinInt64: int := -0x8000_0000_0000_0000
  const MaxInt64: int := 0x7FFF_FFFF_FFFF_FFFF

  predicate IsDigit(c: char) {
    '0' <= c <= '9'
  }

  predicate AllDigits(s: string) {
    forall i :: 0 <= i < |s| ==> IsDigit(s[i])
  }

  function DigitChar(d: nat): (c: char)
    requires d < 10
    ensures IsDigit(c)
  {
    ('0' as int + d) as char
  }

  function DigitValue(c: char): nat
    requires IsDigit(c)
  {
    c as int - '0' as int
  }

  /** The decimal digits of `n`, most significant first, without leading zeros. */
  function NatToString(n: nat): (r: string)
    ensures |r| >= 1 && AllDigits(r)
    ensures |r| > 1 ==> r[0] != '0'
    decreases n
  {
    if n < 10 then [DigitChar(n)] else NatToString(n / 10) + [DigitChar(n % 10)]
  }

  /** Go's `strconv.Itoa`, which is also what `%d` prints. */
  function Itoa(n: int): (r: string)
    ensures |r| >= 1
    ensures n >= 0 ==> AllDigits(r)
    ensures n < 0 ==> r[0] == '-' && AllDigits(r[1..])
  {
    if n < 0 then "-" + NatToString(-n) else NatToString(n)
  }

  /** The value of a string of decimal digits. */
  function DigitsValue(s: string): nat
    requires AllDigits(s)
  {
    if |s| == 0 then 0 else DigitsValue(s[..|s| - 1]) * 10 + DigitValue(s[|s| - 1])
  }

  /** Go's `strconv.Atoi` on a 64-bit platform: an optional `+` or `-` sign
      followed by at least one decimal digit, with a value in the int64
      range.  Anything else is an error. */
  function Atoi(s: string): (r: Option<int>)
    ensures r.Some? ==> MinInt64 <= r.value <= MaxInt64
    ensures r.Some? ==> |s| >= 1 && (IsDigit(s[0]) || s[0] == '-' || s[0] == '+')
  {
    if |s| == 0 then None
    else
      var digits := if s[0] == '-' || s[0] == '+' then s[1..] else s;
      if |digits| == 0 || !AllDigits(digits) then None
      else
        var v: int := if s[0] == '-' then 0 - DigitsValue(digits) else DigitsValue(digits);
        if MinInt64 <= v <= MaxInt64 then Some(v) else None
  }

  lemma {:induction false} DigitsValueOfNatToString(n: nat)
    ensures DigitsValue(NatToString(n)) == n
    decreases n
  {
    if n >= 10 {
      var s := NatToString(n);
      DigitsValueOfNatToString(n / 10);
      assert s[..|s| - 1] == NatToString(n / 10);
    }
  }

  /** Every int64 survives printing and parsing back. */
  lemma AtoiItoa(n: int)
    requires MinInt64 <= n <= MaxInt64
    ensures Atoi(Itoa(n)) == Some(n)
  {
    if n < 0 {
      var d := NatToString(-n);
      var s := "-" + d;
      assert Itoa(n) == s;
      assert s[0] == '-' && s[1..] == d;
      DigitsValueOfNatToString(-n);
    } else {
      var d := NatToString(n);
      assert Itoa(n) == d;
      assert IsDigit(d[0]);
      DigitsValueOfNatToString(n);
    }
  }

  // ---------------------------------------------------------------------------
  // File name extensions (filepath.Ext)
  // ---------------------------------------------------------------------------

  /** Go's `filepath.Ext` with `/` as the separator: the suffix that starts at
      the last `.` of the final path element, or "" when that element has no
      dot. */
  function Ext(path: string): (r: string)
    ensures HasSuffix(path, r)
    ensures r == [] || (r[0] == '.' && '.' !in r[1..] && '/' !in r)
    ensures r == [] ==> forall i :: 0 <= i < |path| && path[i] == '.' ==> i < LastIndexByte(path, '/')
    decreases |path|
  {
    if |path| == 0 then ""
    else
      var n := |path|;
      var c := path[n - 1];
      if c == '/' then
        ""
      else if c == '.' then "."
      else
        var e := Ext(path[..n - 1]);
        if e == "" then
          NoDotStep(path);
          ""
        else
          assert path[n - |e| - 1..] == path[..n - 1][n - 1 - |e|..] + [c];
          assert (e + [c])[1..] == e[1..] + [c];
          e + [c]
  }

  /** A last character other than `/` and `.` adds no dot to the final
      path element. */
  lemma NoDotStep(path: string)
    requires |path| > 0 && path[|path| - 1] != '/' && path[|path| - 1] != '.'
    requires var p := path[..|path| - 1];
      forall i :: 0 <= i < |p| && p[i] == '.' ==> i < LastIndexByte(p, '/')
    ensures forall i :: 0 <= i < |path| && path[i] == '.' ==> i < LastIndexByte(path, '/')
  {
    var p := path[..|path| - 1];
    assert path == p + [path[|path| - 1]];
    assert LastIndexByte(path, '/') == LastIndexByte(p, '/');
    forall i | 0 <= i < |path| && path[i] == '.' ensures i < LastIndexByte(path, '/') {
      assert i < |p| && p[i] == '.';
    }
  }

  /** An extension that is the whole of `e` is what `Ext` finds at the end of
      any path ending in `e`. */
  lemma {:induction false} ExtOfSuffix(x: string, e: string)
    requires |e| >= 1 && e[0] == '.' && '.' !in e[1..] && '/' !in e
    ensures Ext(x + e) == e
    decreases |e|
  {
    var p := x + e;
    if |e| == 1 {
    } else {
      var c := e[|e| - 1];
      assert c in e[1..];
      var e' := e[..|e| - 1];
      assert e'[1..] == e[1..|e| - 1];
      assert forall ch :: ch in e' ==> ch in e;
      assert p[..|p| - 1] == x + e';
      ExtOfSuffix(x, e');
      assert e' + [c] == e;
    }
  }
}
