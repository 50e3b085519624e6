/** String operations of the two runtimes the model covers: String.prototype.trim, split,
    join and includes in the storefront script; str.strip, split, replace, startswith and
    str() in the converter. */
module Strings {

  /** WhiteSpace and LineTerminator code points of ECMAScript, removed by String.prototype.trim. */
  predicate IsJsSpace(c: char) {
    c == '\t' || c == '\n' || c == '\U{B}' || c == '\U{C}' || c == '\r' || c == ' ' || c == '\U{A0}'
    || c == '\U{1680}' || ('\U{2000}' <= c <= '\U{200A}') || c == '\U{2028}' || c == '\U{2029}'
    || c == '\U{202F}' || c == '\U{205F}' || c == '\U{3000}' || c == '\U{FEFF}'
  }

  /** The code points for which Python's str.isspace holds, removed by str.strip(). */
  predicate IsPySpace(c: char) {
    ('\t' <= c <= '\r') || ('\U{1C}' <= c <= '\U{1F}') || c == ' ' || c == '\U{85}' || c == '\U{A0}'
    || c == '\U{1680}' || ('\U{2000}' <= c <= '\U{200A}') || c == '\U{2028}' || c == '\U{2029}'
    || c == '\U{202F}' || c == '\U{205F}' || c == '\U{3000}'
  }

  predicate IsDigit(c: char) {
    '0' <= c <= '9'
  }

  function TrimStart(s: string, space: char -> bool): (r: string)
    ensures |r| <= |s| && r == s[|s| - |r|..]
    ensures forall i :: 0 <= i < |s| - |r| ==> space(s[i])
    ensures r != [] ==> !space(r[0])
  {
    if |s| > 0 && space(s[0]) then
      var r := TrimStart(s[1..], space);
      assert s[1..][|s| - 1 - |r|..] == s[|s| - |r|..];
      assert forall i :: 1 <= i < |s| ==> s[i] == s[1..][i - 1];
      r
    else s
  }

  function TrimEnd(s: string, space: char -> bool): (r: string)
    ensures r <= s
    ensures forall i :: |r| <= i < |s| ==> space(s[i])
    ensures r != [] ==> !space(r[|r| - 1])
  {
    if |s| > 0 && space(s[|s| - 1]) then
      var r := TrimEnd(s[..|s| - 1], space);
      assert forall i :: 0 <= i < |s| - 1 ==> s[i] == s[..|s| - 1][i];
      r
    else s
  }

  /** Removes the leading and trailing characters that satisfy `space`. */
  function Trim(s: string, space: char -> bool): (r: string)
    ensures r == [] <==> forall i :: 0 <= i < |s| ==> space(s[i])
    ensures r != [] ==> !space(r[0]) && !space(r[|r| - 1])
  {
    var t := TrimStart(s, space);
    TrimEmpty(s, space);
    TrimEndFirst(t, space);
    TrimEnd(t, space)
  }

  /** Trimming the end of a string that does not start with a space keeps its first character. */
  lemma TrimEndFirst(t: string, space: char -> bool)
    requires t != [] ==> !space(t[0])
    ensures TrimEnd(t, space) != [] ==> !space(TrimEnd(t, space)[0])
  {
    var r := TrimEnd(t, space);
    if r != [] {
      assert r[0] == t[0];
    }
  }

  /** Trimming leaves nothing exactly when every character is a space. */
  lemma TrimEmpty(s: string, space: char -> bool)
    ensures var r := TrimEnd(TrimStart(s, space), space);
      r == [] <==> forall i :: 0 <= i < |s| ==> space(s[i])
  {
    var t := TrimStart(s, space);
    var r := TrimEnd(t, space);
    var a := |s| - |t|;
    if r == [] {
      forall i | 0 <= i < |s| ensures space(s[i]) {
        if i >= a {
          assert s[i] == t[i - a];
        }
      }
    } else {
      assert !space(t[0]) && s[a] == t[0];
    }
  }

  /** What trimming keeps is a contiguous part of the input, so it has no character the input lacks. */
  lemma TrimChars(s: string, space: char -> bool)
    ensures forall c :: c in Trim(s, space) ==> c in s
  {
    var t := TrimStart(s, space);
    var r := TrimEnd(t, space);
    var a := |s| - |t|;
    assert r == t[..|r|];
    assert r == s[a..a + |r|];
  }

  /** String.prototype.trim. */
  function JsTrim(s: string): string {
    Trim(s, IsJsSpace)
  }

  /** Python's str.strip() with no argument. */
  function PyStrip(s: string): string {
    Trim(s, IsPySpace)
  }

  /** What trimming keeps starts and ends with a character that is not a space. */
  lemma TrimEnds(s: string, space: char -> bool)
    ensures var r := Trim(s, space); r != [] ==> !space(r[0]) && !space(r[|r| - 1])
  {
  }

  /** Joining adds no character but the separator. */
  lemma {:induction false} JoinLacks(parts: seq<string>, c: char, x: char)
    requires x != c && forall i :: 0 <= i < |parts| ==> x !in parts[i]
    ensures x !in Join(parts, c)
  {
    if |parts| >= 2 {
      JoinLacks(parts[1..], c, x);
      assert x !in parts[0];
    }
  }

  lemma TrimIdempotent(s: string, space: char -> bool)
    ensures Trim(Trim(s, space), space) == Trim(s, space)
  {
    var r := Trim(s, space);
    assert TrimStart(r, space) == r;
  }

  /** `s.rstrip(c)` for a single character `c`. */
  function RStripChar(s: string, c: char): (r: string)
    ensures r <= s
    ensures forall i :: |r| <= i < |s| ==> s[i] == c
    ensures r != [] ==> r[|r| - 1] != c
  {
    if |s| > 0 && s[|s| - 1] == c then RStripChar(s[..|s| - 1], c) else s
  }

  /** `t` occurs in `s` starting at index `i`. */
  predicate OccursAt(s: string, t: string, i: nat)
    requires i <= |s|
  {
    t <= s[i..]
  }

  /** JavaScript's `s.includes(t)` and Python's `t in s`. */
  predicate Contains(s: string, t: string) {
    exists i :: 0 <= i <= |s| && OccursAt(s, t, i)
  }

  /** `s.startsWith(t)`, `s.startswith(t)`. */
  predicate StartsWith(s: string, t: string) {
    t <= s
  }

  /** The number of occurrences of `c` in `s`. */
  function Count(s: string, c: char): nat {
    if s == [] then 0 else (if s[0] == c then 1 else 0) + Count(s[1..], c)
  }

  /** `s.split(c)` for a one-character separator, identical in JavaScript and Python:
      the pieces between separators, an empty piece where two separators meet or at an end. */
  function Split(s: string, c: char): (r: seq<string>)
    ensures |r| >= 1
    ensures forall k :: 0 <= k < |r| ==> c !in r[k]
  {
    if |s| == 0 then [""]
    else
      var rest := Split(s[1..], c);
      if s[0] == c then [""] + rest
      else [[s[0]] + rest[0]] + rest[1..]
  }

  /** `parts.join(c)` in JavaScript, `c.join(parts)` in Python. */
  function Join(parts: seq<string>, c: char): string {
    if |parts| == 0 then ""
    else if |parts| == 1 then parts[0]
    else parts[0] + [c] + Join(parts[1..], c)
  }

  /** Splitting and joining again gives back the original string. */
  lemma {:induction false} JoinSplit(s: string, c: char)
    ensures Join(Split(s, c), c) == s
  {
    if |s| > 0 {
      var rest := Split(s[1..], c);
      JoinSplit(s[1..], c);
      if s[0] != c {
        var r := Split(s, c);
        assert r == [[s[0]] + rest[0]] + rest[1..];
        if |rest| == 1 {
          assert Join(r, c) == [s[0]] + rest[0];
        } else {
          assert r[1..] == rest[1..];
          assert Join(rest, c) == rest[0] + [c] + Join(rest[1..], c);
        }
      } else {
        assert Split(s, c)[1..] == rest;
      }
      assert s == [s[0]] + s[1..];
    }
  }

  /** The piece count is one more than the separator count. */
  lemma {:induction false} SplitCount(s: string, c: char)
    ensures |Split(s, c)| == Count(s, c) + 1
  {
    if |s| > 0 {
      SplitCount(s[1..], c);
    }
  }

  /** Splitting at a separator splits the pieces. */
  lemma {:induction false} SplitAt(a: string, b: string, c: char)
    ensures Split(a + [c] + b, c) == Split(a, c) + Split(b, c)
  {
    if |a| == 0 {
      assert a + [c] + b == [c] + b;
      SplitCons(c, b, c);
    } else {
      var tail := a[1..];
      SplitAt(tail, b, c);
      assert a + [c] + b == [a[0]] + (tail + [c] + b);
      assert a == [a[0]] + tail;
      SplitConsAppend(a[0], tail, Split(b, c), tail + [c] + b, c);
    }
  }

  /** Prepending a character to a string whose pieces are those of `s` followed by `more`. */
  lemma SplitConsAppend(x: char, s: string, more: seq<string>, t: string, c: char)
    requires Split(t, c) == Split(s, c) + more
    ensures Split([x] + t, c) == Split([x] + s, c) + more
  {
    SplitCons(x, t, c);
    SplitCons(x, s, c);
    if x != c {
      ExtendFirstAppend([x], Split(s, c), more);
    }
  }

  /** Extending the first piece commutes with appending pieces. */
  lemma ExtendFirstAppend(x: string, pieces: seq<string>, more: seq<string>)
    requires |pieces| >= 1
    ensures [x + (pieces + more)[0]] + (pieces + more)[1..] == [x + pieces[0]] + pieces[1..] + more
  {
    assert (pieces + more)[0] == pieces[0];
    assert (pieces + more)[1..] == pieces[1..] + more;
  }

  /** Splitting a string that starts with `x`. */
  lemma SplitCons(x: char, s: string, c: char)
    ensures Split([x] + s, c) ==
      if x == c then [""] + Split(s, c) else [[x] + Split(s, c)[0]] + Split(s, c)[1..]
  {
    assert ([x] + s)[1..] == s;
  }

  /** A string without the separator is a single piece. */
  lemma {:induction false} SplitWithout(s: string, c: char)
    requires c !in s
    ensures Split(s, c) == [s]
  {
    if |s| > 0 {
      SplitWithout(s[1..], c);
      assert s == [s[0]] + s[1..];
    }
  }

  /** Joining pieces that do not contain the separator and splitting again gives back the pieces. */
  lemma {:induction false} SplitJoin(parts: seq<string>, c: char)
    requires |parts| >= 1
    requires forall k :: 0 <= k < |parts| ==> c !in parts[k]
    ensures Split(Join(parts, c), c) == parts
  {
    if |parts| == 1 {
      SplitWithout(parts[0], c);
    } else {
      SplitJoin(parts[1..], c);
      SplitAt(parts[0], Join(parts[1..], c), c);
      SplitWithout(parts[0], c);
      assert parts == [parts[0]] + parts[1..];
    }
  }

  /** Joining all but the last piece and then the last one. */
  lemma {:induction false} JoinLast(parts: seq<string>, c: char)
    requires |parts| >= 2
    ensures Join(parts, c) == Join(parts[..|parts| - 1], c) + [c] + parts[|parts| - 1]
  {
    if |parts| > 2 {
      JoinLast(parts[1..], c);
      assert parts[1..][..|parts| - 2] == parts[..|parts| - 1][1..];
    }
  }

  /** The index of the last occurrence of `c` in `s`, or -1 (`s.lastIndexOf(c)`, `s.rfind(c)`). */
  function LastIndex(s: string, c: char): (r: int)
    ensures -1 <= r < |s|
    ensures r >= 0 ==> s[r] == c
    ensures forall i :: r < i < |s| ==> s[i] != c
  {
    if s == [] then -1
    else if s[|s| - 1] == c then |s| - 1
    else LastIndex(s[..|s| - 1], c)
  }

  /** The index of the first occurrence of `c` in `s`, or |s| when there is none. */
  function FirstIndex(s: string, c: char): (r: nat)
    ensures r <= |s|
    ensures r < |s| ==> s[r] == c
    ensures forall i :: 0 <= i < r ==> s[i] != c
  {
    if s == [] || s[0] == c then 0 else 1 + FirstIndex(s[1..], c)
  }

  lemma {:induction false} CountZero(s: string, c: char)
    requires c !in s
    ensures Count(s, c) == 0
  {
    if s != [] {
      CountZero(s[1..], c);
    }
  }

  /** A separator at `i` and none elsewhere leave exactly two pieces, on either side of it. */
  lemma SplitOnce(s: string, c: char, i: nat)
    requires i < |s| && s[i] == c
    requires c !in s[..i] && c !in s[i + 1..]
    ensures Split(s, c) == [s[..i], s[i + 1..]]
  {
    assert s == s[..i] + [c] + s[i + 1..];
    SplitAt(s[..i], s[i + 1..], c);
    SplitWithout(s[..i], c);
    SplitWithout(s[i + 1..], c);
  }

  lemma {:induction false} CountSplitsAround(s: string, c: char, i: nat)
    requires i <= |s|
    ensures Count(s, c) == Count(s[..i], c) + Count(s[i..], c)
  {
    if i > 0 {
      CountSplitsAround(s[1..], c, i - 1);
      assert s[1..][..i - 1] == s[..i][1..];
      assert s[1..][i - 1..] == s[i..];
    }
  }

  lemma {:induction false} CountPositive(s: string, c: char)
    requires c in s
    ensures Count(s, c) >= 1
  {
    if s[0] != c {
      CountPositive(s[1..], c);
    }
  }

  /** A string with the separator exactly once splits into the parts before and after it. */
  lemma SplitSingle(s: string, c: char)
    requires Count(s, c) == 1
    ensures FirstIndex(s, c) < |s|
    ensures Split(s, c) == [s[..FirstIndex(s, c)], s[FirstIndex(s, c) + 1..]]
  {
    var i := FirstIndex(s, c);
    if i == |s| {
      CountZero(s, c);
    }
    assert c !in s[..i];
    CountSplitsAround(s, c, i + 1);
    CountPositive(s[..i + 1], c);
    if c in s[i + 1..] {
      CountPositive(s[i + 1..], c);
    }
    SplitOnce(s, c, i);
  }

  function DigitChar(d: nat): (c: char)
    requires d < 10
    ensures IsDigit(c)
  {
    ('0' as int + d) as char
  }

  function DigitValue(c: char): nat
    requires IsDigit(c)
  {
    c as int - '0' as int
  }

  predicate AllDigits(s: string) {
    forall i :: 0 <= i < |s| ==> IsDigit(s[i])
  }

  /** The decimal numeral of a natural number, without leading zeros. */
  function NatToString(n: nat): (r: string)
    ensures |r| >= 1 && AllDigits(r)
    ensures n > 0 ==> r[0] != '0'
  {
    if n < 10 then [DigitChar(n)] else NatToString(n / 10) + [DigitChar(n % 10)]
  }

  /** The value of a string of decimal digits. */
  function DigitsValue(s: string): nat
    requires AllDigits(s)
  {
    if s == [] then 0 else DigitsValue(s[..|s| - 1]) * 10 + DigitValue(s[|s| - 1])
  }

  /** Reading a numeral back gives the number. */
  lemma {:induction false} DigitsValueOfNatToString(n: nat)
    ensures DigitsValue(NatToString(n)) == n
  {
    if n >= 10 {
      DigitsValueOfNatToString(n / 10);
      var s := NatToString(n);
      assert s[..|s| - 1] == NatToString(n / 10);
    }
  }

  /** A leading zero does not change the value of a numeral. */
  lemma {:induction false} LeadingZeroValue(t: string)
    requires AllDigits(t)
    ensures AllDigits("0" + t) && DigitsValue("0" + t) == DigitsValue(t)
  {
    var z := "0" + t;
    assert forall i :: 0 < i < |z| ==> z[i] == t[i - 1];
    if t != [] {
      var init := t[..|t| - 1];
      LeadingZeroValue(init);
      assert z[..|z| - 1] == "0" + init;
    } else {
      assert z[..0] == "";
    }
  }

  /** JavaScript's String(n) and Python's str(n) for an integer. */
  function IntToString(n: int): (r: string)
    ensures |r| >= 1
    ensures forall i :: 0 <= i < |r| ==> IsDigit(r[i]) || r[i] == '-'
  {
    if n < 0 then "-" + NatToString(-n) else NatToString(n)
  }

  /** Python's str.replace: every non-overlapping occurrence of `pat`, from the left, becomes `rep`. */
  function ReplaceAll(s: string, pat: string, rep: string): (r: string)
    requires |pat| > 0
    ensures forall c :: c in r ==> c in s || c in rep
    ensures |pat| == 1 && pat[0] !in rep ==> pat[0] !in r
    ensures !Contains(s, pat) ==> r == s
  {
    if |s| < |pat| then
      assert !Contains(s, pat) ==> s == s;
      s
    else if pat <= s then
      var rest := ReplaceAll(s[|pat|..], pat, rep);
      assert OccursAt(s, pat, 0);
      rep + rest
    else
      var rest := ReplaceAll(s[1..], pat, rep);
      assert forall i :: 0 <= i <= |s[1..]| && OccursAt(s[1..], pat, i) ==> OccursAt(s, pat, i + 1);
      [s[0]] + rest
  }

  /** Python's `s.replace(a, b)` for single characters replaces each `a` by `b`, position by position. */
  lemma {:induction false} ReplaceChar(s: string, a: char, b: char)
    ensures |ReplaceAll(s, [a], [b])| == |s|
    ensures forall i :: 0 <= i < |s| ==> ReplaceAll(s, [a], [b])[i] == if s[i] == a then b else s[i]
  {
    if |s| > 0 {
      ReplaceChar(s[1..], a, b);
      if [a] <= s {
        assert s[|[a]|..] == s[1..];
      }
    }
  }

  /** Python's str.isdigit, restricted to the ASCII digits. */
  predicate IsDigits(s: string) {
    |s| > 0 && AllDigits(s)
  }

  /** Code-point lexicographic order, as Python compares strings. */
  predicate LexLess(a: string, b: string) {
    if a == [] then b != []
    else b != [] && (a[0] < b[0] || (a[0] == b[0] && LexLess(a[1..], b[1..])))
  }

  lemma {:induction false} LexLessIrreflexive(a: string)
    ensures !LexLess(a, a)
  {
    if a != [] {
      LexLessIrreflexive(a[1..]);
    }
  }

  lemma {:induction false} LexLessTransitive(a: string, b: string, c: string)
    requires LexLess(a, b) && LexLess(b, c)
    ensures LexLess(a, c)
  {
    if a != [] && b != [] && c != [] && a[0] == b[0] && b[0] == c[0] {
      LexLessTransitive(a[1..], b[1..], c[1..]);
    }
  }

  lemma {:induction false} LexLessTotal(a: string, b: string)
    requires a != b
    ensures LexLess(a, b) || LexLess(b, a)
  {
    if a != [] && b != [] && a[0] == b[0] {
      assert a == [a[0]] + a[1..] && b == [b[0]] + b[1..];
      LexLessTotal(a[1..], b[1..]);
    }
  }
}
