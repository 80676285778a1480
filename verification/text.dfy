/**
  String helpers with the semantics of the Python built-ins the pipeline calls:
  `str.strip`, `str.split`, `str.join`, `str.splitlines`, `str.startswith`,
  `str.lower` and `str(n)` for a natural number.
*/
module Text {

  /** Python's `str.isspace()` for one character: what `strip()` removes and `\s` matches. */
  predicate IsSpace(c: char) {
    || c == ' '
    || ('\t' <= c <= '\r')
    || ('\U{1C}' <= c <= '\U{1F}')
    || c == '\U{85}' || c == '\U{A0}' || c == '\U{1680}'
    || ('\U{2000}' <= c <= '\U{200A}')
    || c == '\U{2028}' || c == '\U{2029}' || c == '\U{202F}' || c == '\U{205F}' || c == '\U{3000}'
  }

  /** A string with no whitespace at either end. */
  predicate IsStripped(s: string) {
    s == [] || (!IsSpace(s[0]) && !IsSpace(s[|s| - 1]))
  }

  /** Every character of `s` in `[lo, hi)` is whitespace. */
  predicate SpaceBetween(s: string, lo: int, hi: int) {
    forall i :: 0 <= lo <= i < hi <= |s| ==> IsSpace(s[i])
  }

  predicate AllSpace(s: string) {
    SpaceBetween(s, 0, |s|)
  }

  /** The first index at or after `i` that is not whitespace, or `|s|`. */
  function Lead(s: string, i: nat): (k: nat)
    requires i <= |s|
    ensures i <= k <= |s| && SpaceBetween(s, i, k)
    ensures k < |s| ==> !IsSpace(s[k])
    decreases |s| - i
  {
    if i < |s| && IsSpace(s[i]) then Lead(s, i + 1) else i
  }

  /** The end of `s[lo..j]` once its trailing whitespace is dropped. */
  function Trail(s: string, lo: nat, j: nat): (k: nat)
    requires lo <= j <= |s|
    ensures lo <= k <= j && SpaceBetween(s, k, j)
    ensures k > lo ==> !IsSpace(s[k - 1])
    decreases j - lo
  {
    if j > lo && IsSpace(s[j - 1]) then Trail(s, lo, j - 1) else j
  }

  /** Python's `str.strip()`: whitespace dropped at both ends. */
  function Strip(s: string): (r: string)
    ensures IsStripped(r)
  {
    StripFrom(s, 0)
  }

  /** The strip of `s[i..]`, as a slice of `s`. */
  function StripFrom(s: string, i: nat): (r: string)
    requires i <= |s|
    ensures IsStripped(r)
    decreases |s| - i
  {
    if i < |s| && IsSpace(s[i]) then StripFrom(s, i + 1) else s[i..Trail(s, i, |s|)]
  }

  /** The strip is the slice of `s` between its leading and its trailing whitespace. */
  lemma StripSlice(s: string)
    ensures var k := Lead(s, 0); var r := Strip(s);
      && k + |r| <= |s| && r == s[k..k + |r|]
      && SpaceBetween(s, 0, k) && SpaceBetween(s, k + |r|, |s|)
  {
    StripFromSlice(s, 0);
  }

  lemma {:induction false} StripFromSlice(s: string, i: nat)
    requires i <= |s|
    ensures StripFrom(s, i) == s[Lead(s, i)..Trail(s, Lead(s, i), |s|)]
    decreases |s| - i
  {
    if i < |s| && IsSpace(s[i]) {
      StripFromSlice(s, i + 1);
    }
  }

  /** Stripping is idempotent: a stripped string is its own strip. */
  lemma StripStripped(s: string)
    requires IsStripped(s)
    ensures Strip(s) == s
  {
    if s != [] {
      assert Lead(s, 0) == 0;
      assert Trail(s, 0, |s|) == |s|;
    }
  }

  /** A non-blank string has a non-empty strip and vice versa. */
  lemma StripEmptyIffBlank(s: string)
    ensures Strip(s) == [] <==> AllSpace(s)
  {
    var k := Lead(s, 0);
    StripSlice(s);
    if Strip(s) != [] {
      assert !IsSpace(s[k]);
    }
  }

  /** `sep` occurs in `s` starting at index `k`. */
  predicate OccursAt(s: string, sep: string, k: nat) {
    k + |sep| <= |s| && s[k..k + |sep|] == sep
  }

  /** Python's `sub in s`, JavaScript's `s.includes(sub)`. */
  predicate Contains(s: string, sub: string) {
    exists k: nat :: k <= |s| && OccursAt(s, sub, k)
  }

  lemma ContainsChar(s: string, c: char)
    ensures Contains(s, [c]) <==> c in s
  {
    if c in s {
      var k :| 0 <= k < |s| && s[k] == c;
      assert OccursAt(s, [c], k);
    }
    if Contains(s, [c]) {
      var k: nat :| k <= |s| && OccursAt(s, [c], k);
      assert s[k] == s[k..k + 1][0];
    }
  }

  /** The first index at or after `from` where `sep` occurs, or `|s|` when there is none. */
  function Find(s: string, sep: string, from: nat): (k: nat)
    requires |sep| > 0 && from <= |s|
    ensures from <= k <= |s|
    ensures k < |s| ==> OccursAt(s, sep, k)
    ensures forall j: nat :: from <= j < k ==> !OccursAt(s, sep, j)
    ensures k == |s| ==> forall j: nat :: from <= j <= |s| ==> !OccursAt(s, sep, j)
    decreases |s| - from
  {
    if from + |sep| > |s| then |s|
    else if s[from..from + |sep|] == sep then from
    else Find(s, sep, from + 1)
  }

  /** Python's `s.split(sep)` (and JavaScript's `s.split(sep)`) for a non-empty separator. */
  function Split(s: string, sep: string): (parts: seq<string>)
    requires |sep| > 0
    ensures |parts| >= 1
    ensures forall i :: 0 <= i < |parts| ==> !Contains(parts[i], sep)
    ensures Join(parts, sep) == s
    decreases |s|
  {
    var k := Find(s, sep, 0);
    if k == |s| then
      NoOccurrence(s, sep, s);
      [s]
    else
      var head := s[..k];
      NoOccurrence(s, sep, head);
      var rest := Split(s[k + |sep|..], sep);
      assert s == head + sep + s[k + |sep|..];
      [head] + rest
  }

  /** A prefix of `s` that ends before the first occurrence of `sep` does not contain `sep`. */
  lemma NoOccurrence(s: string, sep: string, p: string)
    requires |sep| > 0 && |p| <= |s| && p == s[..|p|]
    requires forall j: nat :: j + |sep| <= |p| ==> !OccursAt(s, sep, j)
    ensures !Contains(p, sep)
  {
    if Contains(p, sep) {
      var k: nat :| k <= |p| && OccursAt(p, sep, k);
      assert p[k..k + |sep|] == s[k..k + |sep|];
      assert OccursAt(s, sep, k);
    }
  }

  /** Python's `sep.join(parts)`. */
  function Join(parts: seq<string>, sep: string): string {
    if |parts| == 0 then []
    else if |parts| == 1 then parts[0]
    else parts[0] + sep + Join(parts[1..], sep)
  }

  /** Splitting on a separator whose first character no part contains undoes joining with it. */
  lemma {:induction false} SplitJoin(parts: seq<string>, sep: string)
    requires |parts| >= 1 && |sep| > 0
    requires forall i :: 0 <= i < |parts| ==> sep[0] !in parts[i]
    ensures Split(Join(parts, sep), sep) == parts
    decreases |parts|
  {
    var s := Join(parts, sep);
    var p := parts[0];
    if |parts| == 1 {
      forall j: nat | j <= |s| ensures !OccursAt(s, sep, j) {
        if j + |sep| <= |s| {
          assert s[j..j + |sep|][0] == s[j];
        }
      }
      assert Find(s, sep, 0) == |s|;
    } else {
      var rest := Join(parts[1..], sep);
      assert s == p + sep + rest;
      assert s[|p|..|p| + |sep|] == sep;
      assert OccursAt(s, sep, |p|);
      forall j: nat | j < |p| ensures !OccursAt(s, sep, j) {
        assert s[j..j + |sep|][0] == p[j];
      }
      assert Find(s, sep, 0) == |p|;
      assert s[..|p|] == p;
      assert s[|p| + |sep|..] == rest;
      SplitJoin(parts[1..], sep);
    }
  }

  /** Three comma-free parts joined with commas split back into themselves. */
  lemma SplitThree(a: string, b: string, c: string)
    requires ',' !in a && ',' !in b && ',' !in c
    ensures Split(a + "," + b + "," + c, ",") == [a, b, c]
  {
    var parts := [a, b, c];
    SplitJoin(parts, ",");
    assert parts[1..][1..] == [c];
    assert Join(parts[1..], ",") == b + "," + c;
    assert Join(parts, ",") == a + "," + (b + "," + c);
    assert a + "," + b + "," + c == a + "," + (b + "," + c);
  }

  /** Joining one more part. */
  lemma {:induction false} JoinSnoc(parts: seq<string>, x: string, sep: string)
    ensures Join(parts + [x], sep) == if parts == [] then x else Join(parts, sep) + sep + x
    decreases |parts|
  {
    if |parts| > 1 {
      assert (parts + [x])[1..] == parts[1..] + [x];
      JoinSnoc(parts[1..], x, sep);
    }
  }

  /** Joining non-empty parts gives the empty string only for no parts at all. */
  lemma JoinEmpty(parts: seq<string>, sep: string)
    requires forall i :: 0 <= i < |parts| ==> parts[i] != []
    ensures Join(parts, sep) == [] <==> parts == []
  {
    if |parts| > 1 {
      assert |Join(parts, sep)| >= |parts[0]|;
    }
  }

  /** Joining two non-empty lists of parts. */
  lemma {:induction false} JoinAppend(a: seq<string>, b: seq<string>, sep: string)
    requires a != [] && b != []
    ensures Join(a + b, sep) == Join(a, sep) + sep + Join(b, sep)
    decreases |a|
  {
    if |a| == 1 {
      assert (a + b)[1..] == b;
    } else {
      assert (a + b)[1..] == a[1..] + b;
      JoinAppend(a[1..], b, sep);
    }
  }

  /** The characters Python's `str.splitlines()` breaks at. */
  predicate IsLineBreak(c: char) {
    || c == '\n' || c == '\r' || c == '\U{0B}' || c == '\U{0C}'
    || ('\U{1C}' <= c <= '\U{1E}') || c == '\U{85}' || c == '\U{2028}' || c == '\U{2029}'
  }

  predicate NoLineBreak(s: string) {
    forall i :: 0 <= i < |s| ==> !IsLineBreak(s[i])
  }

  /** The pieces between line-break characters; a `\r\n` pair leaves an empty piece between them. */
  function Pieces(s: string): (ps: seq<string>)
    ensures |ps| >= 1
    ensures forall i :: 0 <= i < |ps| ==> NoLineBreak(ps[i])
    decreases |s|
  {
    if s == [] then [[]]
    else
      var rest := Pieces(s[1..]);
      if IsLineBreak(s[0]) then [[]] + rest
      else [[s[0]] + rest[0]] + rest[1..]
  }

  /**
    Python's `str.splitlines()`, up to empty lines: the empty text has no lines,
    and every line is free of line breaks.
  */
  function SplitLines(s: string): (lines: seq<string>)
    ensures lines == [] <==> s == []
    ensures forall i :: 0 <= i < |lines| ==> NoLineBreak(lines[i])
  {
    if s == [] then [] else Pieces(s)
  }

  /** Every character of a strip is a character of the original. */
  lemma StripChars(s: string)
    ensures forall i :: 0 <= i < |Strip(s)| ==> Strip(s)[i] in s
  {
    var r := Strip(s);
    var k := Lead(s, 0);
    StripSlice(s);
    forall i | 0 <= i < |r| ensures r[i] in s {
      assert r[i] == s[k + i];
    }
  }

  /** Stripping a line keeps it free of line breaks. */
  lemma StripKeepsNoBreak(s: string)
    requires NoLineBreak(s)
    ensures NoLineBreak(Strip(s))
  {
    var r := Strip(s);
    var k := Lead(s, 0);
    StripSlice(s);
    forall i | 0 <= i < |r| ensures !IsLineBreak(r[i]) {
      assert r[i] == s[k + i];
    }
  }

  lemma {:induction false} PiecesPrefix(p: string, s: string)
    requires NoLineBreak(p)
    ensures Pieces(p + s) == [p + Pieces(s)[0]] + Pieces(s)[1..]
    decreases |p|
  {
    if p != [] {
      var x, q := p[0], p[1..];
      assert (p + s)[0] == x && !IsLineBreak(x);
      assert (p + s)[1..] == q + s;
      assert NoLineBreak(q) by {
        forall i | 0 <= i < |q| ensures !IsLineBreak(q[i]) {
          assert q[i] == p[i + 1];
        }
      }
      PiecesPrefix(q, s);
      var rest := Pieces(q + s);
      assert rest[0] == q + Pieces(s)[0];
      assert rest[1..] == Pieces(s)[1..];
      assert Pieces(p + s) == [[x] + rest[0]] + rest[1..];
      assert [x] + (q + Pieces(s)[0]) == p + Pieces(s)[0];
    } else {
      assert p + s == s;
      var ps := Pieces(s);
      assert [] + ps[0] == ps[0];
      assert ps == [ps[0]] + ps[1..];
    }
  }

  /** Splitting the lines back out of their `\n`-join gives the same lines. */
  lemma SplitLinesJoin(lines: seq<string>)
    requires |lines| >= 1 && lines[0] != []
    requires forall i :: 0 <= i < |lines| ==> NoLineBreak(lines[i])
    ensures SplitLines(Join(lines, "\n")) == lines
  {
    PiecesJoinTail(lines);
  }

  lemma {:induction false} PiecesJoinTail(lines: seq<string>)
    requires |lines| >= 1
    requires forall i :: 0 <= i < |lines| ==> NoLineBreak(lines[i])
    ensures Pieces(Join(lines, "\n")) == lines
    decreases |lines|
  {
    if |lines| == 1 {
      PiecesPrefix(lines[0], []);
      assert lines[0] + [] == lines[0];
    } else {
      var rest := Join(lines[1..], "\n");
      assert Join(lines, "\n") == lines[0] + ("\n" + rest);
      PiecesPrefix(lines[0], "\n" + rest);
      assert ("\n" + rest)[0] == '\n';
      assert ("\n" + rest)[1..] == rest;
      assert Pieces("\n" + rest) == [[]] + Pieces(rest);
      PiecesJoinTail(lines[1..]);
      var t := [[]] + lines[1..];
      assert t[0] == [] && t[1..] == lines[1..];
      assert lines[0] + [] == lines[0];
      assert lines == [lines[0]] + lines[1..];
    }
  }

  /** Python's `s.startswith(p)`. */
  predicate StartsWith(s: string, p: string) {
    |p| <= |s| && s[..|p|] == p
  }

  /**
    The lower-case partner of a capital letter of Basic Latin, Latin-1 (except the
    multiplication sign) and basic Cyrillic; every other character is returned as it is.
  */
  function LowerChar(c: char): char {
    if 'A' <= c <= 'Z' || ('\U{C0}' <= c <= '\U{DE}' && c != '\U{D7}') || '\U{410}' <= c <= '\U{42F}' then (c as int + 32) as char
    else if '\U{400}' <= c <= '\U{40F}' then (c as int + 80) as char
    else c
  }

  /** Lower-casing a character twice is lower-casing it once. */
  lemma LowerCharIdempotent(c: char)
    ensures LowerChar(LowerChar(c)) == LowerChar(c)
  {
  }

  /**
    Python's `str.lower()` (JavaScript's `toLowerCase()`) for text whose capitals all
    lie in the ranges `LowerChar` covers.
  */
  function Lower(s: string): (r: string)
    ensures |r| == |s|
    ensures forall i :: 0 <= i < |s| ==> r[i] == LowerChar(s[i])
  {
    seq(|s|, i requires 0 <= i < |s| => LowerChar(s[i]))
  }

  /** Python's `s.replace(a, b)` for single characters. */
  function ReplaceChar(s: string, a: char, b: char): (r: string)
    ensures |r| == |s|
    ensures forall i :: 0 <= i < |s| ==> r[i] == (if s[i] == a then b else s[i])
  {
    seq(|s|, i requires 0 <= i < |s| => if s[i] == a then b else s[i])
  }

  function DigitChar(d: nat): char
    requires d < 10
  {
    ('0' as int + d) as char
  }

  predicate IsDigits(s: string) {
    forall i :: 0 <= i < |s| ==> '0' <= s[i] <= '9'
  }

  /** Python's `str(n)` for a natural number. */
  function NatToString(n: nat): (s: string)
    ensures |s| >= 1 && IsDigits(s)
    decreases n
  {
    if n < 10 then [DigitChar(n)] else NatToString(n / 10) + [DigitChar(n % 10)]
  }

  /** The value of a string of decimal digits. */
  function DigitsValue(s: string): nat
    requires IsDigits(s)
  {
    if s == [] then 0 else 10 * DigitsValue(s[..|s| - 1]) + (s[|s| - 1] as int - '0' as int)
  }

  /** `str(n)` is read back as `n`, so distinct numbers have distinct renderings. */
  lemma {:induction false} NatToStringValue(n: nat)
    ensures DigitsValue(NatToString(n)) == n
    decreases n
  {
    if n >= 10 {
      var s := NatToString(n);
      assert s[..|s| - 1] == NatToString(n / 10);
      NatToStringValue(n / 10);
    }
  }

  lemma NatToStringInjective(a: nat, b: nat)
    requires NatToString(a) == NatToString(b)
    ensures a == b
  {
    NatToStringValue(a);
    NatToStringValue(b);
  }
}
