/** The parts of Python's `str.split()` and `int()` that the input check
    relies on, restricted to ASCII text. */
module PyText {
  import opened Wrappers

  predicate IsAscii(s: string) {
    forall i :: 0 <= i < |s| ==> s[i] as int < 128
  }

  /** `str.isspace()` on an ASCII character: space, \t \n \v \f \r and the
      four separators 0x1C..0x1F. */
  predicate IsSpace(c: char) {
    c == ' ' || 9 <= c as int <= 13 || 28 <= c as int <= 31
  }

  predicate NoSpace(s: string) {
    forall i :: 0 <= i < |s| ==> !IsSpace(s[i])
  }

  predicate AllSpace(s: string) {
    forall i :: 0 <= i < |s| ==> IsSpace(s[i])
  }

  /** The characters of `s` that are not whitespace, in order. */
  function RemoveSpaces(s: string): string {
    if s == [] then [] else (if IsSpace(s[0]) then [] else [s[0]]) + RemoveSpaces(s[1..])
  }

  function Concat(words: seq<string>): string {
    if words == [] then [] else words[0] + Concat(words[1..])
  }

  lemma {:induction false} RemoveSpacesAppend(a: string, b: string)
    ensures RemoveSpaces(a + b) == RemoveSpaces(a) + RemoveSpaces(b)
  {
    if a == [] {
      assert a + b == b;
    } else {
      assert (a + b)[1..] == a[1..] + b;
      RemoveSpacesAppend(a[1..], b);
    }
  }

  lemma {:induction false} RemoveSpacesOfWord(w: string)
    requires NoSpace(w)
    ensures RemoveSpaces(w) == w
  {
    if w != [] {
      RemoveSpacesOfWord(w[1..]);
    }
  }

  /** Length of the run of non-whitespace characters that starts `s`. */
  function WordLength(s: string): (n: nat)
    ensures n <= |s|
    ensures NoSpace(s[..n])
    ensures n < |s| ==> IsSpace(s[n])
  {
    if s == [] || IsSpace(s[0]) then 0 else 1 + WordLength(s[1..])
  }

  /** `s.split()`: the maximal runs of non-whitespace characters of `s`,
      in order; leading, trailing and repeated whitespace yield no word. */
  function Split(s: string): (words: seq<string>)
    ensures forall w :: w in words ==> w != [] && NoSpace(w)
    ensures Concat(words) == RemoveSpaces(s)
    decreases |s|
  {
    if s == [] then []
    else if IsSpace(s[0]) then Split(s[1..])
    else
      var n := WordLength(s);
      var rest := Split(s[n..]);
      assert s == s[..n] + s[n..];
      RemoveSpacesAppend(s[..n], s[n..]);
      RemoveSpacesOfWord(s[..n]);
      assert ([s[..n]] + rest)[1..] == rest;
      [s[..n]] + rest
  }

  lemma {:induction false} SplitAfterSpaces(sp: string, s: string)
    requires AllSpace(sp)
    ensures Split(sp + s) == Split(s)
  {
    if sp == [] {
      assert sp + s == s;
    } else {
      assert (sp + s)[1..] == sp[1..] + s;
      SplitAfterSpaces(sp[1..], s);
    }
  }

  lemma {:induction false} WordLengthOfWord(w: string, rest: string)
    requires NoSpace(w)
    requires rest == [] || IsSpace(rest[0])
    ensures WordLength(w + rest) == |w|
  {
    if w != [] {
      assert (w + rest)[1..] == w[1..] + rest;
      WordLengthOfWord(w[1..], rest);
    }
  }

  /** A word followed by whitespace (or by nothing) is split off whole. */
  lemma SplitWord(w: string, rest: string)
    requires w != [] && NoSpace(w)
    requires rest == [] || IsSpace(rest[0])
    ensures Split(w + rest) == [w] + Split(rest)
  {
    WordLengthOfWord(w, rest);
    assert (w + rest)[..|w|] == w;
    assert (w + rest)[|w|..] == rest;
  }

  lemma Regroup(lead: string, a: string, sep: string, b: string, trail: string)
    ensures lead + a + sep + b + trail == lead + (a + (sep + (b + trail)))
  {
  }

  /** Splitting two words separated and surrounded by whitespace gives
      back exactly those two words. */
  lemma SplitTwoWords(lead: string, a: string, sep: string, b: string, trail: string)
    requires AllSpace(lead) && AllSpace(sep) && AllSpace(trail) && sep != []
    requires a != [] && NoSpace(a) && b != [] && NoSpace(b)
    ensures Split(lead + a + sep + b + trail) == [a, b]
  {
    var t3 := b + trail;
    var t2 := sep + t3;
    var t1 := a + t2;
    Regroup(lead, a, sep, b, trail);
    SplitAfterSpaces(lead, t1);
    SplitWord(a, t2);
    SplitAfterSpaces(sep, t3);
    SplitWord(b, trail);
    SplitAfterSpaces(trail, []);
    assert trail + [] == trail;
  }

  lemma SplitTwoBareWords(a: string, sep: string, b: string)
    requires AllSpace(sep) && sep != []
    requires a != [] && NoSpace(a) && b != [] && NoSpace(b)
    ensures Split(a + sep + b) == [a, b]
  {
    SplitTwoWords([], a, sep, b, []);
    assert [] + a + sep + b + [] == a + sep + b;
  }

  // ---------------------------------------------------------------------
  // int() on a token

  predicate IsDigit(c: char) {
    '0' <= c <= '9'
  }

  function DigitValue(c: char): nat
    requires IsDigit(c)
  {
    c as int - '0' as int
  }

  /** A decimal literal as `int()` accepts it: digits, with single
      underscores allowed between two digits ("1_000"). */
  predicate IsDigitString(t: string) {
    |t| > 0 &&
    forall i :: 0 <= i < |t| ==>
      IsDigit(t[i]) || (t[i] == '_' && 0 < i && i + 1 < |t| && IsDigit(t[i + 1]))
  }

  /** The value of the digits of `t`, underscores skipped. */
  function DigitsValue(t: string): nat {
    if t == [] then 0
    else if IsDigit(t[|t| - 1]) then 10 * DigitsValue(t[..|t| - 1]) + DigitValue(t[|t| - 1])
    else DigitsValue(t[..|t| - 1])
  }

  /** `int(t)` for a token without whitespace: an optional sign followed
      by a decimal literal; anything else raises ValueError (None here). */
  function ParseInt(t: string): Option<int> {
    if |t| > 0 && (t[0] == '+' || t[0] == '-') then
      if IsDigitString(t[1..]) then
        var v: int := DigitsValue(t[1..]);
        Some(if t[0] == '-' then -v else v)
      else None
    else if IsDigitString(t) then Some(DigitsValue(t))
    else None
  }

  function DigitChar(d: nat): char
    requires d < 10
  {
    ('0' as int + d) as char
  }

  /** The decimal rendering of a natural number, as `str(n)`. */
  function NatToString(n: nat): (s: string)
    ensures |s| > 0
  {
    if n < 10 then [DigitChar(n)] else NatToString(n / 10) + [DigitChar(n % 10)]
  }

  lemma {:induction false} NatToStringDigits(n: nat)
    ensures forall i :: 0 <= i < |NatToString(n)| ==> IsDigit(NatToString(n)[i])
    ensures DigitsValue(NatToString(n)) == n
  {
    if n >= 10 {
      NatToStringDigits(n / 10);
      var s := NatToString(n);
      assert s[..|s| - 1] == NatToString(n / 10);
    }
  }

  /** `int(str(n)) == n`. */
  lemma ParseNatToString(n: nat)
    ensures ParseInt(NatToString(n)) == Some(n)
  {
    NatToStringDigits(n);
  }
}
