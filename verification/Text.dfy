/** Splitting and joining on a separator, and Python's reading and writing of integers. */
module Text {
  import opened Collections

  /** Puts a character in front of what the rest of the text was split into. */
  function Prepend(c: char, parts: seq<string>, sep: char): (r: seq<string>)
    requires parts != []
    ensures r != []
  {
    if c == sep then [[]] + parts else [[c] + parts[0]] + parts[1..]
  }

  /** `text.split(sep)`: always at least one part. */
  function Split(text: string, sep: char): (parts: seq<string>)
    ensures parts != []
  {
    if text == [] then [[]] else Prepend(text[0], Split(text[1..], sep), sep)
  }

  /** `sep.join(parts)` */
  function Join(parts: seq<string>, sep: char): string {
    if parts == [] then []
    else if |parts| == 1 then parts[0]
    else parts[0] + [sep] + Join(parts[1..], sep)
  }

  lemma SplitCons(c: char, rest: string, sep: char)
    ensures Split([c] + rest, sep) == Prepend(c, Split(rest, sep), sep)
  {
    assert ([c] + rest)[1..] == rest;
  }

  lemma PrependConcat(c: char, parts: seq<string>, more: seq<string>, sep: char)
    requires parts != []
    ensures Prepend(c, parts + more, sep) == Prepend(c, parts, sep) + more
  {
    if c == sep {
      Regrouped([[]], parts, more);
    } else {
      assert (parts + more)[0] == parts[0] && (parts + more)[1..] == parts[1..] + more;
      Regrouped([[c] + parts[0]], parts[1..], more);
    }
  }

  lemma JoinCons(part: string, rest: seq<string>, sep: char)
    ensures Join([part] + rest, sep) == if rest == [] then part else part + [sep] + Join(rest, sep)
  {
    assert ([part] + rest)[1..] == rest;
  }

  lemma {:induction false} JoinSplit(text: string, sep: char)
    ensures Join(Split(text, sep), sep) == text
  {
    if text == [] {
    } else {
      var c, rest := text[0], Split(text[1..], sep);
      JoinSplit(text[1..], sep);
      assert text == [c] + text[1..];
      if c == sep {
        JoinCons([], rest, sep);
      } else {
        JoinCons([c] + rest[0], rest[1..], sep);
        JoinCons(rest[0], rest[1..], sep);
        assert rest == [rest[0]] + rest[1..];
        Regrouped([c], rest[0], [sep] + Join(rest[1..], sep));
        Regrouped([c] + rest[0], [sep], Join(rest[1..], sep));
        Regrouped(rest[0], [sep], Join(rest[1..], sep));
      }
    }
  }

  lemma {:induction false} SplitConcat(a: string, b: string, sep: char)
    ensures Split(a + [sep] + b, sep) == Split(a, sep) + Split(b, sep)
  {
    if a == [] {
      assert a + [sep] + b == [sep] + b;
      SplitCons(sep, b, sep);
    } else {
      var rest := a[1..];
      SplitConcat(rest, b, sep);
      assert a + [sep] + b == [a[0]] + (rest + [sep] + b);
      SplitCons(a[0], rest + [sep] + b, sep);
      PrependConcat(a[0], Split(rest, sep), Split(b, sep), sep);
    }
  }

  lemma {:induction false} SplitWithout(text: string, sep: char)
    requires sep !in text
    ensures Split(text, sep) == [text]
  {
    if text == [] {
    } else {
      SplitWithout(text[1..], sep);
      assert text == [text[0]] + text[1..];
      assert Split(text[1..], sep)[1..] == [];
    }
  }

  /** No part holds the separator. */
  lemma {:induction false} PartsWithout(text: string, sep: char)
    ensures forall part :: part in Split(text, sep) ==> sep !in part
  {
    if text == [] {
    } else {
      PartsWithout(text[1..], sep);
    }
  }

  /** Joining parts without the separator and splitting them again gives the parts. */
  lemma {:induction false} SplitJoin(parts: seq<string>, sep: char)
    requires parts != [] && forall part :: part in parts ==> sep !in part
    ensures Split(Join(parts, sep), sep) == parts
  {
    SplitWithout(parts[0], sep);
    if |parts| == 1 {
    } else {
      SplitJoin(parts[1..], sep);
      SplitConcat(parts[0], Join(parts[1..], sep), sep);
      assert [parts[0]] + parts[1..] == parts;
    }
  }

  lemma {:induction false} JoinConcat(p: seq<string>, q: seq<string>, sep: char)
    requires p != [] && q != []
    ensures Join(p + q, sep) == Join(p, sep) + [sep] + Join(q, sep)
  {
    if |p| > 1 {
      assert (p + q)[1..] == p[1..] + q;
      JoinConcat(p[1..], q, sep);
    } else {
      assert (p + q)[1..] == q;
    }
  }

  // ----- Integers ----------------------------------------------------------------------

  predicate IsDigit(c: char) {
    '0' <= c <= '9'
  }

  function NatToString(n: nat): (s: string)
    ensures s != [] && forall c :: c in s ==> IsDigit(c)
  {
    var digit := ['0' + (n % 10) as char];
    if n < 10 then digit else NatToString(n / 10) + digit
  }

  /** `str(n)` */
  function IntToString(n: int): string {
    if n < 0 then "-" + NatToString(-n) else NatToString(n)
  }

  function Pow10(i: nat): (p: nat)
    ensures p > 0
  {
    if i == 0 then 1 else 10 * Pow10(i - 1)
  }

  lemma DividedTwice(n: nat, p: nat)
    requires p > 0
    ensures n / (10 * p) == n / 10 / p
  {
    var q, r := n / 10 / p, n / 10 % p;
    assert n == 10 * (q * p + r) + n % 10;
    assert 10 * (q * p + r) + n % 10 == q * (10 * p) + (10 * r + n % 10);
    assert 10 * r + n % 10 < 10 * p;
    QuotientIs(n, 10 * p, q, 10 * r + n % 10);
  }

  lemma QuotientIs(n: nat, d: nat, q: nat, r: nat)
    requires d > 0 && r < d && n == q * d + r
    ensures n / d == q
  {
    var k := n / d - q;
    MultipleIsFar(k, d);
    assert k * d == (n / d) * d - q * d;
  }

  lemma MultipleIsFar(k: int, d: nat)
    ensures k >= 1 ==> k * d >= d
    ensures k <= -1 ==> k * d <= 0 - d
  {}

  /** The digit at each place, counted from the right. */
  lemma {:induction false} DigitAt(n: nat, i: nat)
    requires i < |NatToString(n)|
    ensures var s := NatToString(n);
            s[|s| - 1 - i] == '0' + ((n / Pow10(i)) % 10) as char
  {
    if i == 0 {
    } else {
      DigitAt(n / 10, i - 1);
      DividedTwice(n, Pow10(i - 1));
    }
  }

  /** As many digits as it takes. */
  lemma {:induction false} NumberOfDigits(n: nat)
    ensures n < Pow10(|NatToString(n)|)
    ensures n > 0 ==> Pow10(|NatToString(n)| - 1) <= n
  {
    if n < 10 {
      assert Pow10(1) == 10 * Pow10(0);
    } else {
      NumberOfDigits(n / 10);
      assert |NatToString(n)| == |NatToString(n / 10)| + 1;
      assert Pow10(|NatToString(n)|) == 10 * Pow10(|NatToString(n / 10)|);
    }
  }

  /** A sign where there is one, and the digits. */
  lemma IntegerText(n: int)
    ensures n >= 0 ==> IntToString(n) == NatToString(n)
    ensures n < 0 ==> IntToString(n)[0] == '-' && IntToString(n)[1..] == NatToString(-n)
  {}

  predicate IsSpace(c: char) {
    c == ' ' || '\t' <= c <= '\r' || '\U{1C}' <= c <= '\U{1F}'
  }

  function StripLeft(s: string): string {
    if s != [] && IsSpace(s[0]) then StripLeft(s[1..]) else s
  }

  function Strip(s: string): string {
    var t := StripLeft(s);
    StripRight(t)
  }

  function StripRight(s: string): string {
    if s != [] && IsSpace(s[|s| - 1]) then StripRight(s[..|s| - 1]) else s
  }

  /** Decimal digits, single underscores between them allowed. */
  predicate IsDigits(s: string) {
    && s != [] && IsDigit(s[0]) && IsDigit(s[|s| - 1])
    && forall i :: 0 < i < |s| ==> IsDigit(s[i]) || (s[i] == '_' && IsDigit(s[i - 1]))
  }

  function DigitsValue(s: string): nat {
    if s == [] then 0
    else
      var front, c := s[..|s| - 1], s[|s| - 1];
      if IsDigit(c) then 10 * DigitsValue(front) + (c - '0') as int else DigitsValue(front)
  }

  /** `int(text)`, None where it raises ValueError. */
  function ParseInt(text: string): Option<int> {
    var s := Strip(text);
    if s == [] then None
    else if s[0] == '-' then
      var v: int := DigitsValue(s[1..]);
      if IsDigits(s[1..]) then Some(-v) else None
    else
      var t := if s[0] == '+' then s[1..] else s;
      var v: int := DigitsValue(t);
      if IsDigits(t) then Some(v) else None
  }

  ghost predicate IsBlank(text: string) {
    forall c :: c in text ==> IsSpace(c)
  }

  function Signed(sign: string, digits: string): int {
    if sign == "-" then -(DigitsValue(digits) as int) else DigitsValue(digits)
  }

  predicate IsSign(sign: string) {
    sign == "" || sign == "+" || sign == "-"
  }

  /** White space, a sign, digits, white space. */
  ghost predicate ReadsAs(text: string, left: string, sign: string, digits: string, right: string, v: int) {
    && text == left + sign + digits + right
    && IsBlank(left) && IsBlank(right) && IsSign(sign) && IsDigits(digits) && v == Signed(sign, digits)
  }

  ghost predicate Reads(text: string, v: int) {
    exists left, sign, digits, right :: ReadsAs(text, left, sign, digits, right, v)
  }

  lemma {:induction false} StripLeftMeans(s: string) returns (left: string)
    ensures s == left + StripLeft(s) && IsBlank(left)
    ensures StripLeft(s) != [] ==> !IsSpace(StripLeft(s)[0])
  {
    left := [];
    if s != [] && IsSpace(s[0]) {
      left := StripLeftMeans(s[1..]);
      left := [s[0]] + left;
    }
  }

  lemma {:induction false} StripRightMeans(s: string) returns (right: string)
    ensures s == StripRight(s) + right && IsBlank(right)
    ensures StripRight(s) != [] ==> !IsSpace(StripRight(s)[|StripRight(s)| - 1])
  {
    right := [];
    if s != [] && IsSpace(s[|s| - 1]) {
      right := StripRightMeans(s[..|s| - 1]);
      right := right + [s[|s| - 1]];
    }
  }

  lemma {:induction false} StripLeftOf(left: string, s: string)
    requires IsBlank(left) && (s != [] ==> !IsSpace(s[0]))
    ensures StripLeft(left + s) == s
  {
    if left == [] {
      assert left + s == s;
    } else {
      assert left[0] in left && (left + s)[1..] == left[1..] + s;
      StripLeftOf(left[1..], s);
    }
  }

  lemma {:induction false} StripRightOf(s: string, right: string)
    requires IsBlank(right) && (s != [] ==> !IsSpace(s[|s| - 1]))
    ensures StripRight(s + right) == s
  {
    if right == [] {
      assert s + right == s;
    } else {
      var n := |right| - 1;
      assert right[n] in right && (s + right)[..|s + right| - 1] == s + right[..n];
      StripRightOf(s, right[..n]);
    }
  }

  /** What is left of a text without the white space around it. */
  lemma StripMeans(text: string) returns (left: string, right: string)
    ensures text == left + Strip(text) + right && IsBlank(left) && IsBlank(right)
  {
    left := StripLeftMeans(text);
    right := StripRightMeans(StripLeft(text));
    Regrouped(left, Strip(text), right);
  }

  lemma ParsedStripped(text: string) returns (sign: string, digits: string)
    requires ParseInt(text).Some?
    ensures Strip(text) == sign + digits && IsSign(sign) && IsDigits(digits)
    ensures ParseInt(text).value == Signed(sign, digits)
  {
    var s := Strip(text);
    if s[0] == '-' || s[0] == '+' {
      sign, digits := s[..1], s[1..];
    } else {
      sign, digits := "", s;
    }
  }

  lemma StrippedParses(text: string, sign: string, digits: string)
    requires Strip(text) == sign + digits && IsSign(sign) && IsDigits(digits)
    ensures ParseInt(text) == Some(Signed(sign, digits))
  {
    assert (sign + digits)[|sign|..] == digits;
    assert (sign + digits)[0] == if sign == "" then digits[0] else sign[0];
  }

  lemma Stripped(left: string, s: string, right: string)
    requires IsBlank(left) && IsBlank(right) && s != [] && !IsSpace(s[0]) && !IsSpace(s[|s| - 1])
    ensures Strip(left + s + right) == s
  {
    Regrouped(left, s, right);
    assert (s + right)[0] == s[0];
    StripLeftOf(left, s + right);
    StripRightOf(s, right);
  }

  /** Exactly the texts that `int` accepts. */
  lemma ParseIntExactly(text: string, v: int)
    ensures ParseInt(text) == Some(v) <==> Reads(text, v)
  {
    if ParseInt(text) == Some(v) {
      var left, right := StripMeans(text);
      var sign, digits := ParsedStripped(text);
      Regrouped(left, sign, digits);
      assert ReadsAs(text, left, sign, digits, right, v);
    }
    if left, sign, digits, right :| ReadsAs(text, left, sign, digits, right, v) {
      var s := sign + digits;
      assert s[0] == (if sign == "" then digits[0] else sign[0]) && s[|s| - 1] == digits[|digits| - 1];
      Regrouped(left, sign, digits);
      Stripped(left, s, right);
      StrippedParses(text, sign, digits);
    }
  }

  /** An underscore adds nothing to the number. */
  lemma {:induction false} UnderscoresAddNothing(a: string, b: string)
    ensures DigitsValue(a + "_" + b) == DigitsValue(a + b)
  {
    if b == [] {
      assert a + "_" + b == a + "_" && a + b == a && (a + "_")[..|a|] == a;
    } else {
      var n := |b| - 1;
      assert (a + "_" + b)[..|a| + 1 + n] == a + "_" + b[..n] && (a + b)[..|a| + n] == a + b[..n];
      UnderscoresAddNothing(a, b[..n]);
    }
  }

  lemma {:induction false} DigitsComeBack(n: nat)
    ensures DigitsValue(NatToString(n)) == n
  {
    var s := NatToString(n);
    if n < 10 {
    } else {
      DigitsComeBack(n / 10);
      assert s[..|s| - 1] == NatToString(n / 10);
    }
  }

  lemma NothingToStrip(s: string)
    requires s != [] && !IsSpace(s[0]) && !IsSpace(s[|s| - 1])
    ensures Strip(s) == s
  {
  }

  lemma DigitsParse(digits: string)
    requires digits != [] && forall c :: c in digits ==> IsDigit(c)
    ensures ParseInt(digits) == Some(DigitsValue(digits) as int)
  {
    assert forall i :: 0 <= i < |digits| ==> digits[i] in digits;
    NothingToStrip(digits);
  }

  lemma NegativeParses(digits: string)
    requires digits != [] && forall c :: c in digits ==> IsDigit(c)
    ensures ParseInt("-" + digits) == Some(-(DigitsValue(digits) as int))
  {
    assert forall i :: 0 <= i < |digits| ==> digits[i] in digits;
    var negative := "-" + digits;
    assert negative[1..] == digits && negative[|negative| - 1] == digits[|digits| - 1];
    NothingToStrip(negative);
  }

  /** `int(str(n)) == n` */
  lemma IntegersComeBack(n: int)
    ensures ParseInt(IntToString(n)) == Some(n)
    ensures IntToString(n) != [] && forall c :: c in IntToString(n) ==> IsDigit(c) || c == '-'
  {
    var m := if n < 0 then -n else n;
    DigitsComeBack(m);
    if n < 0 {
      NegativeParses(NatToString(m));
    } else {
      DigitsParse(NatToString(m));
    }
  }
}
