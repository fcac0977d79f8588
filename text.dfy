/** The string and number primitives of JavaScript that the video service
    relies on: `String(n)`, `parseInt(s, 10)`, `String.prototype.includes`,
    `indexOf`, `replace` with a non-global pattern, `split`, the `%03d`
    thumbnail numbering and `toFixed(2)` on a percentage. */
module Text {
  import opened Wrappers

  predicate IsDigit(c: char) { '0' <= c <= '9' }

  predicate AllDigits(s: string) { forall i | 0 <= i < |s| :: IsDigit(s[i]) }

  function DigitValue(c: char): nat
    requires IsDigit(c)
  {
    (c as int) - ('0' as int)
  }

  function DigitChar(d: nat): (c: char)
    requires d < 10
    ensures IsDigit(c) && DigitValue(c) == d
  {
    (('0' as int) + d) as char
  }

  /** `String(n)` for a natural number: its decimal digits, without leading zeros. */
  function NatStr(n: nat): (s: string)
    ensures 1 <= |s| && AllDigits(s)
    ensures s[0] == '0' ==> n == 0
    decreases n
  {
    if n < 10 then [DigitChar(n)] else NatStr(n / 10) + [DigitChar(n % 10)]
  }

  /** `String(i)` for an integer. */
  function IntStr(i: int): string {
    if i < 0 then "-" + NatStr(-i) else NatStr(i)
  }

  /** The number a string of decimal digits denotes. */
  function DigitsValue(s: string): nat
    requires AllDigits(s)
  {
    if s == [] then 0 else 10 * DigitsValue(s[..|s| - 1]) + DigitValue(s[|s| - 1])
  }

  /** Reading back the digits of `NatStr(n)` gives `n`. */
  lemma {:induction false} DigitsValueOfNatStr(n: nat)
    ensures DigitsValue(NatStr(n)) == n
  {
    if n >= 10 {
      var s := NatStr(n);
      assert s[..|s| - 1] == NatStr(n / 10);
      DigitsValueOfNatStr(n / 10);
    }
  }

  lemma NatStrInjective(a: nat, b: nat)
    requires NatStr(a) == NatStr(b)
    ensures a == b
  {
    DigitsValueOfNatStr(a);
    DigitsValueOfNatStr(b);
  }

  /** One digit below 10, two below 100, at least three from 100 on. */
  lemma {:induction false} NatStrLength(n: nat)
    ensures n < 10 ==> |NatStr(n)| == 1
    ensures 10 <= n < 100 ==> |NatStr(n)| == 2
    ensures 100 <= n ==> |NatStr(n)| >= 3
  {
    if n >= 10 {
      NatStrLength(n / 10);
    }
  }

  // ---------------------------------------------------------------------
  // parseInt(s, 10)

  /** The characters `parseInt` skips before the number: ECMAScript white
      space and line terminators. */
  predicate IsJsSpace(c: char) {
    c == ' ' || c == '\t' || c == '\n' || c == '\r' || c == '\U{B}' || c == '\U{C}'
    || c == '\U{A0}' || c == '\U{FEFF}' || c == '\U{1680}' || ('\U{2000}' <= c <= '\U{200A}')
    || c == '\U{2028}' || c == '\U{2029}' || c == '\U{202F}' || c == '\U{205F}' || c == '\U{3000}'
  }

  /** `s` without its leading white space: a suffix of `s`. */
  function SkipSpace(s: string): (r: string)
    ensures |r| <= |s| && r == s[|s| - |r|..]
    ensures r != [] ==> !IsJsSpace(r[0])
  {
    if s != [] && IsJsSpace(s[0]) then SkipSpace(s[1..]) else s
  }

  /** The longest prefix of `s` made of decimal digits. */
  function LeadingDigits(s: string): (r: string)
    ensures r <= s && AllDigits(r)
    ensures |r| < |s| ==> !IsDigit(s[|r|])
  {
    if s != [] && IsDigit(s[0]) then [s[0]] + LeadingDigits(s[1..]) else []
  }

  /** `parseInt(s, 10)`: leading white space, an optional sign, then as many
      digits as there are; `None` stands for `NaN` (no digit at all). */
  function ParseInt(s: string): Option<int> {
    var t := SkipSpace(s);
    var negative := t != [] && t[0] == '-';
    var body := if t != [] && (t[0] == '-' || t[0] == '+') then t[1..] else t;
    var digits := LeadingDigits(body);
    if digits == [] then None
    else
      var magnitude: int := DigitsValue(digits);
      if negative then Some(-magnitude) else Some(magnitude)
  }

  lemma LeadingDigitsOfDigits(s: string)
    requires AllDigits(s)
    ensures LeadingDigits(s) == s
  {
    if s != [] {
      LeadingDigitsOfDigits(s[1..]);
    }
  }

  /** A non-empty run of digits parses to the number it denotes. */
  lemma ParseIntOfDigits(s: string)
    requires s != [] && AllDigits(s)
    ensures ParseInt(s) == Some(DigitsValue(s))
  {
    assert IsDigit(s[0]);
    assert !IsJsSpace(s[0]) && s[0] != '-' && s[0] != '+';
    assert SkipSpace(s) == s;
    LeadingDigitsOfDigits(s);
  }

  /** `parseInt(String(n), 10) == n`. */
  lemma ParseIntOfNatStr(n: nat)
    ensures ParseInt(NatStr(n)) == Some(n)
  {
    ParseIntOfDigits(NatStr(n));
    DigitsValueOfNatStr(n);
  }

  /** A string without a minus sign never parses to a negative number. */
  lemma ParseIntWithoutMinus(s: string)
    requires '-' !in s
    ensures ParseInt(s).Some? ==> ParseInt(s).value >= 0
  {
    var t := SkipSpace(s);
    if t != [] {
      assert t[0] == s[|s| - |t|];
    }
  }

  // ---------------------------------------------------------------------
  // includes, indexOf, replace, split

  /** `s.indexOf(pat)`, with `None` for -1. */
  function IndexOf(s: string, pat: string): (r: Option<nat>)
    ensures r.Some? ==> r.value + |pat| <= |s| && pat <= s[r.value..]
    decreases |s|
  {
    if pat <= s then Some(0)
    else if s == [] then None
    else
      assert s[1..][..] == s[1..] && forall k | 0 <= k <= |s| - 1 :: s[1..][k..] == s[k + 1..];
      match IndexOf(s[1..], pat)
      case None => None
      case Some(k) => Some(k + 1)
  }

  /** `indexOf` finds the first occurrence, and -1 means there is none. */
  lemma {:induction false} IndexOfFirst(s: string, pat: string)
    ensures IndexOf(s, pat).Some? ==> forall j | 0 <= j < IndexOf(s, pat).value :: !(pat <= s[j..])
    ensures IndexOf(s, pat).None? ==> forall j | 0 <= j <= |s| :: !(pat <= s[j..])
    decreases |s|
  {
    if !(pat <= s) && s != [] {
      IndexOfFirst(s[1..], pat);
      assert forall j | 1 <= j <= |s| :: s[j..] == s[1..][j - 1..];
    }
  }

  /** `s.includes(pat)`. */
  predicate Contains(s: string, pat: string) {
    IndexOf(s, pat).Some?
  }

  /** `s.replace(pat, rep)` with a plain (non-global) pattern: only the first
      occurrence is replaced. */
  function ReplaceFirst(s: string, pat: string, rep: string): string {
    match IndexOf(s, pat)
    case None => s
    case Some(k) => s[..k] + rep + s[k + |pat|..]
  }

  lemma ReplaceFirstOfPrefix(pat: string, rest: string)
    ensures ReplaceFirst(pat + rest, pat, "") == rest
  {
    assert pat <= pat + rest;
    assert IndexOf(pat + rest, pat) == Some(0);
  }

  /** `s.split(sep)` for a one-character separator. */
  function Split(s: string, sep: char): (parts: seq<string>)
    ensures |parts| >= 1
    ensures forall i | 0 <= i < |parts| :: sep !in parts[i]
    decreases |s|
  {
    IndexOfFirst(s, [sep]);
    match IndexOf(s, [sep])
    case None =>
      assert forall j | 0 <= j < |s| :: s[j] != sep by {
        forall j | 0 <= j < |s| ensures s[j] != sep {
          assert !([sep] <= s[j..]);
        }
      }
      [s]
    case Some(k) =>
      assert sep !in s[..k] by {
        forall j | 0 <= j < k ensures s[..k][j] != sep {
          assert !([sep] <= s[j..]);
        }
      }
      [s[..k]] + Split(s[k + 1..], sep)
  }

  /** `parts.join(sep)`. */
  function Join(parts: seq<string>, sep: char): string
    requires |parts| >= 1
  {
    if |parts| == 1 then parts[0] else parts[0] + [sep] + Join(parts[1..], sep)
  }

  /** Splitting loses nothing: joining the pieces gives back the string. */
  lemma {:induction false} JoinSplit(s: string, sep: char)
    ensures Join(Split(s, sep), sep) == s
    decreases |s|
  {
    match IndexOf(s, [sep])
    case None =>
    case Some(k) =>
      JoinSplit(s[k + 1..], sep);
      assert s[k] == sep by { assert [sep] <= s[k..]; }
      var parts := [s[..k]] + Split(s[k + 1..], sep);
      assert parts[1..] == Split(s[k + 1..], sep);
      assert s == s[..k] + [sep] + s[k + 1..];
  }

  /** Two pieces without the separator split back into exactly those pieces. */
  lemma SplitPair(a: string, b: string, sep: char)
    requires sep !in a && sep !in b
    ensures Split(a + [sep] + b, sep) == [a, b]
  {
    var s := a + [sep] + b;
    assert [sep] <= s[|a|..];
    forall j | 0 <= j < |a| ensures !([sep] <= s[j..]) {
      assert s[j] == a[j];
    }
    IndexOfFirst(s, [sep]);
    IndexOfFirst(b, [sep]);
    assert IndexOf(s, [sep]) == Some(|a|);
    assert s[|a| + 1..] == b;
    assert s[..|a|] == a;
    forall j | 0 <= j < |b| ensures !([sep] <= b[j..]) {
      assert b[j..][0] == b[j];
    }
    assert IndexOf(b, [sep]).None?;
    assert Split(b, sep) == [b];
  }

  /** `s.split(sep)[1]`: the text between the first and the second occurrence
      of `sep` (or the end); `None` stands for `undefined`. */
  function SecondPiece(s: string, sep: string): Option<string>
    requires |sep| > 0
  {
    match IndexOf(s, sep)
    case None => None
    case Some(k) =>
      var rest := s[k + |sep|..];
      match IndexOf(rest, sep)
      case None => Some(rest)
      case Some(j) => Some(rest[..j])
  }

  lemma SecondPieceAfterSeparator(sep: string, id: string)
    requires |sep| > 0 && !Contains(id, sep)
    ensures SecondPiece(sep + id, sep) == Some(id)
  {
    assert sep <= sep + id;
    assert (sep + id)[|sep|..] == id;
  }

  // ---------------------------------------------------------------------
  // thumbnail numbering and percentages

  /** The thumbnail number as the loop at streamVideo.js:1456-1465 writes it:
      two zeros below 10, one below 100, none from 100 on. */
  function ThumbnailNumber(i: nat): string {
    if i < 10 then "00" + NatStr(i) else if i < 100 then "0" + NatStr(i) else NatStr(i)
  }

  /** What `%0<width>d` prints for a natural number. */
  function ZeroPadded(s: string, width: nat): string
    decreases width - |s|
  {
    if |s| >= width then s else ZeroPadded("0" + s, width)
  }

  /** The names the service records are the names the transcoder writes with
      the `%03d` output pattern. */
  lemma ThumbnailNumberIsPrintf(i: nat)
    ensures ThumbnailNumber(i) == ZeroPadded(NatStr(i), 3)
  {
    NatStrLength(i);
    if i < 10 {
      assert ZeroPadded(NatStr(i), 3) == ZeroPadded("0" + NatStr(i), 3);
      assert ZeroPadded("0" + NatStr(i), 3) == ZeroPadded("00" + NatStr(i), 3);
    } else if i < 100 {
      assert ZeroPadded(NatStr(i), 3) == ZeroPadded("0" + NatStr(i), 3);
    }
  }

  /** Leading zeros do not change the value of a digit string. */
  lemma {:induction false} DigitsValueZeroPrefix(s: string)
    requires AllDigits(s)
    ensures AllDigits("0" + s) && DigitsValue("0" + s) == DigitsValue(s)
    decreases |s|
  {
    if s != [] {
      assert ("0" + s)[..|"0" + s| - 1] == "0" + s[..|s| - 1];
      DigitsValueZeroPrefix(s[..|s| - 1]);
    }
  }

  /** A thumbnail number is a digit string denoting the number itself. */
  lemma ThumbnailNumberValue(i: nat)
    ensures AllDigits(ThumbnailNumber(i)) && DigitsValue(ThumbnailNumber(i)) == i
  {
    DigitsValueOfNatStr(i);
    DigitsValueZeroPrefix(NatStr(i));
    DigitsValueZeroPrefix("0" + NatStr(i));
    assert "0" + ("0" + NatStr(i)) == "00" + NatStr(i);
  }

  /** Distinct thumbnail numbers are distinct strings. */
  lemma ThumbnailNumberInjective(i: nat, j: nat)
    requires ThumbnailNumber(i) == ThumbnailNumber(j)
    ensures i == j
  {
    ThumbnailNumberValue(i);
    ThumbnailNumberValue(j);
  }

  /** `(h / 100).toFixed(2)` for a non-negative amount `h` of hundredths. */
  function FixedTwo(h: nat): string {
    NatStr(h / 100) + "." + [DigitChar(h % 100 / 10), DigitChar(h % 10)]
  }

  /** Only zero is shown as "0.00". */
  lemma FixedTwoZero(h: nat)
    ensures FixedTwo(h) == "0.00" <==> h == 0
  {
    if FixedTwo(h) == "0.00" {
      var q := NatStr(h / 100);
      assert |q| == 1;
      assert q == [FixedTwo(h)[0]];
      assert q == NatStr(0);
      NatStrInjective(h / 100, 0);
      assert FixedTwo(h)[2] == DigitChar(h % 100 / 10);
      assert FixedTwo(h)[3] == DigitChar(h % 10);
      assert DigitValue('0') == 0;
    }
  }
}
