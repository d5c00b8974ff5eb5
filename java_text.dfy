/** The pieces of `java.lang.String` and `Integer` the modelled code relies on:
    decimal rendering (string concatenation of an `int`, `String.format("%3d")`),
    `Integer.parseInt` and `String.split` with a one-character pattern. */
module JavaText {
  import opened Wrappers
  import JavaInt

  predicate IsDigit(c: char) { '0' <= c <= '9' }

  predicate AllDigits(s: string) { forall i :: 0 <= i < |s| ==> IsDigit(s[i]) }

  function DigitChar(d: nat): (c: char)
    requires d < 10
    ensures IsDigit(c) && c as int - '0' as int == d
  {
    (d + '0' as int) as char
  }

  function DigitValue(c: char): (d: nat)
    requires IsDigit(c)
    ensures d < 10 && DigitChar(d) == c
  {
    c as int - '0' as int
  }

  /** Decimal digits of `k`, most significant first, without leading zeros. */
  function NatDigits(k: nat): (s: string)
    ensures |s| > 0 && AllDigits(s)
    ensures |s| > 1 ==> s[0] != '0'
    ensures k < 10 <==> |s| == 1
  {
    if k < 10 then [DigitChar(k)] else NatDigits(k / 10) + [DigitChar(k % 10)]
  }

  /** The value of a string of decimal digits (leading zeros allowed). */
  function DigitsValue(s: string): nat
    requires AllDigits(s)
  {
    if s == [] then 0 else DigitsValue(s[..|s| - 1]) * 10 + DigitValue(s[|s| - 1])
  }

  lemma {:induction false} DigitsRoundTrip(k: nat)
    ensures DigitsValue(NatDigits(k)) == k
  {
    if k >= 10 {
      var s := NatDigits(k);
      assert s[..|s| - 1] == NatDigits(k / 10);
      DigitsRoundTrip(k / 10);
    }
  }

  /** Java's decimal rendering of an integer, as string concatenation produces it. */
  function IntToString(i: int): (s: string)
    ensures |s| > 0
    ensures i < 0 <==> s[0] == '-'
    ensures AllDigits(if i < 0 then s[1..] else s)
  {
    if i < 0 then "-" + NatDigits(-i) else NatDigits(i)
  }

  /** `String.format("%3d", i)`: the decimal rendering, left-padded with spaces to width 3. */
  function Pad3(i: int): (s: string)
    ensures |s| == if |IntToString(i)| < 3 then 3 else |IntToString(i)|
    ensures s[|s| - |IntToString(i)|..] == IntToString(i)
    ensures forall k :: 0 <= k < |s| - |IntToString(i)| ==> s[k] == ' '
  {
    var d := IntToString(i);
    if |d| < 3 then seq(3 - |d|, _ => ' ') + d else d
  }

  /** `Integer.parseInt`: an optional sign followed by at least one decimal digit,
      with a value that fits a 32-bit `int`; anything else is a NumberFormatException. */
  function ParseInt(s: string): (r: Result<int>)
    ensures r.Ok? ==> JavaInt.InRange(r.value)
    ensures s == [] ==> r == Err(NumberFormat)
  {
    var neg := |s| > 0 && s[0] == '-';
    var digits := if |s| > 0 && (s[0] == '-' || s[0] == '+') then s[1..] else s;
    if |digits| == 0 || !AllDigits(digits) then Err(NumberFormat)
    else
      var v: int := if neg then 0 - DigitsValue(digits) else DigitsValue(digits);
      if JavaInt.InRange(v) then Ok(v) else Err(NumberFormat)
  }

  lemma ParseIntRoundTrip(i: int)
    requires JavaInt.InRange(i)
    ensures ParseInt(IntToString(i)) == Ok(i)
  {
    DigitsRoundTrip(JavaInt.Abs(i));
    if i < 0 {
      assert IntToString(i)[1..] == NatDigits(-i);
    }
  }

  /** Every piece of `s` between occurrences of `sep`, empty pieces included. */
  function SplitAll(s: string, sep: char): (parts: seq<string>)
    ensures |parts| > 0
    ensures forall k :: 0 <= k < |parts| ==> sep !in parts[k]
    ensures |parts| == 1 <==> sep !in s
    ensures sep !in s ==> parts == [s]
  {
    if s == [] then [[]]
    else
      var rest := SplitAll(s[1..], sep);
      if s[0] == sep then [[]] + rest
      else
        assert s == [s[0]] + s[1..];
        [[s[0]] + rest[0]] + rest[1..]
  }

  /** Joins the pieces back with `sep` between them. */
  function Join(parts: seq<string>, sep: char): string
    requires |parts| > 0
  {
    if |parts| == 1 then parts[0] else parts[0] + [sep] + Join(parts[1..], sep)
  }

  lemma {:induction false} SplitJoin(s: string, sep: char)
    ensures Join(SplitAll(s, sep), sep) == s
  {
    if s != [] {
      var rest := SplitAll(s[1..], sep);
      SplitJoin(s[1..], sep);
      if s[0] != sep {
        var parts := SplitAll(s, sep);
        if |rest| == 1 {
          assert parts == [[s[0]] + rest[0]];
        } else {
          assert parts[1..] == rest[1..];
          assert Join(rest, sep) == rest[0] + [sep] + Join(rest[1..], sep);
        }
      }
    }
  }

  /** Removes trailing empty pieces. */
  function DropTrailingEmpty(parts: seq<string>): (r: seq<string>)
    ensures |r| <= |parts| && r == parts[..|r|]
    ensures r == [] || r[|r| - 1] != []
    ensures forall k :: |r| <= k < |parts| ==> parts[k] == []
  {
    if parts != [] && parts[|parts| - 1] == [] then DropTrailingEmpty(parts[..|parts| - 1]) else parts
  }

  /** `s.split(sep)` for a one-character, non-special pattern: the pieces between
      separators with trailing empty pieces removed; an empty `s` gives `[""]`. */
  function Split(s: string, sep: char): (r: seq<string>)
    ensures s == [] ==> r == [[]]
    ensures s != [] && sep !in s ==> r == [s]
    ensures forall k :: 0 <= k < |r| ==> sep !in r[k]
    ensures s != [] ==> r == [] || r[|r| - 1] != []
  {
    if s == [] then [[]] else DropTrailingEmpty(SplitAll(s, sep))
  }
}
