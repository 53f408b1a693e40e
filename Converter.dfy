/**
  Base conversion of inputs such as `"10(2)"` (the number 10 written in base 2) into another base
  between 2 and 16. Every error — a malformed input, a base out of range, a character that is not a
  digit of the source base — gives the empty string. Digits are read case-insensitively and written
  in lower case.
*/
module Converter {
  import opened Wrappers
  import opened Seqs
  import Text

  predicate ValidBase(base: nat) {
    2 <= base <= 16
  }

  /** `char::to_uppercase` on ASCII letters; other characters are left as they are. */
  function Upper(c: char): (u: char)
    ensures 'a' <= c <= 'z' ==> 'A' <= u <= 'Z'
    ensures !('a' <= c <= 'z') ==> u == c
  {
    if 'a' <= c <= 'z' then (c as int - 'a' as int + 'A' as int) as char else c
  }

  /** `char::to_digit(base)`: `0`–`9` and the letters (either case) from 10 upward, when below the base. */
  function ToDigit(c: char, base: nat): (d: Option<nat>)
    ensures d.Some? ==> d.value < base
  {
    var v: int :=
      if '0' <= c <= '9' then c as int - '0' as int
      else if 'A' <= c <= 'Z' then c as int - 'A' as int + 10
      else if 'a' <= c <= 'z' then c as int - 'a' as int + 10
      else base;
    if v < base then Some(v) else None
  }

  /** The digit value of one input character, upper-cased first as the source does. */
  function DigitOf(c: char, base: nat): (d: Option<nat>)
    ensures d.Some? ==> d.value < base
  {
    ToDigit(Upper(c), base)
  }

  /** `Upper` maps each ASCII lower-case letter to its capital, 32 code points lower. */
  lemma UpperIsCapital(c: char)
    ensures 'a' <= c <= 'z' ==> 'A' <= Upper(c) <= 'Z' && Upper(c) as int == c as int - 32
    ensures !('a' <= c <= 'z') ==> Upper(c) == c
  {
  }

  /** Upper-casing first changes nothing: a letter is the same digit in either case. */
  lemma DigitCaseInsensitive(c: char, base: nat)
    ensures DigitOf(c, base) == ToDigit(c, base)
    ensures 'a' <= c <= 'z' ==> DigitOf(c, base) == DigitOf(Upper(c), base)
  {
  }

  /** The Horner value of `s` read left to right, or `None` if some character is not a digit of the base. */
  function HornerValue(s: string, base: nat): Option<nat> {
    if s == [] then Some(0)
    else
      var high := HornerValue(s[..|s| - 1], base);
      var d := DigitOf(s[|s| - 1], base);
      if high.Some? && d.Some? then
        MulMonotone(0, high.value, base);
        Some(high.value * base + d.value)
      else None
  }

  /** The value is missing exactly when some character is not a digit of the base. */
  lemma {:induction false} HornerNone(s: string, base: nat)
    ensures HornerValue(s, base).None? <==> exists i :: 0 <= i < |s| && DigitOf(s[i], base).None?
  {
    if s != [] {
      var n := |s| - 1;
      HornerNone(s[..n], base);
      if HornerValue(s[..n], base).None? {
        var i :| 0 <= i < n && DigitOf(s[..n][i], base).None?;
        assert s[i] == s[..n][i];
      }
      if exists i :: 0 <= i < |s| && DigitOf(s[i], base).None? {
        var i :| 0 <= i < |s| && DigitOf(s[i], base).None?;
        if i < n {
          assert s[..n][i] == s[i];
        }
      }
    }
  }

  /** `to_decimal`: the Horner loop, stopping with an error at the first character that is not a digit. */
  method ToDecimal(s: string, base: nat) returns (r: Option<nat>)
    ensures r == HornerValue(s, base)
  {
    var result := 0;
    for i := 0 to |s|
      invariant HornerValue(s[..i], base) == Some(result)
    {
      assert s[..i + 1][..i] == s[..i];
      var digit := DigitOf(s[i], base);
      if digit.None? {
        assert HornerValue(s[..i + 1], base).None?;
        PrefixNone(s, i + 1, base);
        return None;
      }
      result := result * base + digit.value;
    }
    assert s[..|s|] == s;
    return Some(result);
  }

  /** Once a prefix has no value, neither has the whole string. */
  lemma {:induction false} PrefixNone(s: string, k: nat, base: nat)
    requires k <= |s| && HornerValue(s[..k], base).None?
    ensures HornerValue(s, base).None?
  {
    if k < |s| {
      var n := |s| - 1;
      assert s[..n][..k] == s[..k];
      PrefixNone(s[..n], k, base);
    } else {
      assert s[..k] == s;
    }
  }

  /** The lower-case digit for a value below 16. */
  function HexDigit(d: nat): (c: char)
    requires d < 16
    ensures d < 10 ==> c == ('0' as int + d) as char
    ensures d >= 10 ==> c == ('a' as int + d - 10) as char
  {
    "0123456789abcdef"[d]
  }

  /** The digits of `n` in the base, most significant first; none for 0. */
  function Digits(n: nat, base: nat): string
    requires ValidBase(base)
  {
    if n == 0 then [] else Digits(n / base, base) + [HexDigit(n % base)]
  }

  /** `from_decimal`'s result: `"0"` for 0, otherwise the digits of `n`. */
  function Render(n: nat, base: nat): string
    requires ValidBase(base)
  {
    if n == 0 then "0" else Digits(n, base)
  }

  /** Division by the base shrinks a positive number. */
  lemma DivShrinks(n: nat, base: nat)
    requires n > 0 && base >= 2
    ensures n / base < n && n == n / base * base + n % base && n % base < base
  {
    var q := n / base;
    assert n == q * base + n % base;
    MulMonotone(2, base, q);
    assert 2 * q <= n;
  }

  lemma MulMonotone(a: nat, b: nat, c: nat)
    requires a <= b
    ensures a * c <= b * c
  {
  }

  /** `from_decimal`: collect the remainders, least significant first, then read them back to front. */
  method FromDecimal(n: nat, base: nat) returns (r: string)
    requires ValidBase(base)
    ensures r == Render(n, base)
  {
    if n == 0 {
      return "0";
    }
    var digits: string := [];
    var m: nat := n;
    while m > 0
      invariant Digits(n, base) == Digits(m, base) + Reversed(digits)
    {
      var rem := m % base;
      ReversedAppend(digits, HexDigit(rem));
      digits := digits + [HexDigit(rem)];
      DivShrinks(m, base);
      m := m / base;
    }
    r := Reversed(digits);
  }

  /** Each written digit, read back, is a digit of the base; a positive number's first digit is not `0`. */
  lemma {:induction false} DigitsAlphabet(n: nat, base: nat)
    requires ValidBase(base)
    ensures var s := Digits(n, base);
      (forall i :: 0 <= i < |s| ==> ('0' <= s[i] <= '9' || 'a' <= s[i] <= 'f') && DigitOf(s[i], base).Some?) &&
      (n > 0 ==> |s| >= 1 && s[0] != '0')
  {
    if n > 0 {
      DigitsAlphabet(n / base, base);
      HexDigitRead(n % base, base);
      if n / base == 0 {
        assert Digits(n, base) == [HexDigit(n % base)];
        assert n % base == n;
      }
    }
  }

  lemma HexDigitRead(d: nat, base: nat)
    requires d < base && ValidBase(base)
    ensures var c := HexDigit(d); ('0' <= c <= '9' || 'a' <= c <= 'f') && DigitOf(c, base) == Some(d)
  {
  }

  /** `from_decimal(0, b)` is `"0"`; otherwise the output has no leading zero and only digits of the base, in lower case. */
  lemma RenderShape(n: nat, base: nat)
    requires ValidBase(base)
    ensures Render(0, base) == "0"
    ensures n > 0 ==> Render(n, base)[0] != '0'
    ensures var s := Render(n, base);
      |s| >= 1 && forall i :: 0 <= i < |s| ==> ('0' <= s[i] <= '9' || 'a' <= s[i] <= 'f') && DigitOf(s[i], base).Some?
  {
    DigitsAlphabet(n, base);
  }

  /** Reading back the written digits gives the number: `to_decimal(from_decimal(n, b), b) == n`. */
  lemma {:induction false} DigitsValue(n: nat, base: nat)
    requires ValidBase(base)
    ensures HornerValue(Digits(n, base), base) == Some(n)
  {
    if n > 0 {
      var high := n / base;
      var low := n % base;
      DivShrinks(n, base);
      DigitsValue(high, base);
      var s := Digits(n, base);
      assert s == Digits(high, base) + [HexDigit(low)];
      assert s[..|s| - 1] == Digits(high, base);
      HexDigitRead(low, base);
      assert DigitOf(s[|s| - 1], base) == Some(low);
      assert n == high * base + low;
    }
  }

  lemma RenderRoundTrip(n: nat, base: nat)
    requires ValidBase(base)
    ensures HornerValue(Render(n, base), base) == Some(n)
  {
    if n == 0 {
      assert "0"[..0] == [];
    } else {
      DigitsValue(n, base);
    }
  }

  /**
    `parse_input`: the input must hold exactly one `)`; the text before it must hold a `(`, the value
    being what precedes the first `(` and the base what follows it, read as a `u32`. Whatever
    follows the `)` is ignored.
  */
  function ParseInput(s: string): (r: Option<(string, nat)>)
    ensures r.Some? ==> Text.CountChar(s, ')') == 1 && '(' !in r.value.0 && ')' !in r.value.0
  {
    var parts := Text.Split(s, ')');
    if |parts| != 2 then None
    else match Text.SplitOnce(parts[0], '(')
      case None => None
      case Some((value, basePart)) =>
        match Text.ParseUnsigned(basePart, Text.U32_MAX)
        case None => None
        case Some(base) =>
          assert forall c :: c in value ==> c in parts[0] by {
            forall c | c in value
              ensures c in parts[0]
            {
              var i :| 0 <= i < |value| && value[i] == c;
              assert parts[0][i] == c;
            }
          }
          Some((value, base))
  }

  /** What `convert_base` returns. */
  function Converted(numStr: string, toBase: nat): string {
    match ParseInput(numStr)
    case None => ""
    case Some((value, fromBase)) =>
      if !ValidBase(fromBase) || !ValidBase(toBase) then ""
      else match HornerValue(value, fromBase)
        case None => ""
        case Some(d) => Render(d, toBase)
  }

  /** `convert_base` */
  method ConvertBase(numStr: string, toBase: nat) returns (r: string)
    ensures r == Converted(numStr, toBase)
  {
    var parsed := ParseInput(numStr);
    if parsed.None? {
      return "";
    }
    var (value, baseFrom) := parsed.value;
    if !ValidBase(baseFrom) || !ValidBase(toBase) {
      return "";
    }
    var decimal := ToDecimal(value, baseFrom);
    if decimal.None? {
      return "";
    }
    r := FromDecimal(decimal.value, toBase);
  }

  /**
    The error cases: a malformed input, a base outside 2..16 on either side, or a character that is
    not a digit of the source base gives the empty string, and every other input a non-empty result.
  */
  lemma ConvertedErrors(numStr: string, toBase: nat)
    ensures Converted(numStr, toBase) == "" <==>
      || ParseInput(numStr).None?
      || !ValidBase(ParseInput(numStr).value.1) || !ValidBase(toBase)
      || exists i :: 0 <= i < |ParseInput(numStr).value.0| && DigitOf(ParseInput(numStr).value.0[i], ParseInput(numStr).value.1).None?
  {
    if ParseInput(numStr).Some? {
      var (value, fromBase) := ParseInput(numStr).value;
      HornerNone(value, fromBase);
      if ValidBase(fromBase) && ValidBase(toBase) && HornerValue(value, fromBase).Some? {
        RenderShape(HornerValue(value, fromBase).value, toBase);
      }
    }
  }

  /** An input made of a value, `(`, a base and `)` is read back as that value and base. */
  lemma ParseWritten(value: string, base: nat, tail: string)
    requires '(' !in value && ')' !in value && ')' !in tail && base <= Text.U32_MAX
    ensures ParseInput(value + "(" + Text.NatToString(base) + ")" + tail) == Some((value, base))
  {
    var b := Text.NatToString(base);
    assert ')' !in b by {
      forall i | 0 <= i < |b|
        ensures b[i] != ')'
      {
        assert Text.IsDigit(b[i]);
      }
    }
    var head := value + "(" + b;
    assert ')' !in head;
    Text.SplitJoin([head, tail], ')');
    assert Text.Join([head, tail], [')']) == value + "(" + b + ")" + tail;
    SplitOnceAfter(value, b, '(');
    Text.ParseRendered(base, Text.U32_MAX);
  }

  lemma {:induction false} SplitOnceAfter(before: string, after: string, sep: char)
    requires sep !in before
    ensures Text.SplitOnce(before + [sep] + after, sep) == Some((before, after))
  {
    var s := before + [sep] + after;
    if before == [] {
      assert s[0] == sep && s[1..] == after;
    } else {
      SplitOnceAfter(before[1..], after, sep);
      assert s[0] == before[0] && s[1..] == before[1..] + [sep] + after;
      assert [before[0]] + before[1..] == before;
    }
  }

  /**
    Conversion undoes writing: the digits of `n` in base `b1`, written as `digits(b1)`, convert to
    the digits of `n` in base `b2`.
  */
  lemma ConvertWritten(n: nat, b1: nat, b2: nat)
    requires ValidBase(b1) && ValidBase(b2)
    ensures Converted(Render(n, b1) + "(" + Text.NatToString(b1) + ")", b2) == Render(n, b2)
  {
    var v := Render(n, b1);
    RenderShape(n, b1);
    assert '(' !in v && ')' !in v by {
      forall i | 0 <= i < |v|
        ensures v[i] != '(' && v[i] != ')'
      {
      }
    }
    ParseWritten(v, b1, "");
    assert v + "(" + Text.NatToString(b1) + ")" + "" == v + "(" + Text.NatToString(b1) + ")";
    RenderRoundTrip(n, b1);
  }

  /** A sample conversion from base 2 to base 10. */
  lemma ConvertBinary()
    ensures Converted("10(2)", 10) == "2"
  {
    ParseWritten("10", 2, "");
    assert "10" + "(" + Text.NatToString(2) + ")" + "" == "10(2)";
    BinaryTwo();
  }

  lemma BinaryTwo()
    ensures HornerValue("10", 2) == Some(2)
  {
    assert "10"[..1] == "1" && "1"[..0] == [];
    assert HornerValue("1", 2) == Some(1);
  }

  /** A letter beyond the source base's digits makes the input invalid. */
  lemma ConvertBadDigit()
    ensures Converted("1g(10)", 16) == ""
  {
    ParseWritten("1g", 10, "");
    assert Text.NatToString(10) == "10";
    assert "1g" + "(" + Text.NatToString(10) + ")" + "" == "1g(10)";
    assert DigitOf("1g"[1], 10).None?;
    HornerNone("1g", 10);
  }
}
