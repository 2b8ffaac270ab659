/**
 * The few pieces of Python's string library the core relies on:
 * `str.startswith`, `str.split`, `str.replace(" ", "")`, `str.isdigit`,
 * `int(s, base)` and `str(n)`. Digits are ASCII digits only.
 */
module Text {
  import opened Base

  predicate StartsWith(s: string, prefix: string) {
    |prefix| <= |s| && s[..|prefix|] == prefix
  }

  /** `s.split(sep)`: the pieces between the separators, so one more piece than separators. */
  function Split(s: string, sep: char): (r: seq<string>)
    ensures |r| >= 1
    ensures forall i :: 0 <= i < |r| ==> sep !in r[i]
  {
    if s == [] then [[]]
    else
      var rest := Split(s[1..], sep);
      if s[0] == sep then [[]] + rest else [[s[0]] + rest[0]] + rest[1..]
  }

  /** The inverse of `Split`: the pieces glued back with the separator. */
  function Join(pieces: seq<string>, sep: char): string
    requires |pieces| >= 1
  {
    if |pieces| == 1 then pieces[0] else pieces[0] + [sep] + Join(pieces[1..], sep)
  }

  lemma {:induction false} JoinSplit(s: string, sep: char)
    ensures Join(Split(s, sep), sep) == s
  {
    if s != [] {
      JoinSplit(s[1..], sep);
      var rest := Split(s[1..], sep);
      if s[0] != sep {
        if |rest| == 1 {
        } else {
          calc {
            Join(Split(s, sep), sep);
            [s[0]] + rest[0] + [sep] + Join(rest[1..], sep);
            [s[0]] + (rest[0] + [sep] + Join(rest[1..], sep));
          }
        }
      }
    }
  }

  lemma {:induction false} SplitJoin(pieces: seq<string>, sep: char)
    requires |pieces| >= 1
    requires forall i :: 0 <= i < |pieces| ==> sep !in pieces[i]
    ensures Split(Join(pieces, sep), sep) == pieces
  {
    if |pieces| == 1 {
      SplitNoSeparator(pieces[0], sep);
    } else {
      SplitJoin(pieces[1..], sep);
      SplitPrefix(pieces[0], sep, Join(pieces[1..], sep));
    }
  }

  lemma {:induction false} SplitNoSeparator(s: string, sep: char)
    requires sep !in s
    ensures Split(s, sep) == [s]
  {
    if s != [] {
      SplitNoSeparator(s[1..], sep);
      assert [s[0]] + s[1..] == s;
    }
  }

  lemma {:induction false} SplitPrefix(p: string, sep: char, t: string)
    requires sep !in p
    ensures Split(p + [sep] + t, sep) == [p] + Split(t, sep)
  {
    if p == [] {
      assert p + [sep] + t == [sep] + t;
      assert ([sep] + t)[1..] == t;
    } else {
      SplitPrefix(p[1..], sep, t);
      assert (p + [sep] + t)[1..] == p[1..] + [sep] + t;
      assert [p[0]] + p[1..] == p;
    }
  }

  /** A string without any separator splits into itself alone, and only such a string does. */
  lemma {:induction false} SplitSingle(s: string, sep: char)
    ensures |Split(s, sep)| == 1 <==> sep !in s
  {
    if sep !in s {
      SplitNoSeparator(s, sep);
    } else {
      JoinSplit(s, sep);
    }
  }

  /** `s.replace(" ", "")` */
  function RemoveSpaces(s: string): (r: string)
    ensures ' ' !in r
    ensures |r| <= |s|
  {
    if s == [] then [] else (if s[0] == ' ' then [] else [s[0]]) + RemoveSpaces(s[1..])
  }

  lemma {:induction false} RemoveSpacesIdempotent(s: string)
    ensures RemoveSpaces(RemoveSpaces(s)) == RemoveSpaces(s)
  {
    NoSpacesFixed(RemoveSpaces(s));
  }

  lemma {:induction false} NoSpacesFixed(s: string)
    requires ' ' !in s
    ensures RemoveSpaces(s) == s
  {
    if s != [] {
      NoSpacesFixed(s[1..]);
    }
  }

  /** `RemoveSpaces` only drops spaces: every other character survives, in order. */
  lemma {:induction false} RemoveSpacesKeeps(s: string, c: char)
    requires c != ' '
    ensures c in RemoveSpaces(s) <==> c in s
  {
    if s != [] {
      RemoveSpacesKeeps(s[1..], c);
      assert s == [s[0]] + s[1..];
    }
  }

  predicate IsAsciiDigit(c: char) { '0' <= c <= '9' }

  /**
   * `s.isdigit()`, for ASCII digits: true of a non-empty run of digits only,
   * which are the strings `int(s, 10)` reads without a sign.
   */
  predicate IsDigits(s: string)
    ensures IsDigits(s) <==> ValidDigits(s, 10)
  {
    |s| > 0 && forall i :: 0 <= i < |s| ==> IsAsciiDigit(s[i])
  }

  /** The value of one digit character in the alphabet `int(s, base)` uses, case-insensitive. */
  function DigitValue(c: char): (r: Option<nat>)
    ensures r.Some? ==> r.value < 36
  {
    if '0' <= c <= '9' then Some(c as int - '0' as int)
    else if 'a' <= c <= 'z' then Some(c as int - 'a' as int + 10)
    else if 'A' <= c <= 'Z' then Some(c as int - 'A' as int + 10)
    else None
  }

  predicate ValidDigits(s: string, base: nat) {
    |s| > 0 && forall i :: 0 <= i < |s| ==> DigitValue(s[i]).Some? && DigitValue(s[i]).value < base
  }

  /** The number a run of valid digits denotes, most significant first. */
  function DigitsValue(s: string, base: nat): nat
    requires forall i :: 0 <= i < |s| ==> DigitValue(s[i]).Some?
  {
    if s == [] then 0 else DigitsValue(s[..|s| - 1], base) * base + DigitValue(s[|s| - 1]).value
  }

  /** `int(s, base)` for `2 <= base <= 36`: an optional sign, then at least one digit below `base`. */
  function ParseInt(s: string, base: nat): (r: Option<int>)
    requires 2 <= base <= 36
    ensures r.Some? <==> ValidDigits(if |s| > 0 && s[0] in "+-" then s[1..] else s, base)
  {
    if |s| > 0 && s[0] in "+-" then
      var body := s[1..];
      if ValidDigits(body, base) then
        var v: int := DigitsValue(body, base);
        Some(if s[0] == '-' then -v else v)
      else None
    else if ValidDigits(s, base) then Some(DigitsValue(s, base))
    else None
  }

  /** `str(n)` for a non-negative `n`: canonical decimal, no leading zeros. */
  function Decimal(n: nat): (r: string)
    ensures IsDigits(r)
    decreases n
  {
    (if n < 10 then [] else Decimal(n / 10)) + [('0' as int + n % 10) as char]
  }

  lemma {:induction false} DecimalValue(n: nat)
    ensures forall i :: 0 <= i < |Decimal(n)| ==> DigitValue(Decimal(n)[i]).Some?
    ensures DigitsValue(Decimal(n), 10) == n
    decreases n
  {
    var d := Decimal(n);
    assert d[..|d| - 1] == if n < 10 then [] else Decimal(n / 10);
    if n >= 10 {
      DecimalValue(n / 10);
    }
  }

  /** Rendering with `str` and reading back with `int` gives the number back. */
  lemma ParseDecimal(n: nat)
    ensures ParseInt(Decimal(n), 10) == Some(n)
  {
    DecimalValue(n);
    DigitsParse(Decimal(n));
  }

  /** A run of ASCII digits parses to its non-negative decimal value. */
  lemma DigitsParse(s: string)
    requires IsDigits(s)
    ensures ValidDigits(s, 10)
    ensures ParseInt(s, 10) == Some(DigitsValue(s, 10))
  {
    assert IsAsciiDigit(s[0]);
    assert s[0] !in "+-";
  }
}
