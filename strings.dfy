/** The string operations the core leans on: JavaScript's `split` and
    `join` (Rust's `join` agrees), decimal rendering of integers as both
    Rust's `format!("{}")` and JavaScript print them, and JavaScript's
    `parseInt` with no radix argument. */
module Strings {
  import opened Wrappers

  /** `parts.join(sep)`: the parts in order with `sep` between neighbours. */
  function Join(parts: seq<string>, sep: string): string
  {
    if |parts| == 0 then ""
    else if |parts| == 1 then parts[0]
    else parts[0] + sep + Join(parts[1..], sep)
  }

  /** `s.split(sep)` for a one-character separator: every piece between two
      separators, in order, so that a string with k separators gives k + 1
      pieces (an empty string gives one empty piece). */
  function Split(s: string, sep: char): (parts: seq<string>)
    ensures |parts| >= 1
    ensures forall i :: 0 <= i < |parts| ==> sep !in parts[i]
  {
    if |s| == 0 then [""]
    else
      var rest := Split(s[1..], sep);
      if s[0] == sep then [""] + rest
      else [[s[0]] + rest[0]] + rest[1..]
  }

  /** Joining the pieces with the separator gives back the string. */
  lemma {:induction false} SplitThenJoin(s: string, sep: char)
    ensures Join(Split(s, sep), [sep]) == s
    decreases |s|
  {
    if |s| > 0 {
      var rest := Split(s[1..], sep);
      SplitThenJoin(s[1..], sep);
      if s[0] == sep {
        assert Split(s, sep) == [""] + rest;
        assert ([""] + rest)[1..] == rest;
      } else {
        var parts := Split(s, sep);
        assert parts == [[s[0]] + rest[0]] + rest[1..];
        if |rest| == 1 {
          assert Join(rest, [sep]) == rest[0];
        } else {
          assert parts[1..] == rest[1..];
          assert Join(rest, [sep]) == rest[0] + [sep] + Join(rest[1..], [sep]);
          assert s == [s[0]] + s[1..];
        }
      }
    }
  }

  /** Splitting a join of separator-free pieces gives back the pieces: the
      pieces `Split` returns are the only ones with the two properties it
      promises. */
  lemma {:induction false} JoinThenSplit(parts: seq<string>, sep: char)
    requires |parts| >= 1
    requires forall i :: 0 <= i < |parts| ==> sep !in parts[i]
    ensures Split(Join(parts, [sep]), sep) == parts
    decreases |parts|, |parts[0]|
  {
    var s := Join(parts, [sep]);
    if |parts[0]| == 0 {
      if |parts| == 1 {
        assert s == "";
      } else {
        assert s == [sep] + Join(parts[1..], [sep]);
        assert s[1..] == Join(parts[1..], [sep]);
        JoinThenSplit(parts[1..], sep);
        assert parts == [""] + parts[1..];
      }
    } else {
      var p0 := parts[0];
      var shorter := [p0[1..]] + parts[1..];
      assert forall i :: 0 <= i < |shorter| ==> sep !in shorter[i] by {
        forall i | 0 <= i < |shorter| ensures sep !in shorter[i] {
          if i == 0 {
            assert forall c :: c in p0[1..] ==> c in p0;
          } else {
            assert shorter[i] == parts[i];
          }
        }
      }
      JoinThenSplit(shorter, sep);
      assert shorter[1..] == parts[1..];
      if |parts| == 1 {
        assert s == p0;
        assert Join(shorter, [sep]) == p0[1..];
      } else {
        assert s == p0 + [sep] + Join(parts[1..], [sep]);
        assert Join(shorter, [sep]) == p0[1..] + [sep] + Join(parts[1..], [sep]);
      }
      assert s[0] == p0[0] && s[0] != sep;
      assert s[1..] == Join(shorter, [sep]);
      var rest := Split(s[1..], sep);
      assert rest == shorter;
      assert [[s[0]] + rest[0]] + rest[1..] == parts by {
        assert [s[0]] + p0[1..] == p0;
      }
    }
  }

  /** The first piece is everything before the first separator, and a
      second piece exists exactly when a separator follows it. */
  lemma {:induction false} SplitFirstPiece(head: string, tail: string, sep: char)
    requires sep !in head
    requires |tail| == 0 || tail[0] == sep
    ensures Split(head + tail, sep)[0] == head
    ensures |tail| > 0 ==> |Split(head + tail, sep)| >= 2
    ensures |tail| == 0 ==> |Split(head + tail, sep)| == 1
    decreases |head|
  {
    if |head| == 0 {
      assert head + tail == tail;
    } else {
      assert sep !in head[1..] by {
        assert forall c :: c in head[1..] ==> c in head;
      }
      SplitFirstPiece(head[1..], tail, sep);
      assert (head + tail)[1..] == head[1..] + tail;
      assert [head[0]] + head[1..] == head;
    }
  }

  /** The text after the last separator (`s.split(sep)` indexed at its
      last element), or the whole string when there is no separator. */
  function LastPiece(s: string, sep: char): (t: string)
    ensures sep !in t
    ensures |t| <= |s| && s[|s| - |t|..] == t
    ensures sep in s ==> |t| < |s| && s[|s| - |t| - 1] == sep
    ensures sep !in s ==> t == s
  {
    var parts := Split(s, sep);
    LastPieceIsSuffix(s, sep);
    assert EndsAfterLast(s, sep, parts[|parts| - 1]);
    parts[|parts| - 1]
  }

  /** `t` is the tail of `s` after its last `sep`, or all of `s`. */
  predicate EndsAfterLast(s: string, sep: char, t: string)
  {
    && |t| <= |s| && s[|s| - |t|..] == t
    && (sep in s ==> |t| < |s| && s[|s| - |t| - 1] == sep)
    && (sep !in s ==> t == s)
  }

  lemma {:induction false} LastPieceIsSuffix(s: string, sep: char)
    ensures var parts := Split(s, sep); EndsAfterLast(s, sep, parts[|parts| - 1])
    decreases |s|
  {
    if |s| > 0 {
      var rest := Split(s[1..], sep);
      LastPieceIsSuffix(s[1..], sep);
      var t := rest[|rest| - 1];
      if s[0] == sep {
        LastPieceAfterSep(s, sep, t);
      } else if |rest| == 1 {
        SplitThenJoin(s[1..], sep);
        LastPieceWithoutSep(s, sep);
      } else {
        SplitPieceCount(s[1..], sep);
        LastPieceAfterOther(s, sep, t);
      }
    }
  }

  /** A leading separator opens an empty first piece and moves the rest. */
  lemma LastPieceAfterSep(s: string, sep: char, t: string)
    requires |s| > 0 && s[0] == sep
    requires var rest := Split(s[1..], sep); t == rest[|rest| - 1]
    requires EndsAfterLast(s[1..], sep, t)
    ensures var parts := Split(s, sep); EndsAfterLast(s, sep, parts[|parts| - 1])
  {
    var parts := Split(s, sep);
    assert parts[|parts| - 1] == t;
    assert s[|s| - |t|..] == s[1..][|s| - 1 - |t|..];
    if sep in s[1..] {
      assert s[|s| - |t| - 1] == s[1..][|s| - 1 - |t| - 1];
    }
  }

  /** With one piece after the first character, the string has no separator. */
  lemma LastPieceWithoutSep(s: string, sep: char)
    requires |s| > 0 && s[0] != sep
    requires |Split(s[1..], sep)| == 1
    requires Join(Split(s[1..], sep), [sep]) == s[1..]
    ensures var parts := Split(s, sep); EndsAfterLast(s, sep, parts[|parts| - 1])
  {
    var rest := Split(s[1..], sep);
    assert rest[0] == s[1..];
    assert Split(s, sep) == [[s[0]] + rest[0]];
    assert [s[0]] + s[1..] == s;
    assert sep !in s by {
      assert forall c :: c in s ==> c == s[0] || c in s[1..];
    }
  }

  /** A leading non-separator joins the first piece; the last is unchanged. */
  lemma LastPieceAfterOther(s: string, sep: char, t: string)
    requires |s| > 0 && s[0] != sep
    requires var rest := Split(s[1..], sep); |rest| > 1 && t == rest[|rest| - 1]
    requires sep in s[1..]
    requires EndsAfterLast(s[1..], sep, t)
    ensures var parts := Split(s, sep); EndsAfterLast(s, sep, parts[|parts| - 1])
  {
    var parts := Split(s, sep);
    assert parts[|parts| - 1] == t;
    assert s[|s| - |t|..] == s[1..][|s| - 1 - |t|..];
    assert s[|s| - |t| - 1] == s[1..][|s| - 1 - |t| - 1];
  }

  /** A split has one piece more than the string has separators; in
      particular a string with no separator splits into itself alone. */
  lemma {:induction false} SplitPieceCount(s: string, sep: char)
    ensures |Split(s, sep)| == multiset(s)[sep] + 1
    ensures sep !in s ==> Split(s, sep) == [s]
    decreases |s|
  {
    if |s| > 0 {
      SplitPieceCount(s[1..], sep);
      assert s == [s[0]] + s[1..];
      assert multiset(s) == multiset([s[0]]) + multiset(s[1..]);
      if sep !in s {
        assert sep !in s[1..] by {
          assert forall c :: c in s[1..] ==> c in s;
        }
      }
    }
  }

  predicate IsDigit(c: char)
  {
    '0' <= c <= '9'
  }

  function DigitValue(c: char): nat
    requires IsDigit(c)
  {
    c as int - '0' as int
  }

  function DigitChar(d: nat): (c: char)
    requires d < 10
    ensures IsDigit(c) && DigitValue(c) == d
  {
    ('0' as int + d) as char
  }

  predicate AllDigits(s: string)
  {
    forall i :: 0 <= i < |s| ==> IsDigit(s[i])
  }

  /** The decimal digits of `n`, most significant first, with no leading
      zero. */
  function NatToString(n: nat): (s: string)
    ensures |s| >= 1 && AllDigits(s)
    ensures s[0] == '0' <==> n == 0
  {
    if n < 10 then [DigitChar(n)]
    else NatToString(n / 10) + [DigitChar(n % 10)]
  }

  /** Decimal rendering of an integer: a minus sign before a negative one. */
  function IntToString(i: int): (s: string)
    ensures |s| >= 1
    ensures i < 0 <==> s[0] == '-'
  {
    if i < 0 then "-" + NatToString(-i) else NatToString(i)
  }

  /** The value of a string of decimal digits. */
  function DigitsValue(s: string): nat
    requires AllDigits(s)
  {
    if |s| == 0 then 0
    else DigitsValue(s[..|s| - 1]) * 10 + DigitValue(s[|s| - 1])
  }

  lemma {:induction false} DigitsValueOfNatToString(n: nat)
    ensures DigitsValue(NatToString(n)) == n
  {
    if n >= 10 {
      var s := NatToString(n);
      assert s[..|s| - 1] == NatToString(n / 10);
      DigitsValueOfNatToString(n / 10);
    }
  }

  /** The longest prefix of decimal digits. */
  function DigitPrefix(s: string): (d: string)
    ensures AllDigits(d) && d <= s
    ensures |d| < |s| ==> !IsDigit(s[|d|])
  {
    if |s| == 0 || !IsDigit(s[0]) then ""
    else [s[0]] + DigitPrefix(s[1..])
  }

  /** The digit run stops exactly where the digits do. */
  lemma {:induction false} DigitPrefixOfDigits(s: string, tail: string)
    requires AllDigits(s)
    requires |tail| == 0 || !IsDigit(tail[0])
    ensures DigitPrefix(s + tail) == s
  {
    if |s| > 0 {
      DigitPrefixOfDigits(s[1..], tail);
      assert (s + tail)[1..] == s[1..] + tail;
    } else {
      assert s + tail == tail;
    }
  }

  predicate IsHexDigit(c: char)
  {
    IsDigit(c) || 'a' <= c <= 'f' || 'A' <= c <= 'F'
  }

  function HexDigitValue(c: char): nat
    requires IsHexDigit(c)
  {
    if IsDigit(c) then DigitValue(c)
    else if 'a' <= c <= 'f' then c as int - 'a' as int + 10
    else c as int - 'A' as int + 10
  }

  function HexPrefix(s: string): (d: string)
    ensures d <= s
    ensures forall i :: 0 <= i < |d| ==> IsHexDigit(d[i])
  {
    if |s| == 0 || !IsHexDigit(s[0]) then ""
    else [s[0]] + HexPrefix(s[1..])
  }

  function HexValue(s: string): nat
    requires forall i :: 0 <= i < |s| ==> IsHexDigit(s[i])
  {
    if |s| == 0 then 0
    else HexValue(s[..|s| - 1]) * 16 + HexDigitValue(s[|s| - 1])
  }

  /** The characters ECMAScript's StrWhiteSpaceChar admits: the WhiteSpace
      code points (tab, vertical tab, form feed, no-break space, byte order
      mark and every space separator) and the line terminators. */
  predicate IsJsWhitespace(c: char)
  {
    || c == '\t' || c == '\U{000B}' || c == '\U{000C}' || c == ' ' || c == '\U{00A0}'
    || c == '\U{FEFF}' || c == '\U{1680}' || ('\U{2000}' <= c <= '\U{200A}')
    || c == '\U{202F}' || c == '\U{205F}' || c == '\U{3000}'
    || c == '\n' || c == '\r' || c == '\U{2028}' || c == '\U{2029}'
  }

  function TrimStart(s: string): (t: string)
    ensures |t| <= |s| && t == s[|s| - |t|..]
    ensures |t| > 0 ==> !IsJsWhitespace(t[0])
  {
    if |s| > 0 && IsJsWhitespace(s[0]) then TrimStart(s[1..]) else s
  }

  /** `parseInt(s)` with no radix: leading white space is skipped, one sign
      is taken, a "0x" or "0X" prefix switches to base 16, and the longest
      run of digits that follows is read; with no digit at all the result is
      NaN, here `None`. */
  function ParseInt(s: string): Option<int>
  {
    ParseTrimmed(TrimStart(s))
  }

  /** `parseInt` after the white space: the sign, then the magnitude. */
  function ParseTrimmed(t: string): Option<int>
  {
    var negative := |t| > 0 && t[0] == '-';
    var body := if |t| > 0 && (t[0] == '-' || t[0] == '+') then t[1..] else t;
    match ParseMagnitude(body)
    case None => None
    case Some(m) => var v: int := m; Some(if negative then -v else v)
  }

  /** The unsigned part of `parseInt`: hexadecimal after "0x" or "0X",
      decimal otherwise, and no number when no digit follows. */
  function ParseMagnitude(body: string): Option<nat>
  {
    if |body| >= 2 && body[0] == '0' && (body[1] == 'x' || body[1] == 'X') then
      var h := HexPrefix(body[2..]);
      if h == "" then None else Some(HexValue(h))
    else
      var d := DigitPrefix(body);
      if d == "" then None else Some(DigitsValue(d))
  }

  /** `parseInt` reads back what decimal rendering writes. */
  lemma ParseIntOfIntToString(i: int)
    ensures ParseInt(IntToString(i)) == Some(i)
  {
    if i < 0 {
      var digits := NatToString(-i);
      DigitsValueOfNatToString(-i);
      ParseIntNegative(digits, -i);
    } else {
      DigitsValueOfNatToString(i);
      ParseIntNonNegative(NatToString(i), i);
    }
  }

  /** A run of digits is read as the number it denotes. */
  lemma ParseIntNonNegative(digits: string, value: nat)
    requires |digits| >= 1 && AllDigits(digits) && DigitsValue(digits) == value
    ensures ParseInt(digits) == Some(value)
  {
    assert IsDigit(digits[0]);
    ParseMagnitudeOfDigits(digits, value);
    ParseIntOfSigned(digits, value);
  }

  /** A minus sign and a run of digits are read as the negated number. */
  lemma ParseIntNegative(digits: string, value: nat)
    requires |digits| >= 1 && AllDigits(digits) && DigitsValue(digits) == value
    ensures ParseInt("-" + digits) == Some(-(value as int))
  {
    var s := "-" + digits;
    assert s[0] == '-' && s[1..] == digits;
    ParseMagnitudeOfDigits(digits, value);
    ParseIntOfSigned(s, value);
  }

  /** A text that starts with a sign or a digit is read as its sign and
      its magnitude. */
  lemma ParseIntOfSigned(s: string, value: nat)
    requires |s| > 0 && (s[0] == '-' || IsDigit(s[0]))
    requires ParseMagnitude(if s[0] == '-' then s[1..] else s) == Some(value)
    ensures ParseInt(s) == Some(if s[0] == '-' then -(value as int) else value)
  {
    assert !IsJsWhitespace(s[0]);
    TrimStartOfNonSpace(s);
  }

  /** Text that does not start with white space is left as it is. */
  lemma TrimStartOfNonSpace(s: string)
    requires |s| > 0 && !IsJsWhitespace(s[0])
    ensures TrimStart(s) == s
  {
  }

  lemma ParseMagnitudeOfDigits(digits: string, value: nat)
    requires |digits| >= 1 && AllDigits(digits) && DigitsValue(digits) == value
    ensures ParseMagnitude(digits) == Some(value)
  {
    assert DigitPrefix(digits) == digits by {
      DigitPrefixOfDigits(digits, "");
      assert digits + "" == digits;
    }
    assert |digits| >= 2 ==> IsDigit(digits[1]);
  }

  /** Decimal rendering never maps two integers to the same text. */
  lemma IntToStringInjective(a: int, b: int)
    ensures IntToString(a) == IntToString(b) ==> a == b
  {
    ParseIntOfIntToString(a);
    ParseIntOfIntToString(b);
  }
}
