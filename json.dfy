/** JSON values and `JSON.stringify`, which the frontend applies to every
    editor document before it crosses to the backend. A decoder for the
    compact text `Stringify` writes is its partner: decoding gives back the
    value, so the stringified payload loses nothing. */
module Json {
  import opened Wrappers
  import Strings

  /** A JSON value as an editor document (`JSONContent`) holds it. Object
      members are written in the order they are held, which is the order
      `JSON.stringify` uses for keys that are not array indices (such as
      "type", "content" and "attrs"); numbers are the integer-valued ones
      the documents carry. */
  datatype Json =
    | Null
    | Bool(b: bool)
    | Num(n: int)
    | Str(text: string)
    | Arr(items: seq<Json>)
    | Obj(members: seq<Member>)

  datatype Member = Member(key: string, value: Json)

  /** `JSON.stringify(v)`: compact text, no white space. */
  function Stringify(v: Json): string
    decreases v, 1
  {
    match v
    case Null => "null"
    case Bool(b) => if b then "true" else "false"
    case Num(n) => Strings.IntToString(n)
    case Str(t) => Quote(t)
    case Arr(items) => "[" + StringifyItems(items) + "]"
    case Obj(members) => "{" + StringifyMembers(members) + "}"
  }

  function StringifyItems(items: seq<Json>): string
    decreases items, 0
  {
    if |items| == 0 then ""
    else if |items| == 1 then Stringify(items[0])
    else Stringify(items[0]) + "," + StringifyItems(items[1..])
  }

  function StringifyMember(m: Member): string
    decreases m, 0
  {
    Quote(m.key) + ":" + Stringify(m.value)
  }

  function StringifyMembers(members: seq<Member>): string
    decreases members, 0
  {
    if |members| == 0 then ""
    else if |members| == 1 then StringifyMember(members[0])
    else StringifyMember(members[0]) + "," + StringifyMembers(members[1..])
  }

  /** A string in double quotes with its characters escaped. */
  function Quote(t: string): string
  {
    "\"" + Escape(t) + "\""
  }

  function Escape(t: string): string
  {
    if |t| == 0 then "" else EscapeChar(t[0]) + Escape(t[1..])
  }

  /** A lower-case hexadecimal digit. */
  function HexDigitChar(d: nat): (c: char)
    requires d < 16
    ensures Strings.IsHexDigit(c) && Strings.HexDigitValue(c) == d
  {
    if d < 10 then ('0' as int + d) as char else ('a' as int + d - 10) as char
  }

  /** The ECMAScript QuoteJSONString table: quote and backslash are escaped,
      the five control characters with a short form use it, every other
      control character becomes \u00 and two lower-case hex digits, and the
      rest stands for itself. */
  function EscapeChar(c: char): string
  {
    if c == '"' then "\\\""
    else if c == '\\' then "\\\\"
    else if c == '\U{0008}' then "\\b"
    else if c == '\U{000C}' then "\\f"
    else if c == '\n' then "\\n"
    else if c == '\r' then "\\r"
    else if c == '\t' then "\\t"
    else if c < ' ' then "\\u00" + [HexDigitChar(c as int / 16), HexDigitChar(c as int % 16)]
    else [c]
  }

  // ----- Decoding the compact text -----

  /** What may follow a complete value inside the text `Stringify` writes. */
  predicate AtValueEnd(rest: string)
  {
    |rest| == 0 || rest[0] == ',' || rest[0] == ']' || rest[0] == '}'
  }

  /** Reads the longest run of digits, which must not be empty, as the
      number it denotes. */
  function DecodeDigits(s: string): (r: Option<(nat, string)>)
    ensures r.Some? ==> |r.value.1| < |s|
  {
    var digits := Strings.DigitPrefix(s);
    if digits == "" then None else Some((Strings.DigitsValue(digits), s[|digits|..]))
  }

  /** Reads an optional minus sign and a run of digits. */
  function DecodeNumber(s: string): (r: Option<(Json, string)>)
    ensures r.Some? ==> |r.value.1| < |s|
  {
    if |s| > 0 && s[0] == '-' then
      match DecodeDigits(s[1..])
      case None => None
      case Some((m, rest)) => Some((Num(-(m as int)), rest))
    else
      match DecodeDigits(s)
      case None => None
      case Some((m, rest)) => Some((Num(m), rest))
  }

  /** Reads one value from the front of `s` and returns it with the text
      that follows it. */
  function DecodeValue(s: string): (r: Option<(Json, string)>)
    ensures r.Some? ==> |r.value.1| < |s|
    decreases |s|, 1
  {
    if |s| == 0 then None
    else if "null" <= s then Some((Null, s[4..]))
    else if "true" <= s then Some((Bool(true), s[4..]))
    else if "false" <= s then Some((Bool(false), s[5..]))
    else if s[0] == '-' || Strings.IsDigit(s[0]) then DecodeNumber(s)
    else if s[0] == '"' then
      match DecodeString(s[1..])
      case None => None
      case Some((t, rest)) => Some((Str(t), rest))
    else if s[0] == '[' then
      if |s| >= 2 && s[1] == ']' then Some((Arr([]), s[2..]))
      else
        match DecodeItems(s[1..])
        case None => None
        case Some((items, rest)) => Some((Arr(items), rest))
    else if s[0] == '{' then
      if |s| >= 2 && s[1] == '}' then Some((Obj([]), s[2..]))
      else
        match DecodeMembers(s[1..])
        case None => None
        case Some((members, rest)) => Some((Obj(members), rest))
    else None
  }

  /** Reads `value (, value)* ]`. */
  function DecodeItems(s: string): (r: Option<(seq<Json>, string)>)
    ensures r.Some? ==> |r.value.1| < |s|
    decreases |s|, 2
  {
    match DecodeValue(s)
    case None => None
    case Some((v, rest)) =>
      if |rest| > 0 && rest[0] == ']' then Some(([v], rest[1..]))
      else if |rest| > 0 && rest[0] == ',' then
        match DecodeItems(rest[1..])
        case None => None
        case Some((vs, rest')) => Some(([v] + vs, rest'))
      else None
  }

  /** Reads `"key":value`. */
  function DecodeMember(s: string): (r: Option<(Member, string)>)
    ensures r.Some? ==> |r.value.1| < |s|
    decreases |s|, 2
  {
    if |s| == 0 || s[0] != '"' then None
    else
      match DecodeString(s[1..])
      case None => None
      case Some((k, rest)) =>
        if |rest| == 0 || rest[0] != ':' then None
        else
          match DecodeValue(rest[1..])
          case None => None
          case Some((v, rest')) => Some((Member(k, v), rest'))
  }

  /** Reads `member (, member)* }`. */
  function DecodeMembers(s: string): (r: Option<(seq<Member>, string)>)
    ensures r.Some? ==> |r.value.1| < |s|
    decreases |s|, 3
  {
    match DecodeMember(s)
    case None => None
    case Some((m, rest)) =>
      if |rest| > 0 && rest[0] == '}' then Some(([m], rest[1..]))
      else if |rest| > 0 && rest[0] == ',' then
        match DecodeMembers(rest[1..])
        case None => None
        case Some((ms, rest')) => Some(([m] + ms, rest'))
      else None
  }

  /** Reads one possibly escaped character of a string body. */
  function DecodeChar(s: string): (r: Option<(char, string)>)
    ensures r.Some? ==> |r.value.1| < |s|
  {
    if |s| == 0 || s[0] == '"' || s[0] < ' ' then None
    else if s[0] != '\\' then Some((s[0], s[1..]))
    else if |s| < 2 then None
    else if s[1] == '"' then Some(('"', s[2..]))
    else if s[1] == '\\' then Some(('\\', s[2..]))
    else if s[1] == '/' then Some(('/', s[2..]))
    else if s[1] == 'b' then Some(('\U{0008}', s[2..]))
    else if s[1] == 'f' then Some(('\U{000C}', s[2..]))
    else if s[1] == 'n' then Some(('\n', s[2..]))
    else if s[1] == 'r' then Some(('\r', s[2..]))
    else if s[1] == 't' then Some(('\t', s[2..]))
    else if s[1] == 'u' && |s| >= 6 && forall i :: 2 <= i < 6 ==> Strings.IsHexDigit(s[i]) then
      var code := Strings.HexValue(s[2..6]);
      if code < 0xD800 || 0xE000 <= code < 0x11_0000 then Some((code as char, s[6..])) else None
    else None
  }

  /** Reads a string body up to and including its closing quote. */
  function DecodeString(s: string): (r: Option<(string, string)>)
    ensures r.Some? ==> |r.value.1| < |s|
    decreases |s|
  {
    if |s| > 0 && s[0] == '"' then Some(("", s[1..]))
    else
      match DecodeChar(s)
      case None => None
      case Some((c, rest)) =>
        match DecodeString(rest)
        case None => None
        case Some((t, rest')) => Some(([c] + t, rest'))
  }

  /** Decodes a whole text: one value and nothing after it. */
  function Decode(s: string): Option<Json>
  {
    match DecodeValue(s)
    case Some((v, rest)) => if rest == "" then Some(v) else None
    case None => None
  }

  // ----- Round trip -----

  lemma EscapeCharRoundTrip(c: char, tail: string)
    ensures DecodeChar(EscapeChar(c) + tail) == Some((c, tail))
  {
    if c == '"' || c == '\\' || c == '\U{0008}' || c == '\U{000C}' || c == '\n' || c == '\r' || c == '\t' {
      ShortEscapeRoundTrip(c, tail);
    } else if c < ' ' {
      UnicodeEscapeRoundTrip(c, tail);
    } else {
      assert (EscapeChar(c) + tail)[1..] == tail;
    }
  }

  lemma ShortEscapeRoundTrip(c: char, tail: string)
    requires c == '"' || c == '\\' || c == '\U{0008}' || c == '\U{000C}' || c == '\n' || c == '\r' || c == '\t'
    ensures DecodeChar(EscapeChar(c) + tail) == Some((c, tail))
  {
    var s := EscapeChar(c) + tail;
    assert |EscapeChar(c)| == 2 && s[0] == '\\';
    assert s[2..] == tail;
  }

  lemma UnicodeEscapeRoundTrip(c: char, tail: string)
    requires c < ' ' && c != '\U{0008}' && c != '\U{000C}' && c != '\n' && c != '\r' && c != '\t'
    ensures DecodeChar(EscapeChar(c) + tail) == Some((c, tail))
  {
    var hi, lo := c as int / 16, c as int % 16;
    var e := "\\u00" + [HexDigitChar(hi), HexDigitChar(lo)];
    assert EscapeChar(c) == e;
    var s := e + tail;
    assert s[0] == '\\' && s[1] == 'u';
    assert s[6..] == tail;
    var h := s[2..6];
    assert h == ['0', '0', HexDigitChar(hi), HexDigitChar(lo)];
    assert forall i :: 2 <= i < 6 ==> Strings.IsHexDigit(s[i]);
    HexOfEscape(hi, lo);
    assert Strings.HexValue(h) == c as int;
  }

  lemma HexOfEscape(hi: nat, lo: nat)
    requires hi < 2 && lo < 16
    ensures Strings.HexValue(['0', '0', HexDigitChar(hi), HexDigitChar(lo)]) == hi * 16 + lo
  {
    var h := ['0', '0', HexDigitChar(hi), HexDigitChar(lo)];
    assert h[..1] == ['0'] && h[..1][..0] == [];
    assert h[..2] == ['0', '0'] && h[..2][..1] == ['0'];
    assert h[..3] == ['0', '0', HexDigitChar(hi)] && h[..3][..2] == ['0', '0'];
    assert h[..|h| - 1] == h[..3];
    assert Strings.HexValue(h[..1]) == 0;
    assert Strings.HexValue(h[..2]) == 0;
    assert Strings.HexValue(h[..3]) == hi;
  }

  lemma {:induction false} QuoteRoundTrip(t: string, rest: string)
    ensures DecodeString(Escape(t) + "\"" + rest) == Some((t, rest))
    decreases |t|
  {
    if |t| == 0 {
      assert Escape(t) + "\"" + rest == "\"" + rest;
    } else {
      var tail := Escape(t[1..]) + "\"" + rest;
      assert Escape(t) + "\"" + rest == EscapeChar(t[0]) + tail;
      EscapeCharRoundTrip(t[0], tail);
      assert EscapeChar(t[0])[0] != '"';
      QuoteRoundTrip(t[1..], rest);
      assert [t[0]] + t[1..] == t;
    }
  }

  /** Decoding the text `Stringify` writes gives back the value, whatever
      legal continuation follows it. */
  lemma {:induction false} StringifyRoundTrip(v: Json, rest: string)
    requires AtValueEnd(rest)
    ensures DecodeValue(Stringify(v) + rest) == Some((v, rest))
    decreases v, 1
  {
    var s := Stringify(v) + rest;
    match v
    case Null =>
      assert s[4..] == rest;
    case Bool(b) =>
      if b {
        assert s[0] == 't' && !("null" <= s);
        assert s[4..] == rest;
      } else {
        assert s[0] == 'f' && !("null" <= s) && !("true" <= s);
        assert s[5..] == rest;
      }
    case Num(n) =>
      NumRoundTrip(n, rest);
    case Str(t) =>
      assert s == "\"" + (Escape(t) + "\"" + rest);
      assert s[0] == '"' && !("null" <= s) && !("true" <= s) && !("false" <= s);
      assert s[1..] == Escape(t) + "\"" + rest;
      QuoteRoundTrip(t, rest);
    case Arr(items) =>
      ArrRoundTrip(v, rest);
    case Obj(members) =>
      ObjRoundTrip(v, rest);
  }

  lemma NumRoundTrip(n: int, rest: string)
    requires AtValueEnd(rest)
    ensures DecodeValue(Stringify(Num(n)) + rest) == Some((Num(n), rest))
  {
    var s := Stringify(Num(n)) + rest;
    if n < 0 {
      var digits := Strings.NatToString(-n);
      assert s == "-" + (digits + rest) by {
        assert Stringify(Num(n)) == "-" + digits;
      }
      Strings.DigitsValueOfNatToString(-n);
      DecodeNegative(digits, rest, -n);
      DecodeValueOfNumber(s);
    } else {
      var digits := Strings.NatToString(n);
      assert s == digits + rest && Strings.IsDigit(s[0]) by {
        assert Stringify(Num(n)) == digits;
      }
      Strings.DigitsValueOfNatToString(n);
      DecodeNonNegative(digits, rest, n);
      DecodeValueOfNumber(s);
    }
  }

  /** A text that starts like a number is read by `DecodeNumber`. */
  lemma DecodeValueOfNumber(s: string)
    requires |s| > 0 && (s[0] == '-' || Strings.IsDigit(s[0]))
    ensures DecodeValue(s) == DecodeNumber(s)
  {
    assert !("null" <= s) && !("true" <= s) && !("false" <= s) by {
      assert "null"[0] == 'n' && "true"[0] == 't' && "false"[0] == 'f';
    }
  }

  /** A run of digits reads as the number it denotes. */
  lemma DecodeDigitsOf(digits: string, rest: string)
    requires |digits| >= 1 && Strings.AllDigits(digits)
    requires |rest| == 0 || !Strings.IsDigit(rest[0])
    ensures DecodeDigits(digits + rest) == Some((Strings.DigitsValue(digits), rest))
  {
    var s := digits + rest;
    assert Strings.DigitPrefix(s) == digits by {
      Strings.DigitPrefixOfDigits(digits, rest);
    }
    assert s[|digits|..] == rest;
  }

  lemma DecodeNonNegative(digits: string, rest: string, value: nat)
    requires |digits| >= 1 && Strings.AllDigits(digits) && Strings.DigitsValue(digits) == value
    requires |rest| == 0 || !Strings.IsDigit(rest[0])
    ensures DecodeNumber(digits + rest) == Some((Num(value), rest))
  {
    DecodeDigitsOf(digits, rest);
    assert (digits + rest)[0] != '-' by { assert Strings.IsDigit(digits[0]); }
  }

  /** A minus sign and a run of digits read as the negated number. */
  lemma DecodeNegative(digits: string, rest: string, value: nat)
    requires |digits| >= 1 && Strings.AllDigits(digits) && Strings.DigitsValue(digits) == value
    requires |rest| == 0 || !Strings.IsDigit(rest[0])
    ensures DecodeNumber("-" + (digits + rest)) == Some((Num(-(value as int)), rest))
  {
    var s := "-" + (digits + rest);
    assert s[1..] == digits + rest;
    DecodeDigitsOf(digits, rest);
    DecodeMinus(s, value, rest);
  }

  /** A minus sign followed by digits that read as `value`. */
  lemma DecodeMinus(s: string, value: nat, rest: string)
    requires |s| > 0 && s[0] == '-' && DecodeDigits(s[1..]) == Some((value, rest))
    ensures DecodeNumber(s) == Some((Num(-(value as int)), rest))
  {
  }

  lemma {:induction false} ArrRoundTrip(v: Json, rest: string)
    requires v.Arr? && AtValueEnd(rest)
    ensures DecodeValue(Stringify(v) + rest) == Some((v, rest))
    decreases v, 0
  {
    var s := Stringify(v) + rest;
    var items := v.items;
    if |items| == 0 {
      EnclosedShape('[', "", ']', rest);
      DecodeEmptyEnclosed(s);
    } else {
      var body := StringifyItems(items);
      EnclosedShape('[', body, ']', rest);
      ItemsRoundTrip(items, rest);
      StringifyItemsNotClosing(items);
      DecodeEnclosed(s, items, [], rest);
    }
  }

  lemma {:induction false} ObjRoundTrip(v: Json, rest: string)
    requires v.Obj? && AtValueEnd(rest)
    ensures DecodeValue(Stringify(v) + rest) == Some((v, rest))
    decreases v, 0
  {
    var s := Stringify(v) + rest;
    var members := v.members;
    if |members| == 0 {
      EnclosedShape('{', "", '}', rest);
      DecodeEmptyEnclosed(s);
    } else {
      var body := StringifyMembers(members);
      EnclosedShape('{', body, '}', rest);
      MembersRoundTrip(members, rest);
      DecodeEnclosed(s, [], members, rest);
    }
  }

  /** The text of a bracketed list: the opening bracket, the body, the
      closing bracket and whatever follows. */
  lemma EnclosedShape(open: char, body: string, close: char, rest: string)
    ensures var s := [open] + body + [close] + rest;
      |s| >= 2 && s[0] == open && s[1..] == body + [close] + rest
      && (body == "" ==> s[1] == close && s[2..] == rest)
      && (|body| > 0 ==> s[1] == body[0])
  {
    var s := [open] + body + [close] + rest;
    assert s == [open] + (body + [close] + rest);
    if body == "" {
      assert s == [open, close] + rest;
    }
  }

  /** How `DecodeValue` reads "[]" and "{}". */
  lemma DecodeEmptyEnclosed(s: string)
    requires |s| >= 2 && ((s[0] == '[' && s[1] == ']') || (s[0] == '{' && s[1] == '}'))
    ensures DecodeValue(s) == Some((if s[0] == '[' then Arr([]) else Obj([]), s[2..]))
  {
    assert !("null" <= s) && !("true" <= s) && !("false" <= s) by {
      assert "null"[0] == 'n' && "true"[0] == 't' && "false"[0] == 'f';
    }
  }

  /** How `DecodeValue` reads a non-empty array or object from what its
      items or members read. */
  lemma DecodeEnclosed(s: string, items: seq<Json>, members: seq<Member>, rest: string)
    requires |s| >= 2 && (s[0] == '[' || s[0] == '{')
    requires s[0] == '[' ==> s[1] != ']' && DecodeItems(s[1..]) == Some((items, rest))
    requires s[0] == '{' ==> s[1] != '}' && DecodeMembers(s[1..]) == Some((members, rest))
    ensures DecodeValue(s) == Some((if s[0] == '[' then Arr(items) else Obj(members), rest))
  {
    assert !("null" <= s) && !("true" <= s) && !("false" <= s) by {
      assert "null"[0] == 'n' && "true"[0] == 't' && "false"[0] == 'f';
    }
  }

  /** A non-empty list of items starts with a value, never with "]". */
  lemma StringifyItemsNotClosing(items: seq<Json>)
    requires |items| >= 1
    ensures |StringifyItems(items)| > 0 && StringifyItems(items)[0] != ']'
  {
    var first := Stringify(items[0]);
    assert StringifyItems(items)[..|first|] == first;
    StringifyStart(items[0]);
  }

  lemma StringifyStart(v: Json)
    ensures |Stringify(v)| > 0 && Stringify(v)[0] != ']' && Stringify(v)[0] != '}'
  {
    match v
    case Num(n) =>
      var s := Strings.IntToString(n);
      if n >= 0 { assert Strings.IsDigit(s[0]); }
    case _ =>
  }

  lemma {:induction false} ItemsRoundTrip(items: seq<Json>, rest: string)
    requires |items| >= 1 && AtValueEnd(rest)
    ensures DecodeItems(StringifyItems(items) + "]" + rest) == Some((items, rest))
    decreases items, 0
  {
    var s := StringifyItems(items) + "]" + rest;
    var first := Stringify(items[0]);
    if |items| == 1 {
      LastShape(first, ']', rest);
      StringifyRoundTrip(items[0], "]" + rest);
      DecodeLastItem(s, items[0], "]" + rest);
      assert [items[0]] == items;
    } else {
      var tail := StringifyItems(items[1..]);
      NextShape(first, tail, ']', rest);
      var after := "," + (tail + "]" + rest);
      StringifyRoundTrip(items[0], after);
      ItemsRoundTrip(items[1..], rest);
      DecodeNextItem(s, items[0], after, items[1..], rest);
      assert [items[0]] + items[1..] == items;
    }
  }

  lemma {:induction false} MembersRoundTrip(members: seq<Member>, rest: string)
    requires |members| >= 1 && AtValueEnd(rest)
    ensures DecodeMembers(StringifyMembers(members) + "}" + rest) == Some((members, rest))
    ensures StringifyMembers(members)[0] == '"'
    decreases members, 1
  {
    var s := StringifyMembers(members) + "}" + rest;
    var first := StringifyMember(members[0]);
    assert first[0] == '"' by {
      MemberText(members[0], "");
      assert first + "" == first;
    }
    if |members| == 1 {
      LastShape(first, '}', rest);
      MemberRoundTrip(members[0], "}" + rest);
      DecodeLastMember(s, members[0], "}" + rest);
      assert [members[0]] == members;
    } else {
      var tail := StringifyMembers(members[1..]);
      NextShape(first, tail, '}', rest);
      var after := "," + (tail + "}" + rest);
      MemberRoundTrip(members[0], after);
      MembersRoundTrip(members[1..], rest);
      DecodeNextMember(s, members[0], after, members[1..], rest);
      assert [members[0]] + members[1..] == members;
    }
  }

  lemma {:induction false} MemberRoundTrip(m: Member, rest: string)
    requires AtValueEnd(rest)
    ensures DecodeMember(StringifyMember(m) + rest) == Some((m, rest))
    decreases m, 0
  {
    var s := StringifyMember(m) + rest;
    var after := ":" + (Stringify(m.value) + rest);
    MemberText(m, rest);
    QuoteRoundTrip(m.key, after);
    StringifyRoundTrip(m.value, rest);
    DecodeMemberOfParts(s, m.key, after, m.value, rest);
  }

  /** The text of a member: a quote, the escaped key, a quote, a colon
      and the value. */
  lemma MemberText(m: Member, rest: string)
    ensures var s := StringifyMember(m) + rest;
      var after := ":" + (Stringify(m.value) + rest);
      |s| > 0 && s[0] == '"' && s[1..] == Escape(m.key) + "\"" + after
      && after[0] == ':' && after[1..] == Stringify(m.value) + rest
  {
    MemberTextShape(Escape(m.key), Stringify(m.value), rest);
  }

  lemma MemberTextShape(key: string, value: string, rest: string)
    ensures var s := "\"" + key + "\"" + ":" + value + rest;
      var after := ":" + (value + rest);
      |s| > 0 && s[0] == '"' && s[1..] == key + "\"" + after
      && after[0] == ':' && after[1..] == value + rest
  {
    var s := "\"" + key + "\"" + ":" + value + rest;
    assert s == "\"" + (key + "\"" + (":" + (value + rest)));
  }

  /** How `DecodeMember` reads a member, in terms of its two parts. */
  lemma DecodeMemberOfParts(s: string, key: string, after: string, value: Json, rest: string)
    requires |s| > 0 && s[0] == '"' && DecodeString(s[1..]) == Some((key, after))
    requires |after| > 0 && after[0] == ':' && DecodeValue(after[1..]) == Some((value, rest))
    ensures DecodeMember(s) == Some((Member(key, value), rest))
  {
  }

  /** The text of a list's last element before its closing bracket. */
  lemma LastShape(first: string, close: char, rest: string)
    ensures first + [close] + rest == first + ([close] + rest)
    ensures ([close] + rest)[0] == close && ([close] + rest)[1..] == rest
  {
    assert ([close] + rest)[1..] == rest;
  }

  /** The text of a list element followed by a comma and more elements. */
  lemma NextShape(first: string, tail: string, close: char, rest: string)
    ensures (first + "," + tail) + [close] + rest == first + ("," + (tail + [close] + rest))
    ensures |first + "," + tail| > 0 ==> (first + "," + tail)[0] == (first + ("," + (tail + [close] + rest)))[0]
    ensures ("," + (tail + [close] + rest))[0] == ','
    ensures ("," + (tail + [close] + rest))[1..] == tail + [close] + rest
  {
    assert (first + "," + tail) + [close] + rest == first + ("," + (tail + [close] + rest));
  }

  lemma DecodeLastItem(s: string, v: Json, after: string)
    requires DecodeValue(s) == Some((v, after)) && |after| > 0 && after[0] == ']'
    ensures DecodeItems(s) == Some(([v], after[1..]))
  {
  }

  lemma DecodeNextItem(s: string, v: Json, after: string, vs: seq<Json>, rest: string)
    requires DecodeValue(s) == Some((v, after)) && |after| > 0 && after[0] == ','
    requires DecodeItems(after[1..]) == Some((vs, rest))
    ensures DecodeItems(s) == Some(([v] + vs, rest))
  {
  }

  lemma DecodeLastMember(s: string, m: Member, after: string)
    requires DecodeMember(s) == Some((m, after)) && |after| > 0 && after[0] == '}'
    ensures DecodeMembers(s) == Some(([m], after[1..]))
  {
  }

  lemma DecodeNextMember(s: string, m: Member, after: string, ms: seq<Member>, rest: string)
    requires DecodeMember(s) == Some((m, after)) && |after| > 0 && after[0] == ','
    requires DecodeMembers(after[1..]) == Some((ms, rest))
    ensures DecodeMembers(s) == Some(([m] + ms, rest))
  {
  }


  /** The whole stringified text decodes to the value it came from; in
      particular `JSON.stringify` never maps two values to one text. */
  lemma DecodeStringify(v: Json)
    ensures Decode(Stringify(v)) == Some(v)
  {
    StringifyRoundTrip(v, "");
    assert Stringify(v) + "" == Stringify(v);
  }

  /** `JSON.stringify` of a form field that may be undefined: undefined
      stays undefined and a document decodes back to itself. */
  function StringifyOptional(v: Option<Json>): (r: Option<string>)
    ensures r.Some? <==> v.Some?
    ensures v.Some? ==> Decode(r.value) == Some(v.value)
  {
    match v
    case None => None
    case Some(d) => DecodeStringify(d); Some(Stringify(d))
  }

  lemma StringifyInjective(a: Json, b: Json)
    ensures Stringify(a) == Stringify(b) ==> a == b
  {
    DecodeStringify(a);
    DecodeStringify(b);
  }
}
