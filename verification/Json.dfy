/** The JSON tokens of src/nxt/json.hpp: what a text means from an offset on, the
    reader that finds it out through a cursor, and the string writer. A `char`
    is one code unit of the text; decoded strings are UTF-8, one byte a char. */
module Json {
  import opened Basics
  import Utf8

  /** A value read, and the offset after it. */
  datatype Parsed<T> = Got(value: T, next: nat) | Bad

  // ----- whitespace, digits -----

  predicate IsWs(c: char) {
    c == ' ' || c == '\n' || c == '\r' || c == '\t'
  }

  ghost function SkipWs(s: string, i: nat): (r: nat)
    requires i <= |s|
    ensures i <= r <= |s| && (r < |s| ==> !IsWs(s[r]))
    ensures forall k :: i <= k < r ==> IsWs(s[k])
    decreases |s| - i
  {
    if i < |s| && IsWs(s[i]) then SkipWs(s, i + 1) else i
  }

  function HexValue(c: char): (r: Option<nat>)
    ensures r.Some? ==> r.value < 16
  {
    if '0' <= c <= '9' then Some(c as int - '0' as int)
    else if 'a' <= c <= 'f' then Some(c as int - 'a' as int + 10)
    else if 'A' <= c <= 'F' then Some(c as int - 'A' as int + 10)
    else None
  }

  /** The number `n` hexadecimal digits at `i` stand for. */
  ghost function Hex(s: string, i: nat, n: nat): (r: Option<nat>)
    requires i <= |s|
  {
    if n == 0 then Some(0)
    else if |s| < i + n || Hex(s, i, n - 1).None? || HexValue(s[i + n - 1]).None? then None
    else Some(Hex(s, i, n - 1).value * 16 + HexValue(s[i + n - 1]).value)
  }

  lemma {:induction false} HexBound(s: string, i: nat)
    requires i <= |s|
    ensures Hex(s, i, 4).Some? ==> Hex(s, i, 4).value < 0x1_0000
  {
    assert Hex(s, i, 0) == Some(0);
    if Hex(s, i, 4).Some? {
      assert Hex(s, i, 3).Some?;
      assert Hex(s, i, 2).Some?;
      assert Hex(s, i, 1).Some?;
      assert Hex(s, i, 1).value < 16;
      assert Hex(s, i, 2).value < 256;
      assert Hex(s, i, 3).value < 4096;
    }
  }

  lemma {:induction false} HexShort(s: string, i: nat, m: nat, n: nat)
    requires i <= |s| && m <= n && Hex(s, i, m).None?
    ensures Hex(s, i, n).None?
  {
    if m < n {
      HexShort(s, i, m, n - 1);
    }
  }

  // ----- string literals -----

  function Units(bytes: seq<byte>): string {
    seq(|bytes|, k requires 0 <= k < |bytes| => bytes[k] as char)
  }

  /** What a backslash and this character stand for. */
  function Escape(c: char): Option<char> {
    match c
    case '"' => Some('"')
    case '\\' => Some('\\')
    case '/' => Some('/')
    case 'b' => Some(8 as char)
    case 'f' => Some(12 as char)
    case 'n' => Some('\n')
    case 'r' => Some('\r')
    case 't' => Some('\t')
    case _ => None
  }

  /** A `\u` escape, or a pair of them, whose digits begin at `i`. */
  ghost function UnicodeEscape(s: string, i: nat): (r: Parsed<string>)
    requires i <= |s|
    ensures r.Got? ==> i < r.next <= |s|
  {
    HexBound(s, i);
    var cp := Hex(s, i, 4);
    if cp.None? then Bad
    else if 0xD800 <= cp.value <= 0xDBFF then
      if i + 6 <= |s| && s[i + 4] == '\\' && s[i + 5] == 'u' then
        var low := Hex(s, i + 6, 4);
        if low.Some? && 0xDC00 <= low.value <= 0xDFFF then
          Got(Units(Utf8.Encode(0x10000 + (cp.value - 0xD800) * 1024 + (low.value - 0xDC00))), i + 10)
        else Bad
      else Bad
    else if 0xDC00 <= cp.value <= 0xDFFF then Bad
    else Got(Units(Utf8.Encode(cp.value)), i + 4)
  }

  /** One character of a literal: itself, or an escape. */
  ghost function Unit(s: string, i: nat): (r: Parsed<string>)
    requires i < |s|
    ensures r.Got? ==> i < r.next <= |s|
  {
    if (s[i] as int) < 0x20 then Bad
    else if s[i] != '\\' then Got([s[i]], i + 1)
    else if i + 1 == |s| then Bad
    else if s[i + 1] == 'u' then UnicodeEscape(s, i + 2)
    else if Escape(s[i + 1]).Some? then Got([Escape(s[i + 1]).value], i + 2)
    else Bad
  }

  ghost function Prepend(text: string, rest: Parsed<string>): Parsed<string> {
    if rest.Got? then Got(text + rest.value, rest.next) else Bad
  }

  /** The rest of a literal, from after the opening quote to after the closing one. */
  ghost function StringBody(s: string, i: nat): (r: Parsed<string>)
    requires i <= |s|
    ensures r.Got? ==> i < r.next <= |s|
    decreases |s| - i
  {
    if i == |s| then Bad
    else if s[i] == '"' then Got("", i + 1)
    else
      var u := Unit(s, i);
      if u.Bad? then Bad else Prepend(u.value, StringBody(s, u.next))
  }

  // ----- tokens -----

  datatype Token =
    | ObjectBegin | ObjectEnd | ArrayBegin | ArrayEnd | Colon | Comma
    | Text(text: string) | Number(text: string) | Boolean(value: bool) | Null

  datatype Lexed = End | Fault | Tok(token: Token, next: nat)

  predicate NumberChar(c: char) {
    '0' <= c <= '9' || c == '.' || c == 'e' || c == 'E' || c == '+' || c == '-'
  }

  ghost function NumberEnd(s: string, i: nat): (r: nat)
    requires i <= |s|
    ensures i <= r <= |s| && (r < |s| ==> !NumberChar(s[r]))
    ensures forall k :: i <= k < r ==> NumberChar(s[k])
    decreases |s| - i
  {
    if i < |s| && NumberChar(s[i]) then NumberEnd(s, i + 1) else i
  }

  /** `tail` stands at `i`. */
  ghost predicate At(s: string, i: nat, tail: string) {
    i + |tail| <= |s| && forall k :: 0 <= k < |tail| ==> s[i + k] == tail[k]
  }

  function Mark(c: char): Option<Token> {
    match c
    case '{' => Some(ObjectBegin)
    case '}' => Some(ObjectEnd)
    case '[' => Some(ArrayBegin)
    case ']' => Some(ArrayEnd)
    case ':' => Some(Colon)
    case ',' => Some(Comma)
    case _ => None
  }

  /** The token that begins exactly at `i`. */
  ghost function TokenAt(s: string, i: nat): (r: Lexed)
    requires i < |s|
    ensures !r.End? && (r.Tok? ==> i < r.next <= |s|)
  {
    var c := s[i];
    if Mark(c).Some? then Tok(Mark(c).value, i + 1)
    else if c == '"' then
      var body := StringBody(s, i + 1);
      if body.Got? then Tok(Text(body.value), body.next) else Fault
    else if c == 't' then if At(s, i + 1, "rue") then Tok(Boolean(true), i + 4) else Fault
    else if c == 'f' then if At(s, i + 1, "alse") then Tok(Boolean(false), i + 5) else Fault
    else if c == 'n' then if At(s, i + 1, "ull") then Tok(Null, i + 4) else Fault
    else if '0' <= c <= '9' || c == '-' then
      var e := NumberEnd(s, i + 1);
      Tok(Number(s[i..e]), e)
    else Fault
  }

  /** The next token, whitespace skipped. */
  ghost function Next(s: string, i: nat): (r: Lexed)
    requires i <= |s|
    ensures r.Tok? ==> i < r.next <= |s|
  {
    var k := SkipWs(s, i);
    if k == |s| then End else TokenAt(s, k)
  }

  // ----- the reader -----

  class StringReader {
    const input: string
    var offset: nat

    constructor (input: string)
      ensures this.input == input && offset == 0
    {
      this.input := input;
      offset := 0;
    }

    method Peek() returns (c: Option<char>)
      ensures c == if offset < |input| then Some(input[offset]) else None
    {
      return if offset >= |input| then None else Some(input[offset]);
    }

    method Take() returns (c: Option<char>)
      modifies this
      ensures c == if old(offset) < |input| then Some(input[old(offset)]) else None
      ensures offset == old(offset) + if c.Some? then 1 else 0
    {
      if offset >= |input| {
        return None;
      }
      c := Some(input[offset]);
      offset := offset + 1;
    }
  }

  method SkipWhitespace(input: StringReader)
    requires input.offset <= |input.input|
    modifies input
    ensures input.offset == SkipWs(input.input, old(input.offset))
  {
    ghost var goal := SkipWs(input.input, input.offset);
    var ch := input.Peek();
    while ch.Some?
      invariant input.offset <= |input.input|
      invariant ch == if input.offset < |input.input| then Some(input.input[input.offset]) else None
      invariant SkipWs(input.input, input.offset) == goal
      decreases |input.input| - input.offset
    {
      if !IsWs(ch.value) {
        return;
      }
      var _ := input.Take();
      ch := input.Peek();
    }
  }

  /** `read_u16_escape`; `None` is the exception. */
  method ReadHex(input: StringReader) returns (r: Option<nat>)
    requires input.offset <= |input.input|
    modifies input
    ensures r == Hex(input.input, old(input.offset), 4)
    ensures r.Some? ==> input.offset == old(input.offset) + 4 <= |input.input|
  {
    var value: nat := 0;
    ghost var start := input.offset;
    for i := 0 to 4
      invariant input.offset == start + i <= |input.input|
      invariant Hex(input.input, start, i) == Some(value)
    {
      var ch := input.Take();
      if ch.None? {
        HexShort(input.input, start, i + 1, 4);
        return None;
      }
      var hex := HexValue(ch.value);
      if hex.None? {
        HexShort(input.input, start, i + 1, 4);
        return None;
      }
      value := value * 16 + hex.value;
    }
    r := Some(value);
  }

  /** The `u` case of `read_string_body`: the text appended. */
  method ReadUnicode(input: StringReader) returns (r: Option<string>)
    requires input.offset <= |input.input|
    modifies input
    ensures var u := UnicodeEscape(input.input, old(input.offset));
            if u.Got? then r == Some(u.value) && input.offset == u.next else r.None?
  {
    ghost var i := input.offset;
    HexBound(input.input, i);
    hide Hex;
    var hex := ReadHex(input);
    if hex.None? {
      return None;
    }
    var cp := hex.value;
    if 0xD800 <= cp <= 0xDBFF {
      var slash := input.Take();
      if slash != Some('\\') {
        return None;
      }
      var u := input.Take();
      if u != Some('u') {
        return None;
      }
      var low := ReadHex(input);
      if low.None? || low.value < 0xDC00 || low.value > 0xDFFF {
        return None;
      }
      cp := 0x10000 + (cp - 0xD800) * 1024 + (low.value - 0xDC00);
    } else if 0xDC00 <= cp <= 0xDFFF {
      return None;
    }
    r := Some(Units(Utf8.Encode(cp)));
  }

  /** One round of the loop: the character at `i` goes behind what was read. */
  lemma BodyStep(s: string, out: string, i: nat)
    requires i <= |s|
    ensures Prepend("", StringBody(s, i)) == StringBody(s, i)
    ensures i == |s| ==> Prepend(out, StringBody(s, i)).Bad?
    ensures i < |s| && s[i] == '"' ==> Prepend(out, StringBody(s, i)) == Got(out, i + 1)
    ensures i < |s| && s[i] != '"' ==>
              var u := Unit(s, i);
              Prepend(out, StringBody(s, i)) ==
              if u.Bad? then Bad else Prepend(out + u.value, StringBody(s, u.next))
  {
    var body := StringBody(s, i);
    assert body.Got? ==> "" + body.value == body.value;
    if i < |s| && s[i] == '"' {
      assert out + "" == out;
    } else if i < |s| && Unit(s, i).Got? {
      var u := Unit(s, i);
      var rest := StringBody(s, u.next);
      if rest.Got? {
        assert out + (u.value + rest.value) == (out + u.value) + rest.value;
      }
    }
  }

  /** `read_string_body`. */
  method ReadStringBody(input: StringReader) returns (r: Option<string>)
    requires input.offset <= |input.input|
    modifies input
    ensures var body := StringBody(input.input, old(input.offset));
            if body.Got? then r == Some(body.value) && input.offset == body.next else r.None?
  {
    hide StringBody, Prepend, UnicodeEscape, Escape;
    var out := "";
    ghost var goal := StringBody(input.input, input.offset);
    BodyStep(input.input, out, input.offset);
    while true
      invariant input.offset <= |input.input|
      invariant goal == Prepend(out, StringBody(input.input, input.offset))
      decreases |input.input| - input.offset
    {
      BodyStep(input.input, out, input.offset);
      var ch := input.Take();
      if ch.None? {
        return None;
      }
      if ch.value == '"' {
        return Some(out);
      }
      if ch.value as int < 0x20 {
        return None;
      }
      if ch.value != '\\' {
        out := out + [ch.value];
        continue;
      }
      var escaped := input.Take();
      if escaped.None? {
        return None;
      }
      if escaped.value == 'u' {
        var text := ReadUnicode(input);
        if text.None? {
          return None;
        }
        out := out + text.value;
      } else {
        var plain := Escape(escaped.value);
        if plain.None? {
          return None;
        }
        out := out + [plain.value];
      }
    }
  }

  /** `read_number_text`. */
  method ReadNumberText(input: StringReader, first: char) returns (out: string)
    requires 0 < input.offset <= |input.input| && first == input.input[input.offset - 1]
    modifies input
    ensures input.offset == NumberEnd(input.input, old(input.offset))
    ensures out == input.input[old(input.offset) - 1..input.offset]
  {
    ghost var start := input.offset;
    ghost var goal := NumberEnd(input.input, start);
    out := [first];
    var ch := input.Peek();
    while ch.Some?
      invariant start <= input.offset <= |input.input|
      invariant ch == if input.offset < |input.input| then Some(input.input[input.offset]) else None
      invariant NumberEnd(input.input, input.offset) == goal
      invariant out == input.input[start - 1..input.offset]
      decreases |input.input| - input.offset
    {
      if !NumberChar(ch.value) {
        break;
      }
      out := out + [ch.value];
      var _ := input.Take();
      ch := input.Peek();
    }
  }

  /** `read_literal_tail`. */
  method ReadLiteralTail(input: StringReader, tail: string) returns (ok: bool)
    requires input.offset <= |input.input|
    modifies input
    ensures ok <==> At(input.input, old(input.offset), tail)
    ensures ok ==> input.offset == old(input.offset) + |tail|
  {
    ghost var start := input.offset;
    for i := 0 to |tail|
      invariant input.offset == start + i <= |input.input|
      invariant forall k :: 0 <= k < i ==> input.input[start + k] == tail[k]
    {
      var ch := input.Take();
      if ch != Some(tail[i]) {
        return false;
      }
    }
    return true;
  }

  /** `read_token`: a token, the end (an empty optional), or an exception. */
  method ReadToken(input: StringReader) returns (r: Lexed)
    requires input.offset <= |input.input|
    modifies input
    ensures r == Next(input.input, old(input.offset))
    ensures r.Tok? ==> input.offset == r.next
    ensures r.End? ==> input.offset == |input.input|
  {
    SkipWhitespace(input);
    ghost var i := input.offset;
    hide StringBody, At, NumberEnd, SkipWs;
    var ch := input.Take();
    if ch.None? {
      return End;
    }
    var mark := Mark(ch.value);
    if mark.Some? {
      return Tok(mark.value, input.offset);
    }
    var ok := false;
    match ch.value {
      case '"' =>
        var body := ReadStringBody(input);
        return if body.Some? then Tok(Text(body.value), input.offset) else Fault;
      case 't' =>
        ok := ReadLiteralTail(input, "rue");
        if ok {
          return Tok(Boolean(true), input.offset);
        }
      case 'f' =>
        ok := ReadLiteralTail(input, "alse");
        if ok {
          return Tok(Boolean(false), input.offset);
        }
      case 'n' =>
        ok := ReadLiteralTail(input, "ull");
        if ok {
          return Tok(Null, input.offset);
        }
      case _ =>
        if '0' <= ch.value <= '9' || ch.value == '-' {
          var text := ReadNumberText(input, ch.value);
          return Tok(Number(text), input.offset);
        }
    }
    return Fault;
  }
}
