/** `writer` of src/nxt/json.hpp, and the array printer built on it. */
module JsonWriter {
  import opened Basics
  import opened Json
  import Utf8

  /** The digits of `hex`. */
  function HexDigit(v: nat): char
    requires v < 16
  {
    "0123456789abcdef"[v]
  }

  /** How a literal spells one character. */
  function Escaped(c: char): string {
    if c == '"' then "\\\""
    else if c == '\\' then "\\\\"
    else if c == 8 as char then "\\b"
    else if c == 12 as char then "\\f"
    else if c == '\n' then "\\n"
    else if c == '\r' then "\\r"
    else if c == '\t' then "\\t"
    else if (c as int) < 0x20 then "\\u00" + [HexDigit(c as int / 16), HexDigit(c as int % 16)]
    else [c]
  }

  ghost function Body(text: string): string {
    if text == "" then "" else Body(text[..|text| - 1]) + Escaped(text[|text| - 1])
  }

  ghost function Joined(values: seq<string>): string {
    if values == [] then ""
    else if |values| == 1 then values[0]
    else Joined(values[..|values| - 1]) + "," + values[|values| - 1]
  }

  class Writer {
    var out: string

    constructor ()
      ensures out == ""
    {
      out := "";
    }

    method Raw(text: string)
      modifies this
      ensures out == old(out) + text
    {
      out := out + text;
    }

    method Character(c: char)
      modifies this
      ensures out == old(out) + [c]
    {
      out := out + [c];
    }

    /** `writer::string`. */
    method String(text: string)
      modifies this
      ensures out == old(out) + "\"" + Body(text) + "\""
    {
      hide Escaped;
      ghost var before := out;
      out := out + "\"";
      for i := 0 to |text|
        invariant out == before + "\"" + Body(text[..i])
      {
        assert text[..i + 1][..i] == text[..i];
        out := out + Escaped(text[i]);
      }
      assert text[..|text|] == text;
      out := out + "\"";
    }
  }

  /** `write_raw_json_array`. */
  method WriteRawJsonArray(json: Writer, values: seq<string>)
    modifies json
    ensures json.out == old(json.out) + "[" + Joined(values) + "]"
  {
    ghost var before := json.out;
    json.Character('[');
    for i := 0 to |values|
      invariant json.out == before + "[" + Joined(values[..i])
    {
      assert values[..i + 1][..i] == values[..i];
      if i != 0 {
        json.Character(',');
      }
      json.Raw(values[i]);
    }
    assert values[..|values|] == values;
    json.Character(']');
  }

  // ----- reading a written literal back -----

  lemma HexDigitValue(v: nat)
    requires v < 16
    ensures HexValue(HexDigit(v)) == Some(v)
  {
  }

  lemma UnitRoundTrip(s: string, i: nat, c: char)
    requires At(s, i, Escaped(c))
    ensures i < |s| && s[i] != '"' && Unit(s, i) == Got([c], i + |Escaped(c)|)
  {
    var e := Escaped(c);
    assert s[i + 0] == e[0];
    if |e| == 6 {
      ControlRoundTrip(s, i, c);
    } else if |e| > 1 {
      assert s[i + 1] == e[1];
    }
  }

  lemma ControlRoundTrip(s: string, i: nat, c: char)
    requires At(s, i, Escaped(c)) && |Escaped(c)| == 6
    ensures Unit(s, i) == Got([c], i + 6)
  {
    var e := Escaped(c);
    var v := c as int;
    assert e == "\\u00" + [HexDigit(v / 16), HexDigit(v % 16)];
    assert s[i + 0] == e[0] && s[i + 1] == e[1] && s[i + 2] == e[2];
    assert s[i + 3] == e[3] && s[i + 4] == e[4] && s[i + 5] == e[5];
    HexDigitValue(v / 16);
    HexDigitValue(v % 16);
    hide HexDigit, HexValue, Hex, Escaped;
    EscapeValue(s, i + 2, v);
    assert Units(Utf8.Encode(v)) == [c];
  }

  lemma EscapeValue(s: string, i: nat, v: nat)
    requires i + 4 <= |s| && v < 0x20 && s[i] == '0' && s[i + 1] == '0'
    requires HexValue(s[i + 2]) == Some(v / 16) && HexValue(s[i + 3]) == Some(v % 16)
    ensures Hex(s, i, 4) == Some(v)
  {
    assert Hex(s, i, 0) == Some(0);
    assert Hex(s, i, 1) == Some(0);
    assert Hex(s, i, 2) == Some(0);
    assert Hex(s, i, 3) == Some(v / 16);
  }

  ghost function Tail(text: string): string {
    if text == "" then "" else Escaped(text[0]) + Tail(text[1..])
  }

  lemma {:induction false} BodyTail(a: string, b: string)
    ensures Body(a) + Tail(b) == Body(a + b)
    decreases |b|
  {
    hide Escaped;
    if b == "" {
      assert a + b == a;
    } else {
      var a' := a + [b[0]];
      assert a'[..|a|] == a;
      BodyTail(a', b[1..]);
      assert a' + b[1..] == a + b;
      assert Body(a') == Body(a) + Escaped(b[0]);
    }
  }

  lemma AtSplit(s: string, i: nat, a: string, b: string)
    requires At(s, i, a + b)
    ensures At(s, i, a) && At(s, i + |a|, b)
  {
    forall k | 0 <= k < |a|
      ensures s[i + k] == a[k]
    {
      assert (a + b)[k] == a[k];
    }
    forall k | 0 <= k < |b|
      ensures s[i + |a| + k] == b[k]
    {
      assert s[i + (|a| + k)] == (a + b)[|a| + k];
    }
  }

  lemma {:induction false} TailRoundTrip(s: string, i: nat, text: string)
    requires At(s, i, Tail(text) + "\"")
    ensures StringBody(s, i) == Got(text, i + |Tail(text)| + 1)
    decreases |text|
  {
    hide Escaped, Unit;
    if text == "" {
      assert (Tail(text) + "\"")[0] == s[i + 0];
    } else {
      var e, rest := Escaped(text[0]), Tail(text[1..]);
      assert Tail(text) + "\"" == e + (rest + "\"");
      hide At;
      AtSplit(s, i, e, rest + "\"");
      UnitRoundTrip(s, i, text[0]);
      TailRoundTrip(s, i + |e|, text[1..]);
      assert [text[0]] + text[1..] == text;
    }
  }

  /** Wherever a literal written by `writer::string` stands in a text, the token
      there is the string that was written, and it ends where the literal does. */
  lemma StringRoundTrip(before: string, text: string, after: string)
    ensures var s := before + "\"" + Body(text) + "\"" + after;
            Next(s, |before|) == Tok(Text(text), |before| + |Body(text)| + 2)
  {
    var s := before + "\"" + Body(text) + "\"" + after;
    BodyIsTail(text);
    hide Tail, Body, Next;
    var t := Tail(text) + "\"";
    assert s == (before + "\"") + t + after;
    AtMiddle(before + "\"", t, after);
    TailRoundTrip(s, |before| + 1, text);
    QuoteToken(s, |before|);
  }

  lemma BodyIsTail(text: string)
    ensures Body(text) == Tail(text)
  {
    BodyTail("", text);
    assert "" + text == text && Body("") + Tail(text) == Tail(text);
  }

  lemma QuoteToken(s: string, i: nat)
    requires i < |s| && s[i] == '"'
    ensures Next(s, i) == var body := StringBody(s, i + 1);
                          if body.Got? then Tok(Text(body.value), body.next) else Fault
  {
    hide StringBody;
  }

  lemma AtMiddle(a: string, b: string, c: string)
    ensures At(a + b + c, |a|, b)
  {
  }
}
