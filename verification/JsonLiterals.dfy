/** String literals by their spelling: what a JSON string may look like, and what it
    stands for, said without the reader of Json.dfy; the reader takes exactly these. */
module JsonLiterals {
  import opened Basics
  import opened Json
  import opened JsonWriter
  import Utf8

  /** A hexadecimal digit in either case. */
  datatype Digit = Digit(value: nat, upper: bool)

  /** A character as itself, the `k`th two-character escape, an escape of a code
      point of four digits, or of one beyond them as a surrogate pair. */
  datatype Piece =
    | Plain(c: char)
    | Short(k: nat)
    | Code(cp: nat, digits: seq<Digit>)
    | Pair(cp: nat, high: seq<Digit>, low: seq<Digit>)

  const Names: string := "\"\\/bfnrt"
  const Codes: seq<byte> := [0x22, 0x5C, 0x2F, 8, 12, 10, 13, 9]

  ghost predicate FourDigits(ds: seq<Digit>, v: nat) {
    && |ds| == 4 && (forall k :: 0 <= k < 4 ==> ds[k].value < 16)
    && v == ds[0].value * 4096 + ds[1].value * 256 + ds[2].value * 16 + ds[3].value
  }

  /** The digits spell what the piece says; a surrogate comes only in a pair. */
  ghost predicate Proper(p: Piece) {
    match p
    case Plain(c) => c as int >= 0x20 && c != '"' && c != '\\'
    case Short(k) => k < 8
    case Code(cp, digits) => FourDigits(digits, cp) && (cp < 0xD800 || cp > 0xDFFF)
    case Pair(cp, high, low) =>
      && 0x10000 <= cp <= 0x10FFFF
      && FourDigits(high, 0xD800 + (cp - 0x10000) / 1024) && FourDigits(low, 0xDC00 + (cp - 0x10000) % 1024)
  }

  ghost function DigitChar(d: Digit): char {
    if d.value >= 16 then '?' else (if d.upper then "0123456789ABCDEF" else "0123456789abcdef")[d.value]
  }

  ghost function Digits(ds: seq<Digit>): string {
    seq(|ds|, k requires 0 <= k < |ds| => DigitChar(ds[k]))
  }

  ghost function Spelling(p: Piece): string {
    match p
    case Plain(c) => [c]
    case Short(k) => ['\\', if k < 8 then Names[k] else '?']
    case Code(_, digits) => "\\u" + Digits(digits)
    case Pair(_, high, low) => "\\u" + (Digits(high) + ("\\u" + Digits(low)))
  }

  /** One char a byte. */
  ghost function Bytewise(bytes: seq<byte>): string {
    if bytes == [] then "" else [bytes[0] as char] + Bytewise(bytes[1..])
  }

  ghost function Sense(p: Piece): string
    requires Proper(p)
  {
    match p
    case Plain(c) => [c]
    case Short(k) => [Codes[k] as char]
    case Code(cp, _) => Bytewise(Utf8.Encode(cp))
    case Pair(cp, _, _) => Bytewise(Utf8.Encode(cp))
  }

  ghost predicate AllProper(ps: seq<Piece>) {
    forall k :: 0 <= k < |ps| ==> Proper(ps[k])
  }

  /** What stands between the quotes. */
  ghost function Spellings(ps: seq<Piece>): string {
    if ps == [] then "" else Spelling(ps[0]) + Spellings(ps[1..])
  }

  ghost function Meaning(ps: seq<Piece>): string
    requires AllProper(ps)
  {
    if ps == [] then "" else Sense(ps[0]) + Meaning(ps[1..])
  }

  ghost function Quoted(ps: seq<Piece>): string {
    "\"" + (Spellings(ps) + "\"")
  }

  // ----- digits -----

  lemma {:induction false} BytewiseIs(bytes: seq<byte>)
    ensures Bytewise(bytes) == Units(bytes)
  {
    if bytes != [] {
      BytewiseIs(bytes[1..]);
      assert Units(bytes) == [bytes[0] as char] + Units(bytes[1..]);
    }
  }

  lemma DigitRead(d: Digit)
    requires d.value < 16
    ensures HexValue(DigitChar(d)) == Some(d.value)
  {
  }

  lemma DigitFound(c: char) returns (d: Digit)
    requires HexValue(c).Some?
    ensures d.value == HexValue(c).value && DigitChar(d) == c
  {
    d := Digit(HexValue(c).value, 'A' <= c <= 'F');
  }

  lemma HexFour(s: string, i: nat)
    requires i + 4 <= |s|
    ensures Hex(s, i, 4).Some? <==>
            && HexValue(s[i]).Some? && HexValue(s[i + 1]).Some?
            && HexValue(s[i + 2]).Some? && HexValue(s[i + 3]).Some?
    ensures Hex(s, i, 4).Some? ==>
              Hex(s, i, 4).value == HexValue(s[i]).value * 4096 + HexValue(s[i + 1]).value * 256
                                    + HexValue(s[i + 2]).value * 16 + HexValue(s[i + 3]).value
  {
    hide HexValue;
    assert Hex(s, i, 0) == Some(0);
    assert s[i + 1 - 1] == s[i];
    assert Hex(s, i, 1) == HexValue(s[i]);
    assert Hex(s, i, 2).Some? <==> Hex(s, i, 1).Some? && HexValue(s[i + 1]).Some?;
    assert Hex(s, i, 3).Some? <==> Hex(s, i, 2).Some? && HexValue(s[i + 2]).Some?;
    assert Hex(s, i, 4).Some? <==> Hex(s, i, 3).Some? && HexValue(s[i + 3]).Some?;
  }

  lemma DigitsRead(s: string, i: nat, ds: seq<Digit>, v: nat)
    requires FourDigits(ds, v) && At(s, i, Digits(ds))
    ensures i + 4 <= |s| && Hex(s, i, 4) == Some(v)
  {
    hide Hex, HexValue;
    forall k | 0 <= k < 4
      ensures HexValue(s[i + k]) == Some(ds[k].value)
    {
      assert s[i + k] == Digits(ds)[k];
      DigitRead(ds[k]);
    }
    HexFour(s, i);
    assert s[i] == s[i + 0];
  }

  lemma DigitsFound(s: string, i: nat) returns (ds: seq<Digit>)
    requires i <= |s| && Hex(s, i, 4).Some?
    ensures i + 4 <= |s| && FourDigits(ds, Hex(s, i, 4).value) && At(s, i, Digits(ds)) && |Digits(ds)| == 4
  {
    assert i + 4 <= |s|;
    hide Hex, HexValue, DigitChar;
    HexFour(s, i);
    var a := DigitFound(s[i]);
    var b := DigitFound(s[i + 1]);
    var c := DigitFound(s[i + 2]);
    var d := DigitFound(s[i + 3]);
    ds := [a, b, c, d];
    assert Digits(ds) == [s[i], s[i + 1], s[i + 2], s[i + 3]];
  }

  // ----- one piece -----

  lemma EscapeIs(c: char)
    ensures Escape(c).Some? <==> c in Names
    ensures forall k :: 0 <= k < 8 && c == Names[k] ==> Escape(c) == Some(Codes[k] as char)
  {
    assert Names[0] == '"' && Names[1] == '\\' && Names[2] == '/' && Names[3] == 'b' && Names[4] == 'f'
           && Names[5] == 'n' && Names[6] == 'r' && Names[7] == 't';
  }

  lemma PieceRead(s: string, i: nat, p: Piece)
    requires Proper(p) && At(s, i, Spelling(p))
    ensures i < |s| && s[i] != '"' && Unit(s, i) == Got(Sense(p), i + |Spelling(p)|)
  {
    hide Hex, Escape, UnicodeEscape, Digits;
    assert s[i + 0] == Spelling(p)[0];
    if p.Short? {
      assert s[i + 1] == Spelling(p)[1];
      EscapeIs(s[i + 1]);
    } else if p.Code? || p.Pair? {
      assert s[i + 1] == Spelling(p)[1];
      CodeRead(s, i, p);
    }
  }

  lemma CodeRead(s: string, i: nat, p: Piece)
    requires Proper(p) && At(s, i, Spelling(p)) && (p.Code? || p.Pair?)
    ensures i + 2 <= |s| && UnicodeEscape(s, i + 2) == Got(Sense(p), i + |Spelling(p)|)
  {
    hide Hex, Digits, FourDigits, At, Units, Bytewise, UnicodeEscape;
    if p.Code? {
      AtSplit(s, i, "\\u", Digits(p.digits));
      Lengths(p.digits, p.cp);
      DigitsRead(s, i + 2, p.digits, p.cp);
      OneRead(s, i + 2, p.cp);
    } else {
      var high, low := Surrogates(p.cp);
      AtSplit(s, i, "\\u", Digits(p.high) + ("\\u" + Digits(p.low)));
      AtSplit(s, i + 2, Digits(p.high), "\\u" + Digits(p.low));
      Lengths(p.high, high);
      DigitsRead(s, i + 2, p.high, high);
      PairRead(s, i + 6, p);
      TwoRead(s, i + 2, high, low);
    }
  }

  lemma Surrogates(cp: nat) returns (high: nat, low: nat)
    requires 0x10000 <= cp <= 0x10FFFF
    ensures high == 0xD800 + (cp - 0x10000) / 1024 && low == 0xDC00 + (cp - 0x10000) % 1024
    ensures 0xD800 <= high <= 0xDBFF && 0xDC00 <= low <= 0xDFFF
    ensures cp == 0x10000 + (high - 0xD800) * 1024 + (low - 0xDC00)
  {
    high, low := 0xD800 + (cp - 0x10000) / 1024, 0xDC00 + (cp - 0x10000) % 1024;
  }

  lemma OneRead(s: string, i: nat, cp: nat)
    requires i <= |s| && Hex(s, i, 4) == Some(cp) && cp < 0x10000 && (cp < 0xD800 || cp > 0xDFFF)
    ensures UnicodeEscape(s, i) == Got(Bytewise(Utf8.Encode(cp)), i + 4)
  {
    hide Hex, Units, Bytewise;
    BytewiseIs(Utf8.Encode(cp));
  }

  lemma TwoRead(s: string, i: nat, high: nat, low: nat)
    requires i + 6 <= |s| && Hex(s, i, 4) == Some(high) && s[i + 4] == '\\' && s[i + 5] == 'u'
    requires Hex(s, i + 6, 4) == Some(low) && 0xD800 <= high <= 0xDBFF && 0xDC00 <= low <= 0xDFFF
    ensures UnicodeEscape(s, i)
            == Got(Bytewise(Utf8.Encode(0x10000 + (high - 0xD800) * 1024 + (low - 0xDC00))), i + 10)
  {
    hide Hex, Units, Bytewise;
    BytewiseIs(Utf8.Encode(0x10000 + (high - 0xD800) * 1024 + (low - 0xDC00)));
  }

  lemma Lengths(ds: seq<Digit>, v: nat)
    requires FourDigits(ds, v)
    ensures |Digits(ds)| == 4 && v < 0x10000
  {
  }

  lemma PairRead(s: string, i: nat, p: Piece)
    requires p.Pair? && Proper(p) && At(s, i, "\\u" + Digits(p.low))
    ensures i + 2 <= |s| && s[i] == '\\' && s[i + 1] == 'u' && |Digits(p.low)| == 4
    ensures Hex(s, i + 2, 4) == Some(0xDC00 + (p.cp - 0x10000) % 1024)
  {
    hide Hex, DigitChar;
    AtSplit(s, i, "\\u", Digits(p.low));
    assert s[i + 0] == "\\u"[0] && s[i + 1] == "\\u"[1];
    DigitsRead(s, i + 2, p.low, 0xDC00 + (p.cp - 0x10000) % 1024);
  }

  lemma PieceFound(s: string, i: nat) returns (p: Piece)
    requires i < |s| && s[i] != '"' && Unit(s, i).Got?
    ensures Proper(p) && At(s, i, Spelling(p)) && Unit(s, i) == Got(Sense(p), i + |Spelling(p)|)
  {
    hide Hex, Escape, UnicodeEscape, Digits;
    if s[i] != '\\' {
      p := Plain(s[i]);
    } else if s[i + 1] == 'u' {
      p := CodeFound(s, i);
    } else {
      EscapeIs(s[i + 1]);
      var k :| 0 <= k < 8 && s[i + 1] == Names[k];
      p := Short(k);
    }
  }

  lemma CodeFound(s: string, i: nat) returns (p: Piece)
    requires i + 2 <= |s| && s[i] == '\\' && s[i + 1] == 'u' && UnicodeEscape(s, i + 2).Got?
    ensures p.Code? || p.Pair?
    ensures Proper(p) && At(s, i, Spelling(p)) && UnicodeEscape(s, i + 2) == Got(Sense(p), i + |Spelling(p)|)
  {
    var v := Hex(s, i + 2, 4).value;
    assert 0xD800 <= v <= 0xDBFF ==> Hex(s, i + 8, 4).Some? && 0xDC00 <= Hex(s, i + 8, 4).value <= 0xDFFF;
    hide Hex, Digits, FourDigits, UnicodeEscape, Units, Bytewise;
    HexBound(s, i + 2);
    var ds := DigitsFound(s, i + 2);
    assert At(s, i, "\\u");
    if 0xD800 <= v <= 0xDBFF {
      p := PairFound(s, i, v, Hex(s, i + 8, 4).value, ds);
    } else {
      p := Code(v, ds);
      hide At;
      AtJoin(s, i, "\\u", Digits(ds));
      OneRead(s, i + 2, v);
    }
  }

  lemma PairFound(s: string, i: nat, v: nat, w: nat, ds: seq<Digit>) returns (p: Piece)
    requires i + 8 <= |s| && s[i + 6] == '\\' && s[i + 7] == 'u' && At(s, i, "\\u")
    requires Hex(s, i + 2, 4) == Some(v) && Hex(s, i + 8, 4) == Some(w)
    requires 0xD800 <= v <= 0xDBFF && 0xDC00 <= w <= 0xDFFF
    requires FourDigits(ds, v) && At(s, i + 2, Digits(ds)) && |Digits(ds)| == 4
    ensures p.Pair? && Proper(p) && At(s, i, Spelling(p))
    ensures UnicodeEscape(s, i + 2) == Got(Sense(p), i + |Spelling(p)|)
  {
    hide Hex, Digits, FourDigits, UnicodeEscape, Units, Bytewise;
    var low := DigitsFound(s, i + 8);
    var cp := 0x10000 + (v - 0xD800) * 1024 + (w - 0xDC00);
    var high', low' := Surrogates(cp);
    p := Pair(cp, ds, low);
    assert At(s, i + 6, "\\u");
    hide At;
    AtJoin(s, i + 6, "\\u", Digits(low));
    AtJoin(s, i + 2, Digits(ds), "\\u" + Digits(low));
    AtJoin(s, i, "\\u", Digits(ds) + ("\\u" + Digits(low)));
    TwoRead(s, i + 2, v, w);
  }

  lemma AtJoin(s: string, i: nat, a: string, b: string)
    requires At(s, i, a) && At(s, i + |a|, b)
    ensures At(s, i, a + b)
  {
    forall k | 0 <= k < |a + b|
      ensures s[i + k] == (a + b)[k]
    {
      assert k >= |a| ==> s[i + |a| + (k - |a|)] == b[k - |a|];
    }
  }

  // ----- whole literals -----

  lemma {:induction false} PiecesRead(s: string, i: nat, ps: seq<Piece>)
    requires AllProper(ps) && At(s, i, Spellings(ps) + "\"")
    ensures i <= |s| && StringBody(s, i) == Got(Meaning(ps), i + |Spellings(ps)| + 1)
    decreases |ps|
  {
    hide At, Unit, Proper, Spelling;
    if ps == [] {
      assert Spellings(ps) + "\"" == "\"";
      QuoteAt(s, i);
    } else {
      var p, rest := ps[0], ps[1..];
      assert Spellings(ps) + "\"" == Spelling(p) + (Spellings(rest) + "\"");
      AtSplit(s, i, Spelling(p), Spellings(rest) + "\"");
      PieceRead(s, i, p);
      PiecesRead(s, i + |Spelling(p)|, rest);
    }
  }

  lemma QuoteAt(s: string, i: nat)
    ensures At(s, i, "\"") <==> i < |s| && s[i] == '"'
  {
    assert At(s, i, "\"") ==> s[i + 0] == "\""[0];
  }

  lemma {:induction false} PiecesFound(s: string, i: nat) returns (ps: seq<Piece>)
    requires i <= |s| && StringBody(s, i).Got?
    ensures AllProper(ps) && At(s, i, Spellings(ps) + "\"")
    ensures StringBody(s, i) == Got(Meaning(ps), i + |Spellings(ps)| + 1)
    decreases |s| - i
  {
    hide At, Unit, Proper, Spelling;
    QuoteAt(s, i);
    if s[i] == '"' {
      ps := [];
      assert Spellings(ps) + "\"" == "\"";
    } else {
      var p := PieceFound(s, i);
      var rest := PiecesFound(s, Unit(s, i).next);
      ps := [p] + rest;
      assert ps[1..] == rest;
      AtJoin(s, i, Spelling(p), Spellings(rest) + "\"");
      assert Spellings(ps) + "\"" == Spelling(p) + (Spellings(rest) + "\"");
    }
  }

  /** The rest of a literal is read as `text` up to `e` exactly when it is pieces that
      mean `text` and a quote. */
  lemma LiteralIs(s: string, i: nat, text: string, e: nat)
    requires i <= |s|
    ensures StringBody(s, i) == Got(text, e) <==>
            exists ps: seq<Piece> :: AllProper(ps) && Meaning(ps) == text
                                     && At(s, i, Spellings(ps) + "\"") && e == i + |Spellings(ps)| + 1
  {
    hide StringBody, AllProper, At, Spellings, Meaning;
    if StringBody(s, i) == Got(text, e) {
      var ps := PiecesFound(s, i);
    }
    if ps: seq<Piece> :| AllProper(ps) && Meaning(ps) == text
                         && At(s, i, Spellings(ps) + "\"") && e == i + |Spellings(ps)| + 1 {
      PiecesRead(s, i, ps);
    }
  }

  // ----- what the writer chooses -----

  /** The writer spells a character as itself if it can, else by the short escape if
      there is one, else by its number in small digits. */
  lemma EscapedIs(c: char) returns (p: Piece)
    ensures Proper(p) && Escaped(c) == Spelling(p) && Sense(p) == [c]
    ensures p.Plain? <==> c as int >= 0x20 && c != '"' && c != '\\'
    ensures p.Short? <==> !p.Plain? && exists k :: 0 <= k < 8 && Codes[k] as char == c
    ensures p.Code? ==> forall k :: 0 <= k < 4 ==> !p.digits[k].upper
    ensures !p.Pair?
  {
    if c as int >= 0x20 && c != '"' && c != '\\' {
      p := Plain(c);
    } else if k :| 0 <= k < 8 && Codes[k] as char == c {
      p := Short(k);
      ShortEscape(k);
    } else {
      var v: nat := c as int;
      assert Codes[0] as char == '"' && Codes[1] as char == '\\';
      p := Code(v, [Digit(0, false), Digit(0, false), Digit(v / 16, false), Digit(v % 16, false)]);
      NumberEscape(c, p);
    }
  }

  lemma ShortEscape(k: nat)
    requires k < 8 && k != 2
    ensures Escaped(Codes[k] as char) == Spelling(Short(k))
  {
  }

  lemma NumberEscape(c: char, p: Piece)
    requires c as int < 0x20 && forall k :: 0 <= k < 8 ==> Codes[k] as char != c
    requires p == Code(c as int, [Digit(0, false), Digit(0, false), Digit(c as int / 16, false), Digit(c as int % 16, false)])
    ensures Proper(p) && Escaped(c) == Spelling(p) && Sense(p) == [c]
  {
    var v: nat := c as int;
    assert Codes[3] == 8 && Codes[4] == 12 && Codes[5] == 10 && Codes[6] == 13 && Codes[7] == 9;
    assert Digits(p.digits) == "00" + [HexDigit(v / 16), HexDigit(v % 16)];
    var one: seq<byte> := [v];
    assert Utf8.Encode(v) == one;
    assert one[1..] == [] && Bytewise(one) == [one[0] as char];
  }
}
