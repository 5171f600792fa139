/** The chunk-size line of src/nxtrt/http-server.cpp against the grammar of
    section 7.1 of RFC 9112. */
module HttpChunks {
  import opened Basics
  import opened Json

  // ----- characters -----

  /** `token_char`. */
  predicate TokenChar(c: char) {
    'a' <= c <= 'z' || 'A' <= c <= 'Z' || '0' <= c <= '9' || c in "!#$%&'*+-.^_`|~"
  }

  /** `field_char`. */
  predicate FieldChar(c: char) {
    c == '\t' || (c as int >= 32 && c as int != 127)
  }

  predicate Blank(c: char) {
    c == ' ' || c == '\t'
  }

  ghost predicate All(s: string, p: char -> bool) {
    forall k :: 0 <= k < |s| ==> p(s[k])
  }

  // ----- the grammar -----

  /** One character of a quoted string: qdtext, or a quoted pair. */
  datatype Quoted = Plain(c: char) | Pair(c: char)

  ghost predicate QuotedOk(q: Quoted) {
    FieldChar(q.c) && (q.Plain? ==> q.c != '"' && q.c != '\\')
  }

  ghost function QuotedText(qs: seq<Quoted>): string {
    if qs == [] then ""
    else (if qs[0].Plain? then [qs[0].c] else ['\\', qs[0].c]) + QuotedText(qs[1..])
  }

  datatype Val = NoVal | TokenVal(bws1: string, bws2: string, token: string)
               | QuotedVal(bws1: string, bws2: string, chars: seq<Quoted>)

  /** BWS ";" BWS chunk-ext-name [ BWS "=" BWS chunk-ext-val ] */
  datatype Ext = Ext(bws1: string, bws2: string, name: string, val: Val)

  ghost predicate Bws(s: string) {
    All(s, Blank)
  }

  ghost predicate Token(s: string) {
    s != "" && All(s, TokenChar)
  }

  ghost predicate ValOk(v: Val) {
    match v
    case NoVal => true
    case TokenVal(b1, b2, t) => Bws(b1) && Bws(b2) && Token(t)
    case QuotedVal(b1, b2, qs) => Bws(b1) && Bws(b2) && forall k :: 0 <= k < |qs| ==> QuotedOk(qs[k])
  }

  ghost predicate ExtOk(e: Ext) {
    Bws(e.bws1) && Bws(e.bws2) && Token(e.name) && ValOk(e.val)
  }

  ghost function ValText(v: Val): string {
    match v
    case NoVal => ""
    case TokenVal(b1, b2, t) => b1 + ("=" + (b2 + t))
    case QuotedVal(b1, b2, qs) => b1 + ("=" + (b2 + ("\"" + (QuotedText(qs) + "\""))))
  }

  ghost function ExtText(e: Ext): string {
    e.bws1 + (";" + (e.bws2 + (e.name + ValText(e.val))))
  }

  ghost function ExtsText(es: seq<Ext>): string {
    if es == [] then "" else ExtText(es[0]) + ExtsText(es[1..])
  }

  ghost predicate AllOk(es: seq<Ext>) {
    forall k :: 0 <= k < |es| ==> ExtOk(es[k])
  }

  /** chunk-ext */
  ghost predicate IsExts(s: string) {
    exists es: seq<Ext> :: AllOk(es) && ExtsText(es) == s
  }

  /** What hexadecimal digits stand for. */
  ghost function HexNumber(digits: string): nat
    requires forall k :: 0 <= k < |digits| ==> HexValue(digits[k]).Some?
  {
    if digits == "" then 0
    else HexNumber(digits[..|digits| - 1]) * 16 + HexValue(digits[|digits| - 1]).value
  }

  ghost predicate HexDigits(s: string) {
    s != "" && forall k :: 0 <= k < |s| ==> HexValue(s[k]).Some?
  }

  /** chunk-size [ chunk-ext ], the size below two to the 64. */
  ghost predicate IsChunkLine(line: string, size: nat) {
    exists n ::
      && 0 < n <= |line| && HexDigits(line[..n]) && HexNumber(line[..n]) == size < 0x1_0000_0000_0000_0000
      && IsExts(line[n..])
  }

  // ----- the scanner's own path through an extension list -----

  ghost function Trim(s: string): (r: string)
    ensures r == "" || !Blank(r[0])
    ensures |r| <= |s|
  {
    if s != "" && Blank(s[0]) then Trim(s[1..]) else s
  }

  ghost function TokenLen(s: string): (n: nat)
    ensures n <= |s| && (forall k :: 0 <= k < n ==> TokenChar(s[k]))
    ensures n < |s| ==> !TokenChar(s[n])
  {
    if s != "" && TokenChar(s[0]) then
      var n := TokenLen(s[1..]);
      assert forall k :: 0 < k <= n ==> s[k] == s[1..][k - 1];
      1 + n
    else 0
  }

  /** What follows the closing quote. */
  ghost function AfterQuoted(s: string): (r: Option<string>)
    ensures r.Some? ==> |r.value| < |s|
  {
    if s == "" then None
    else if s[0] == '"' then Some(s[1..])
    else if s[0] == '\\' then
      if |s| > 1 && FieldChar(s[1]) then AfterQuoted(s[2..]) else None
    else if FieldChar(s[0]) then AfterQuoted(s[1..])
    else None
  }

  ghost predicate Exts(s: string)
    decreases |s|, 0
  {
    s == "" || (var a := Trim(s); a != "" && a[0] == ';' && ExtsName(Trim(a[1..])))
  }

  ghost predicate ExtsName(s: string)
    decreases |s|, 1
  {
    var n := TokenLen(s);
    n > 0 && (n == |s| || ExtsVal(Trim(s[n..])))
  }

  ghost predicate ExtsVal(s: string)
    decreases |s|, 1
  {
    s != "" && if s[0] != '=' then Exts(s) else ExtsEq(Trim(s[1..]))
  }

  ghost predicate ExtsEq(s: string)
    decreases |s|, 1
  {
    && s != ""
    && if s[0] == '"' then AfterQuoted(s[1..]).Some? && Exts(AfterQuoted(s[1..]).value)
       else TokenLen(s) > 0 && Exts(s[TokenLen(s)..])
  }

  // ----- it is the grammar: every list of extensions is followed -----

  lemma {:induction false} TrimBws(b: string, s: string)
    requires Bws(b)
    ensures Trim(b + s) == Trim(s)
  {
    if b == "" {
      assert b + s == s;
    } else {
      assert (b + s)[1..] == b[1..] + s;
      TrimBws(b[1..], s);
    }
  }

  lemma {:induction false} TokenLenIs(t: string, s: string)
    requires All(t, TokenChar) && (s == "" || !TokenChar(s[0]))
    ensures TokenLen(t + s) == |t|
  {
    if t == "" {
      assert t + s == s;
    } else {
      assert (t + s)[1..] == t[1..] + s;
      TokenLenIs(t[1..], s);
    }
  }

  lemma {:induction false} AfterQuotedIs(qs: seq<Quoted>, s: string)
    requires forall k :: 0 <= k < |qs| ==> QuotedOk(qs[k])
    ensures AfterQuoted(QuotedText(qs) + ("\"" + s)) == Some(s)
  {
    var rest := "\"" + s;
    var t := QuotedText(qs) + rest;
    if qs == [] {
      assert t == rest;
      assert rest[1..] == s;
    } else {
      AfterQuotedIs(qs[1..], s);
      assert QuotedOk(qs[0]);
      var first := if qs[0].Plain? then [qs[0].c] else ['\\', qs[0].c];
      var more := QuotedText(qs[1..]) + rest;
      Join(first, QuotedText(qs[1..]), rest);
      hide QuotedText;
      assert t[|first|..] == more;
    }
  }

  /** A list of extensions begins with a blank or a semicolon. */
  lemma FirstChar(es: seq<Ext>)
    requires AllOk(es)
    ensures var s := ExtsText(es); s != "" ==> Blank(s[0]) || s[0] == ';'
  {
    if es != [] {
      var e := es[0];
      assert ExtOk(e);
      var more := ";" + (e.bws2 + (e.name + ValText(e.val)));
      assert ExtText(e) == e.bws1 + more;
      assert ExtText(e)[0] == if e.bws1 == "" then more[0] else e.bws1[0];
    }
  }

  lemma TrimAt(s: string)
    ensures s != "" && !Blank(s[0]) ==> Trim(s) == s
    ensures Trim(Trim(s)) == Trim(s)
  {
  }

  /** Blanks before a semicolon do not matter. */
  lemma ExtsTrim(s: string)
    requires Trim(s) != ""
    ensures Exts(s) <==> Exts(Trim(s))
  {
    TrimAt(s);
  }

  lemma ExtJoin(e: Ext, more: string)
    ensures ExtText(e) + more == e.bws1 + (";" + (e.bws2 + (e.name + (ValText(e.val) + more))))
  {
    Join(e.name, ValText(e.val), more);
    Join(e.bws2, e.name + ValText(e.val), more);
    Join(";", e.bws2 + (e.name + ValText(e.val)), more);
    Join(e.bws1, ";" + (e.bws2 + (e.name + ValText(e.val))), more);
  }

  lemma Join(a: string, b: string, c: string)
    ensures (a + b) + c == a + (b + c)
  {
  }

  lemma {:induction false} Follows(es: seq<Ext>)
    requires AllOk(es)
    ensures Exts(ExtsText(es))
    decreases |es|
  {
    if es != [] {
      hide Exts, ExtText, ExtOk;
      Follows(es[1..]);
      FirstChar(es[1..]);
      ExtJoin(es[0], ExtsText(es[1..]));
      FollowsExt(es[0], ExtsText(es[1..]));
    }
  }

  lemma FollowsExt(e: Ext, more: string)
    requires ExtOk(e) && Exts(more) && (more != "" ==> Blank(more[0]) || more[0] == ';')
    ensures Exts(e.bws1 + (";" + (e.bws2 + (e.name + (ValText(e.val) + more)))))
  {
    hide ExtsName, Token, ValOk, ValText, Trim, Bws;
    var named := e.name + (ValText(e.val) + more);
    FollowsName(e, more);
    var t := e.bws2 + named;
    TrimBws(e.bws2, named);
    TrimBws(e.bws1, ";" + t);
    TrimAt(";" + t);
    assert (";" + t)[1..] == t;
    TokenStart(e.name, ValText(e.val) + more);
    TrimAt(named);
  }

  lemma TokenStart(name: string, s: string)
    requires Token(name)
    ensures name + s != "" && !Blank((name + s)[0])
  {
    assert TokenChar(name[0]);
  }

  lemma FollowsName(e: Ext, more: string)
    requires ExtOk(e) && Exts(more) && (more != "" ==> Blank(more[0]) || more[0] == ';')
    ensures ExtsName(e.name + (ValText(e.val) + more))
  {
    hide Exts, ExtsVal, ExtsEq, Trim;
    var s := e.name + (ValText(e.val) + more);
    var t := ValText(e.val) + more;
    assert s[|e.name|..] == t;
    match e.val {
      case NoVal =>
        assert t == more;
        TokenLenIs(e.name, more);
        if more != "" {
          FollowsNone(more);
        }
      case TokenVal(b1, b2, v) =>
        var u := b2 + (v + more);
        assert t == b1 + ("=" + u);
        FollowsToken(b1, b2, v, more);
        TokenLenIs(e.name, t);
      case QuotedVal(b1, b2, qs) =>
        var u := b2 + ("\"" + (QuotedText(qs) + ("\"" + more)));
        assert t == b1 + ("=" + u);
        FollowsQuoted(b1, b2, qs, more);
        TokenLenIs(e.name, t);
    }
  }

  lemma FollowsNone(more: string)
    requires Exts(more) && more != ""
    ensures ExtsVal(Trim(more))
  {
    ExtsTrim(more);
  }

  lemma ValueStart(b1: string, u: string)
    requires Bws(b1)
    ensures var t := b1 + ("=" + u);
            t != "" && !TokenChar(t[0]) && Trim(t) == "=" + u
  {
    var t := b1 + ("=" + u);
    TrimBws(b1, "=" + u);
    TrimAt("=" + u);
    assert t[0] == if b1 == "" then '=' else b1[0];
  }

  lemma FollowsToken(b1: string, b2: string, v: string, more: string)
    requires Bws(b1) && Bws(b2) && Token(v) && Exts(more) && (more != "" ==> Blank(more[0]) || more[0] == ';')
    ensures var t := b1 + ("=" + (b2 + (v + more)));
            t != "" && !TokenChar(t[0]) && ExtsVal(Trim(t))
  {
    hide Exts, Trim;
    var w := v + more;
    ValueStart(b1, b2 + w);
    assert ("=" + (b2 + w))[1..] == b2 + w;
    TrimBws(b2, w);
    TokenStart(v, more);
    TrimAt(w);
    TokenLenIs(v, more);
    assert TokenChar(w[0]);
    assert w[|v|..] == more;
  }

  lemma FollowsQuoted(b1: string, b2: string, qs: seq<Quoted>, more: string)
    requires Bws(b1) && Bws(b2) && (forall k :: 0 <= k < |qs| ==> QuotedOk(qs[k])) && Exts(more)
    ensures var t := b1 + ("=" + (b2 + ("\"" + (QuotedText(qs) + ("\"" + more)))));
            t != "" && !TokenChar(t[0]) && ExtsVal(Trim(t))
  {
    hide Exts, Trim, QuotedText, AfterQuoted;
    var body := QuotedText(qs) + ("\"" + more);
    var w := "\"" + body;
    ValueStart(b1, b2 + w);
    assert ("=" + (b2 + w))[1..] == b2 + w;
    TrimBws(b2, w);
    TrimAt(w);
    assert w[1..] == body;
    AfterQuotedIs(qs, more);
  }

  // ----- and nothing else is: what the scanner passes is such a list -----

  lemma {:induction false} TrimSplit(s: string) returns (b: string)
    ensures Bws(b) && s == b + Trim(s)
  {
    if s != "" && Blank(s[0]) {
      b := TrimSplit(s[1..]);
      b := [s[0]] + b;
      assert s == [s[0]] + s[1..];
    } else {
      b := "";
    }
  }

  lemma {:induction false} BuildQuoted(s: string) returns (qs: seq<Quoted>)
    requires AfterQuoted(s).Some?
    ensures forall k :: 0 <= k < |qs| ==> QuotedOk(qs[k])
    ensures s == QuotedText(qs) + ("\"" + AfterQuoted(s).value)
    decreases |s|
  {
    qs := [];
    if s[0] == '"' {
      assert s == "\"" + s[1..];
    } else {
      var n := if s[0] == '\\' then 2 else 1;
      var q := if s[0] == '\\' then Pair(s[1]) else Plain(s[0]);
      var more := BuildQuoted(s[n..]);
      qs := [q] + more;
      assert qs[1..] == more;
      assert s == s[..n] + s[n..];
      Join(s[..n], QuotedText(more), "\"" + AfterQuoted(s).value);
      assert s[..n] == if q.Plain? then [q.c] else ['\\', q.c];
    }
  }

  lemma {:induction false} Build(s: string) returns (es: seq<Ext>)
    requires Exts(s)
    ensures AllOk(es) && ExtsText(es) == s
    decreases |s|
  {
    es := [];
    if s != "" {
      hide ExtsName, ExtOk, ExtText;
      var a := Trim(s);
      var b1 := TrimSplit(s);
      var b := Trim(a[1..]);
      var b2 := TrimSplit(a[1..]);
      var name, val, rest := BuildName(b);
      var e := Ext(b1, b2, name, val);
      ExtOkIf(e);
      var more := Build(rest);
      es := [e] + more;
      assert es[1..] == more;
      ExtJoin(e, rest);
      assert a == ";" + (b2 + b);
    }
  }

  lemma ExtOkIf(e: Ext)
    requires Bws(e.bws1) && Bws(e.bws2) && Token(e.name) && ValOk(e.val)
    ensures ExtOk(e)
  {
  }

  lemma BuildName(s: string) returns (name: string, val: Val, rest: string)
    requires ExtsName(s)
    ensures Token(name) && ValOk(val) && Exts(rest) && |rest| < |s|
    ensures s == name + (ValText(val) + rest)
  {
    hide Exts, Trim, ExtsEq, ValText, ValOk;
    var n := TokenLen(s);
    name := s[..n];
    var c := s[n..];
    assert s == name + c;
    if c == "" {
      val, rest := NoVal, "";
      NoValue("");
      EmptyExts();
    } else {
      var d := Trim(c);
      if d[0] != '=' {
        val, rest := NoVal, c;
        NoValue(c);
        ExtsTrim(c);
      } else {
        val, rest := BuildValue(c);
      }
    }
  }

  lemma EmptyExts()
    ensures Exts("")
  {
  }

  lemma NoValue(s: string)
    ensures ValOk(NoVal) && ValText(NoVal) + s == s
  {
  }

  lemma BuildValue(c: string) returns (val: Val, rest: string)
    requires Trim(c) != "" && Trim(c)[0] == '=' && ExtsEq(Trim(Trim(c)[1..]))
    ensures ValOk(val) && Exts(rest) && |rest| < |c| && c == ValText(val) + rest
  {
    hide Exts, Trim, AfterQuoted, QuotedText, TokenLen;
    var b1 := TrimSplit(c);
    var f := Trim(c)[1..];
    var b2 := TrimSplit(f);
    var g := Trim(f);
    assert Trim(c) == "=" + f;
    if g[0] == '"' {
      rest := AfterQuoted(g[1..]).value;
      var qs := BuildQuoted(g[1..]);
      val := QuotedVal(b1, b2, qs);
      assert g == "\"" + g[1..];
      QuotedJoin(b1, b2, qs, rest);
    } else {
      var n := TokenLen(g);
      rest := g[n..];
      val := TokenVal(b1, b2, g[..n]);
      assert g == g[..n] + rest;
      TokenJoin(b1, b2, g[..n], rest);
    }
  }

  lemma TokenJoin(b1: string, b2: string, t: string, rest: string)
    ensures ValText(TokenVal(b1, b2, t)) + rest == b1 + ("=" + (b2 + (t + rest)))
  {
    Join(b2, t, rest);
    Join("=", b2 + t, rest);
    Join(b1, "=" + (b2 + t), rest);
  }

  lemma QuotedJoin(b1: string, b2: string, qs: seq<Quoted>, rest: string)
    ensures ValText(QuotedVal(b1, b2, qs)) + rest
            == b1 + ("=" + (b2 + ("\"" + (QuotedText(qs) + ("\"" + rest)))))
  {
    hide QuotedText;
    var q := QuotedText(qs);
    Join(q, "\"", rest);
    Join("\"", q + "\"", rest);
    Join(b2, "\"" + (q + "\""), rest);
    Join("=", b2 + ("\"" + (q + "\"")), rest);
    Join(b1, "=" + (b2 + ("\"" + (q + "\""))), rest);
  }

  /** The scanner's path accepts exactly the grammar's extension lists. */
  lemma ExtsIsGrammar(s: string)
    ensures Exts(s) <==> IsExts(s)
  {
    hide Exts, ExtOk, ExtsText;
    if IsExts(s) {
      var es: seq<Ext> :| AllOk(es) && ExtsText(es) == s;
      Follows(es);
    }
    if Exts(s) {
      var es := Build(s);
    }
  }

  // ----- `chunk_length` -----

  /** `trim_left`. */
  method TrimLeft(text: string) returns (r: string)
    ensures r == Trim(text)
  {
    r := text;
    while r != "" && Blank(r[0])
      invariant Trim(r) == Trim(text)
      decreases |r|
    {
      r := r[1..];
    }
  }

  method TokenLength(line: string) returns (n: nat)
    ensures n == TokenLen(line)
  {
    n := 0;
    assert line[0..] == line;
    while n < |line| && TokenChar(line[n])
      invariant n <= |line| && TokenLen(line) == n + TokenLen(line[n..])
    {
      assert line[n..][1..] == line[n + 1..];
      n := n + 1;
    }
  }

  method SkipQuoted(text: string) returns (r: Option<string>)
    ensures r == AfterQuoted(text)
  {
    var line := text;
    while line != ""
      invariant AfterQuoted(line) == AfterQuoted(text)
      decreases |line|
    {
      var c := line[0];
      var rest := line[1..];
      if c == '"' {
        return Some(rest);
      }
      if c == '\\' {
        if rest == "" {
          return None;
        }
        c := rest[0];
        assert rest[1..] == line[2..];
        rest := rest[1..];
      }
      if !FieldChar(c) {
        return None;
      }
      line := rest;
    }
    r := None;
  }

  /** `find_first_not_of` the hexadecimal digits. */
  function HexLen(line: string, i: nat): (n: nat)
    requires i <= |line|
    ensures i <= n <= |line| && (forall k :: i <= k < n ==> HexValue(line[k]).Some?)
    ensures n < |line| ==> HexValue(line[n]).None?
    decreases |line| - i
  {
    if i < |line| && HexValue(line[i]).Some? then HexLen(line, i + 1) else i
  }

  /** The extension part of `chunk_length`. */
  method ScanExtensions(text: string) returns (ok: bool)
    ensures ok <==> IsExts(text)
  {
    ExtsIsGrammar(text);
    hide Trim, TokenLen, AfterQuoted, IsExts;
    var line := text;
    while line != ""
      invariant Exts(line) <==> Exts(text)
      decreases |line|
    {
      line := TrimLeft(line);
      if line == "" || line[0] != ';' {
        return false;
      }
      line := line[1..];
      line := TrimLeft(line);
      assert Exts(text) <==> ExtsName(line);
      var name := TokenLength(line);
      if name == 0 {
        return false;
      }
      line := line[name..];
      if line == "" {
        assert Exts(line) && Exts(text);
        break;
      }
      line := TrimLeft(line);
      assert Exts(text) <==> ExtsVal(line);
      if line == "" {
        return false;
      }
      if line[0] != '=' {
        continue;
      }
      line := line[1..];
      line := TrimLeft(line);
      assert Exts(text) <==> ExtsEq(line);
      if line == "" {
        return false;
      }
      if line[0] == '"' {
        var rest := SkipQuoted(line[1..]);
        if rest.None? {
          return false;
        }
        line := rest.value;
      } else {
        var value := TokenLength(line);
        if value == 0 {
          return false;
        }
        line := line[value..];
      }
    }
    ok := true;
  }

  /** A chunk line has one split into digits and extensions. */
  lemma DigitsEnd(line: string, n: nat)
    requires 0 < n <= |line| && HexDigits(line[..n]) && IsExts(line[n..])
    ensures n == HexLen(line, 0)
  {
    hide IsExts, HexLen;
    if n < |line| {
      ExtsStart(line[n..]);
    }
    assert n < |line| ==> line[n] == line[n..][0];
    assert forall k :: 0 <= k < n ==> line[k] == line[..n][k];
    var m := HexLen(line, 0);
  }

  lemma ExtsStart(s: string)
    requires IsExts(s) && s != ""
    ensures HexValue(s[0]).None?
  {
    hide ExtOk, ExtsText;
    var es: seq<Ext> :| AllOk(es) && ExtsText(es) == s;
    FirstChar(es);
  }

  /** `chunk_length`: the size of every well-formed line, and only of those. */
  method ChunkLength(line: string) returns (r: Option<nat>)
    ensures forall size: nat :: IsChunkLine(line, size) <==> r == Some(size)
  {
    hide IsExts, HexNumber;
    var end := HexLen(line, 0);
    var digits := line[..end];
    forall n | 0 < n <= |line| && HexDigits(line[..n]) && IsExts(line[n..])
      ensures n == end
    {
      DigitsEnd(line, n);
    }
    var size := FromChars(digits);
    if digits == "" || size.None? {
      return None;
    }
    var ok := ScanExtensions(line[end..]);
    r := if ok then size else None;
  }

  /** `from_chars` in base sixteen into 64 bits. */
  method FromChars(digits: string) returns (r: Option<nat>)
    requires forall k :: 0 <= k < |digits| ==> HexValue(digits[k]).Some?
    ensures r == if HexNumber(digits) < 0x1_0000_0000_0000_0000 then Some(HexNumber(digits)) else None
  {
    var value: nat := 0;
    for i := 0 to |digits|
      invariant value == HexNumber(digits[..i])
    {
      assert digits[..i + 1][..i] == digits[..i];
      value := value * 16 + HexValue(digits[i]).value;
    }
    assert digits[..|digits|] == digits;
    r := if value < 0x1_0000_0000_0000_0000 then Some(value) else None;
  }

  /** Token characters are the visible characters that are no delimiter (section 5.6.2
      of RFC 9110). */
  lemma TokenCharIs(c: char)
    ensures TokenChar(c) <==> 0x21 <= c as int <= 0x7E && c !in "\"(),/:;<=>?@[\\]{}"
  {
  }

  /** Field values hold visible characters, bytes beyond ASCII, spaces and tabs (section
      5.5 of RFC 9110), of which the last two are also what may stand between tokens. */
  lemma FieldCharIs(c: char)
    ensures FieldChar(c) <==> 0x21 <= c as int <= 0x7E || c as int >= 0x80 || Blank(c)
    ensures Blank(c) <==> c as int == 0x20 || c as int == 0x09
  {
  }
}
