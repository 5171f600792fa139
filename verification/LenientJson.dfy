/** The lenient scanner of src/nxtai/tool_json.hpp, and its agreement with the
    strict reader on every text the strict reader accepts. */
module LenientJson {
  import opened Basics
  import opened Bits
  import opened Json
  import Utf8

  // ----- strings -----

  /** `skip_json_ws`; the in-out offset is an argument and a result. */
  method SkipJsonWs(input: string, offset: nat) returns (next: nat)
    requires offset <= |input|
    ensures next == SkipWs(input, offset)
  {
    next := offset;
    while next < |input|
      invariant next <= |input| && SkipWs(input, next) == SkipWs(input, offset)
    {
      if !IsWs(input[next]) {
        return;
      }
      next := next + 1;
    }
  }

  /** `json_hex_digit`. */
  function HexDigit(c: char): int {
    if '0' <= c <= '9' then c as int - '0' as int
    else if 'a' <= c <= 'f' then c as int - 'a' as int + 10
    else if 'A' <= c <= 'F' then c as int - 'A' as int + 10
    else -1
  }

  /** `read_json_u16`; sixteen bits hold four digits. */
  method ReadJsonU16(input: string, offset: nat) returns (r: Option<nat>, next: nat)
    requires offset <= |input|
    ensures r == Hex(input, offset, 4)
    ensures r.Some? ==> next == offset + 4 <= |input|
  {
    next := offset;
    if offset + 4 > |input| {
      HexShort4(input, offset);
      return None, next;
    }
    var value: nat := 0;
    for i := 0 to 4
      invariant next == offset + i
      invariant Hex(input, offset, i) == Some(value)
    {
      var digit := HexDigit(input[next]);
      next := next + 1;
      if digit < 0 {
        HexShort(input, offset, i + 1, 4);
        return None, next;
      }
      value := value * 16 + digit;
    }
    r := Some(value);
  }

  lemma HexShort4(s: string, i: nat)
    requires i <= |s| < i + 4
    ensures Hex(s, i, 4).None?
  {
  }

  /** The `u` case of `read_json_string`. */
  method ReadJsonUnicode(input: string, offset: nat) returns (r: Option<string>, next: nat)
    requires offset <= |input|
    ensures var u := UnicodeEscape(input, offset);
            if u.Got? then r == Some(u.value) && next == u.next else r.None?
  {
    HexBound(input, offset);
    hide Hex;
    var first;
    first, next := ReadJsonU16(input, offset);
    if first.None? {
      return None, next;
    }
    var codepoint := first.value;
    if 0xD800 <= first.value <= 0xDBFF {
      if next + 2 > |input| {
        return None, next;
      }
      if input[next] != '\\' || input[next + 1] != 'u' {
        return None, next;
      }
      next := next + 2;
      var second;
      second, next := ReadJsonU16(input, next);
      if second.None? || second.value < 0xDC00 || second.value > 0xDFFF {
        return None, next;
      }
      OrSurrogates(first.value - 0xD800, second.value - 0xDC00);
      codepoint := 0x10000 + Or((first.value - 0xD800) * 1024, second.value - 0xDC00);
    } else if 0xDC00 <= first.value <= 0xDFFF {
      return None, next;
    }
    var text := AppendJsonUtf8("", codepoint);
    assert "" + Units(Utf8.Encode(codepoint)) == Units(Utf8.Encode(codepoint));
    r := Some(text);
  }

  lemma OrSurrogates(high: nat, low: nat)
    requires low < 1024
    ensures Or(high * 1024, low) == high * 1024 + low
  {
    assert Two(5) == 32;
    assert Two(10) == 1024;
    OrDisjoint(high, low, 10);
  }

  lemma OrMarkers(low: nat)
    ensures low < 64 ==> Or(0x80, low) == 0x80 + low
    ensures low < 32 ==> Or(0xC0, low) == 0xC0 + low
    ensures low < 16 ==> Or(0xE0, low) == 0xE0 + low
    ensures low < 8 ==> Or(0xF0, low) == 0xF0 + low
  {
    assert Two(3) == 8;
    assert Two(4) == 16;
    assert Two(5) == 32;
    assert Two(6) == 64;
    hide Or, Two;
    if low < 64 {
      OrDisjoint(2, low, 6);
    }
    if low < 32 {
      OrDisjoint(6, low, 5);
    }
    if low < 16 {
      OrDisjoint(14, low, 4);
    }
    if low < 8 {
      OrDisjoint(30, low, 3);
    }
  }

  /** One code unit: a marker and payload bits, put together bit by bit. */
  method Unit8(marker: nat, bits: nat) returns (c: char)
    requires (marker == 0x80 && bits < 64) || (marker == 0xC0 && bits < 32)
          || (marker == 0xE0 && bits < 16) || (marker == 0xF0 && bits < 8)
    ensures c as int == marker + bits
  {
    OrMarkers(bits);
    c := Or(marker, bits) as char;
  }

  /** `append_json_utf8`, the scanner's own encoder. */
  method AppendJsonUtf8(out: string, codepoint: Utf8.Scalar) returns (r: string)
    ensures r == out + Units(Utf8.Encode(codepoint))
  {
    var low, mid, high := codepoint % 64, codepoint / 64 % 64, codepoint / 4096 % 64;
    Quotients(codepoint);
    if codepoint <= 0x7F {
      return out + [codepoint as char];
    }
    var t := Unit8(0x80, low);
    if codepoint <= 0x7FF {
      var a := Unit8(0xC0, codepoint / 64);
      return out + [a, t];
    }
    var m := Unit8(0x80, mid);
    if codepoint <= 0xFFFF {
      var a := Unit8(0xE0, codepoint / 4096);
      return out + [a, m, t];
    }
    var h := Unit8(0x80, high);
    var a := Unit8(0xF0, codepoint / 262144);
    r := out + [a, h, m, t];
  }

  lemma Quotients(x: nat)
    ensures x / 4096 == x / 64 / 64 && x / 262144 == x / 64 / 64 / 64
  {
  }

  /** The scanner's own table of escapes. */
  function JsonEscape(c: char): Option<char> {
    if c == 'n' then Some('\n')
    else if c == 'r' then Some('\r')
    else if c == 't' then Some('\t')
    else if c == 'b' then Some(0x08 as char)
    else if c == 'f' then Some(0x0C as char)
    else if c == '"' || c == '\\' || c == '/' then Some(c)
    else None
  }

  /** The two tables agree on every character. */
  lemma SameEscapes(c: char)
    ensures JsonEscape(c) == Escape(c)
  {
  }

  /** `read_json_string`: the literal at `offset`, quotes included. */
  method ReadJsonString(input: string, offset: nat) returns (r: Option<string>, next: nat)
    requires offset <= |input|
    ensures r.Some? <==> offset < |input| && input[offset] == '"' && StringBody(input, offset + 1).Got?
    ensures r.Some? ==> StringBody(input, offset + 1) == Got(r.value, next)
  {
    hide StringBody, Prepend, UnicodeEscape, Escape, JsonEscape;
    next := offset;
    if offset >= |input| || input[offset] != '"' {
      return None, next;
    }
    next := next + 1;
    var out := "";
    ghost var goal := StringBody(input, next);
    BodyStep(input, out, next);
    while next < |input|
      invariant next <= |input|
      invariant goal == Prepend(out, StringBody(input, next))
      decreases |input| - next
    {
      BodyStep(input, out, next);
      var ch := input[next];
      next := next + 1;
      if ch == '"' {
        return Some(out), next;
      }
      if ch as int < 0x20 {
        return None, next;
      }
      if ch != '\\' {
        out := out + [ch];
        continue;
      }
      if next >= |input| {
        return None, next;
      }
      var escaped := input[next];
      next := next + 1;
      if escaped == 'u' {
        var text;
        text, next := ReadJsonUnicode(input, next);
        if text.None? {
          return None, next;
        }
        out := out + text.value;
      } else {
        SameEscapes(escaped);
        var plain := JsonEscape(escaped);
        if plain.None? {
          return None, next;
        }
        out := out + [plain.value];
      }
    }
    BodyStep(input, out, next);
    r := None;
  }

  // ----- skipping a value -----

  predicate IsMark(c: char) {
    c == '"' || c == '{' || c == '[' || c == '}' || c == ']'
  }

  /** Where the closing loop of the skipper stops: the next `,` or `}`. */
  ghost function Trail(s: string, i: nat): (r: nat)
    requires i <= |s|
    ensures i <= r <= |s|
    decreases |s| - i
  {
    if i < |s| && s[i] != ',' && s[i] != '}' then Trail(s, i + 1) else i
  }

  /** From the test of the skipper's first loop on: where it stops, or failure. */
  ghost function Scan(s: string, i: nat, stack: seq<char>): (r: Option<nat>)
    requires i <= |s|
    ensures r.Some? ==> r.value <= |s|
    decreases |s| - i, 1
  {
    if i == |s| || stack == [] then Some(Trail(s, i)) else Round(s, i, stack)
  }

  /** From the body of that loop on. */
  ghost function Round(s: string, i: nat, stack: seq<char>): (r: Option<nat>)
    requires i < |s|
    ensures r.Some? ==> r.value <= |s|
    decreases |s| - i, 0
  {
    var c := s[i];
    if c == '"' then
      var body := StringBody(s, i + 1);
      if body.Bad? then None else Scan(s, body.next, stack)
    else if c == '{' then Scan(s, i + 1, stack + ['}'])
    else if c == '[' then Scan(s, i + 1, stack + [']'])
    else if c == '}' || c == ']' then
      if stack == [] || stack[|stack| - 1] != c then Some(i)
      else Scan(s, i + 1, stack[..|stack| - 1])
    else if stack == [] && c == ',' then Some(i)
    else Scan(s, i + 1, stack)
  }

  /** Where `skip_json_sync_value` leaves the offset. */
  ghost function SkipValue(s: string, i: nat): (r: Option<nat>)
    requires i <= |s|
    ensures r.Some? ==> r.value <= |s|
  {
    var k := SkipWs(s, i);
    if k == |s| then None
    else if s[k] == '"' then
      var body := StringBody(s, k + 1);
      if body.Got? then Some(body.next) else None
    else Round(s, k, [])
  }

  /** `skip_json_sync_value`. */
  method SkipJsonSyncValue(input: string, offset: nat) returns (ok: bool, next: nat)
    requires offset <= |input|
    ensures ok <==> SkipValue(input, offset).Some?
    ensures ok ==> next == SkipValue(input, offset).value
  {
    hide StringBody, SkipWs;
    next := SkipJsonWs(input, offset);
    if next >= |input| {
      return false, next;
    }
    var text;
    if input[next] == '"' {
      text, next := ReadJsonString(input, next);
      return text.Some?, next;
    }
    var stack: seq<char> := [];
    ghost var goal := Round(input, next, stack);
    var more := true;
    while more
      invariant next <= |input|
      invariant more ==> next < |input| && goal == Round(input, next, stack)
      invariant !more ==> goal == Some(Trail(input, next))
      decreases |input| - next, more
    {
      hide Trail;
      var ch := input[next];
      next := next + 1;
      if ch == '"' {
        next := next - 1;
        text, next := ReadJsonString(input, next);
        if text.None? {
          return false, next;
        }
      } else if ch == '{' {
        stack := stack + ['}'];
      } else if ch == '[' {
        stack := stack + [']'];
      } else if ch == '}' || ch == ']' {
        if stack == [] || stack[|stack| - 1] != ch {
          next := next - 1;
          return true, next;
        }
        stack := stack[..|stack| - 1];
      } else if stack == [] && ch == ',' {
        next := next - 1;
        return true, next;
      }
      more := next < |input| && stack != [];
    }
    while next < |input| && input[next] != ',' && input[next] != '}'
      invariant next <= |input| && goal == Some(Trail(input, next))
    {
      next := next + 1;
    }
    ok := true;
  }

  // ----- the string members of an object -----

  datatype Pair = Pair(key: string, value: string)

  ghost function Push(front: seq<Pair>, rest: Option<seq<Pair>>): Option<seq<Pair>> {
    if rest.Some? then Some(front + rest.value) else None
  }

  /** One member at `i`, the offset of its key's opening quote: the pairs it
      contributes, and the offset behind its value. */
  ghost function Entry(s: string, i: nat): (r: Option<(seq<Pair>, nat)>)
    requires i <= |s|
    ensures r.Some? ==> i < r.value.1 <= |s|
  {
    if i == |s| || s[i] != '"' then None else
    var key := StringBody(s, i + 1);
    if key.Bad? then None else
    var c := SkipWs(s, key.next);
    if c == |s| || s[c] != ':' then None else
    var v := SkipWs(s, c + 1);
    if v < |s| && s[v] == '"' then
      var value := StringBody(s, v + 1);
      if value.Got? then Some(([Pair(key.value, value.value)], value.next)) else None
    else
      SkipForward(s, v);
      var e := SkipValue(s, v);
      if e.Some? then Some(([], e.value)) else None
  }

  /** The pairs from offset `i` on, the top of the loop. */
  ghost function Pairs(s: string, i: nat): Option<seq<Pair>>
    requires i <= |s|
    decreases |s| - i
  {
    var k := SkipWs(s, i);
    if k == |s| then None
    else if s[k] == '}' then Some([])
    else
      var here := Entry(s, k);
      if here.None? then None else
      var n := SkipWs(s, here.value.1);
      if n == |s| then None
      else if s[n] == '}' then Some(here.value.0)
      else if s[n] != ',' then None
      else Push(here.value.0, Pairs(s, n + 1))
  }

  ghost function StringMembers(s: string): Option<seq<Pair>> {
    var k := SkipWs(s, 0);
    if k == |s| || s[k] != '{' then None else Pairs(s, k + 1)
  }

  lemma {:induction false} ScanForward(s: string, i: nat, stack: seq<char>)
    requires i <= |s|
    ensures Scan(s, i, stack).Some? ==> Scan(s, i, stack).value >= i
    ensures i < |s| && Round(s, i, stack).Some? ==> Round(s, i, stack).value >= i
    decreases |s| - i
  {
    hide StringBody;
    if i < |s| {
      var c := s[i];
      if c == '"' {
        if StringBody(s, i + 1).Got? {
          ScanForward(s, StringBody(s, i + 1).next, stack);
        }
      } else if c == '{' {
        ScanForward(s, i + 1, stack + ['}']);
      } else if c == '[' {
        ScanForward(s, i + 1, stack + [']']);
      } else if c == '}' || c == ']' {
        if stack != [] {
          ScanForward(s, i + 1, stack[..|stack| - 1]);
        }
      } else {
        ScanForward(s, i + 1, stack);
      }
    }
  }

  lemma SkipForward(s: string, i: nat)
    requires i <= |s|
    ensures SkipValue(s, i).Some? ==> SkipValue(s, i).value >= i
  {
    hide StringBody, Round;
    var k := SkipWs(s, i);
    if k < |s| {
      ScanForward(s, k, []);
    }
  }

  /** One member, read as the loop of `json_string_object` does. */
  method ReadEntry(s: string, offset: nat) returns (ok: bool, pairs: seq<Pair>, next: nat)
    requires offset <= |s|
    ensures ok <==> Entry(s, offset).Some?
    ensures ok ==> Entry(s, offset) == Some((pairs, next))
  {
    hide StringBody, SkipWs, SkipValue;
    pairs := [];
    var key, value;
    key, next := ReadJsonString(s, offset);
    if key.None? {
      return false, pairs, next;
    }
    next := SkipJsonWs(s, next);
    if next >= |s| || s[next] != ':' {
      return false, pairs, next;
    }
    next := next + 1;
    next := SkipJsonWs(s, next);
    if next < |s| && s[next] == '"' {
      value, next := ReadJsonString(s, next);
      if value.None? {
        return false, pairs, next;
      }
      pairs := [Pair(key.value, value.value)];
      return true, pairs, next;
    }
    SkipForward(s, next);
    ok, next := SkipJsonSyncValue(s, next);
  }

  /** `json_string_object`. */
  method JsonStringObject(s: string) returns (r: Option<seq<Pair>>)
    ensures r == StringMembers(s)
  {
    hide SkipWs, Entry, Pairs;
    var offset := SkipJsonWs(s, 0);
    if offset >= |s| || s[offset] != '{' {
      return None;
    }
    offset := offset + 1;
    var out: seq<Pair> := [];
    ghost var goal := Pairs(s, offset);
    assert goal.Some? ==> [] + goal.value == goal.value;
    while true
      invariant offset <= |s|
      invariant goal == Push(out, Pairs(s, offset))
      decreases |s| - offset
    {
      PairsStep(s, out, offset);
      offset := SkipJsonWs(s, offset);
      if offset >= |s| {
        return None;
      }
      if s[offset] == '}' {
        return Some(out);
      }
      var ok, pairs;
      ok, pairs, offset := ReadEntry(s, offset);
      if !ok {
        return None;
      }
      out := out + pairs;
      offset := SkipJsonWs(s, offset);
      if offset >= |s| {
        return None;
      }
      if s[offset] == '}' {
        return Some(out);
      }
      if s[offset] != ',' {
        return None;
      }
      offset := offset + 1;
    }
  }

  lemma PairsStep(s: string, out: seq<Pair>, i: nat)
    requires i <= |s|
    ensures Push(out, Pairs(s, i)) ==
            var k := SkipWs(s, i);
            if k == |s| then None
            else if s[k] == '}' then Some(out)
            else
              var here := Entry(s, k);
              if here.None? then None else
              var out' := out + here.value.0;
              var n := SkipWs(s, here.value.1);
              if n == |s| then None
              else if s[n] == '}' then Some(out')
              else if s[n] != ',' then None
              else Push(out', Pairs(s, n + 1))
  {
    hide SkipWs, Entry;
    var k := SkipWs(s, i);
    if k < |s| && s[k] == '}' {
      assert out + [] == out;
    } else if k < |s| && Entry(s, k).Some? {
      var here := Entry(s, k).value;
      var n := SkipWs(s, here.1);
      if n < |s| && s[n] == ',' && Pairs(s, n + 1).Some? {
        assert out + (here.0 + Pairs(s, n + 1).value) == (out + here.0) + Pairs(s, n + 1).value;
      }
    }
  }

  /** The value of the first pair with this key. */
  ghost function Lookup(pairs: seq<Pair>, key: string): Option<string> {
    if pairs == [] then None
    else if pairs[0].key == key then Some(pairs[0].value)
    else Lookup(pairs[1..], key)
  }

  /** `json_string_member`. */
  method JsonStringMember(s: string, key: string) returns (r: Option<string>)
    ensures r == if StringMembers(s).Some? then Lookup(StringMembers(s).value, key) else None
  {
    hide StringMembers;
    var members := JsonStringObject(s);
    if members.None? {
      return None;
    }
    assert members.value[0..] == members.value;
    for i := 0 to |members.value|
      invariant Lookup(members.value, key) == Lookup(members.value[i..], key)
    {
      assert members.value[i..][1..] == members.value[i + 1..];
      if members.value[i].key == key {
        return Some(members.value[i].value);
      }
    }
    r := None;
  }
}
