/** The two readers agree: on every object the strict reader accepts, the lenient
    one finds exactly the members whose strict slice is a string literal. */
module JsonAgreement {
  import opened Basics
  import opened Json
  import opened StrictJson
  import opened JsonSlices
  import L = LenientJson

  // ----- the skipper against the strict value -----

  /** Text without quotes or brackets leaves the stack alone. */
  lemma {:induction false} PlainRun(s: string, i: nat, j: nat, stack: seq<char>)
    requires i <= j <= |s| && stack != []
    requires forall k :: i <= k < j ==> !L.IsMark(s[k])
    ensures L.Scan(s, i, stack) == L.Scan(s, j, stack)
    decreases j - i
  {
    if i < j {
      PlainRun(s, i + 1, j, stack);
    }
  }

  /** What a token does to the bracket stack. */
  ghost function After(t: Token, stack: seq<char>): seq<char>
    requires t.ObjectEnd? || t.ArrayEnd? ==> stack != []
  {
    match t
    case ObjectBegin => stack + ['}']
    case ArrayBegin => stack + [']']
    case ObjectEnd => stack[..|stack| - 1]
    case ArrayEnd => stack[..|stack| - 1]
    case _ => stack
  }

  ghost predicate Closes(t: Token, stack: seq<char>) {
    && (t.ObjectEnd? ==> stack != [] && stack[|stack| - 1] == '}')
    && (t.ArrayEnd? ==> stack != [] && stack[|stack| - 1] == ']')
  }

  lemma TokenPlain(s: string, i: nat)
    requires i < |s| && TokenAt(s, i).Tok?
    requires var t := TokenAt(s, i).token; t.Number? || t.Boolean? || t.Null?
    ensures forall k :: i <= k < TokenAt(s, i).next ==> !L.IsMark(s[k]) && s[k] != ',' && s[k] != '}'
  {
    hide StringBody;
    var j := TokenAt(s, i).next;
    forall k | i <= k < j
      ensures !L.IsMark(s[k]) && s[k] != ',' && s[k] != '}'
    {
      if s[i] == 't' {
        assert k > i ==> s[i + 1 + (k - i - 1)] == "rue"[k - i - 1];
      } else if s[i] == 'f' {
        assert k > i ==> s[i + 1 + (k - i - 1)] == "alse"[k - i - 1];
      } else if s[i] == 'n' {
        assert k > i ==> s[i + 1 + (k - i - 1)] == "ull"[k - i - 1];
      }
    }
  }

  /** The scanner passes a strict token in step with the strict reader. */
  lemma TokenScan(s: string, p: nat, stack: seq<char>)
    requires p <= |s| && stack != [] && Next(s, p).Tok? && Closes(Next(s, p).token, stack)
    ensures L.Scan(s, p, stack) == L.Scan(s, Next(s, p).next, After(Next(s, p).token, stack))
  {
    hide StringBody, SkipWs, At, NumberEnd, L.Trail;
    var i := SkipWs(s, p);
    SkipIsPlain(s, p);
    PlainRun(s, p, i, stack);
    var t := TokenAt(s, i);
    if t.token.Number? || t.token.Boolean? || t.token.Null? {
      TokenPlain(s, i);
      hide TokenAt;
      PlainRun(s, i, t.next, stack);
    }
  }

  lemma SkipIsPlain(s: string, p: nat)
    requires p <= |s|
    ensures forall k :: p <= k < SkipWs(s, p) ==> !L.IsMark(s[k]) && s[k] != ',' && s[k] != '}'
  {
  }

  function Bracket(keyed: bool): char {
    if keyed then '}' else ']'
  }

  lemma Popped(stack: seq<char>, keyed: bool)
    ensures Closes(Closer(keyed), stack + [Bracket(keyed)])
    ensures After(Closer(keyed), stack + [Bracket(keyed)]) == stack
  {
  }

  /** An open bracket's rest takes the scanner to the strict end, one level up. */
  lemma {:induction false} ContainerScan(s: string, first: Token, i: nat, depth: nat, stack: seq<char>)
    requires i <= |s| && (first.ObjectBegin? || first.ArrayBegin?) && Value(s, first, i, depth).Some?
    ensures L.Scan(s, i, stack + [Bracket(first.ObjectBegin?)]) == L.Scan(s, Value(s, first, i, depth).value, stack)
    decreases |s| - i, 2
  {
    hide Next, Items, L.Scan, After, Closes;
    var keyed := first.ObjectBegin?;
    var next := Next(s, i);
    if next.token == Closer(keyed) {
      Popped(stack, keyed);
      TokenScan(s, i, stack + [Bracket(keyed)]);
    } else {
      ItemsScan(s, keyed, i, depth, stack);
    }
  }

  /** A whole value leaves the stack as it was. */
  lemma {:induction false} ValueScan(s: string, p: nat, depth: nat, stack: seq<char>)
    requires p <= |s| && Next(s, p).Tok? && stack != []
    requires Value(s, Next(s, p).token, Next(s, p).next, depth).Some?
    ensures L.Scan(s, p, stack) == L.Scan(s, Value(s, Next(s, p).token, Next(s, p).next, depth).value, stack)
    decreases |s| - p, 0
  {
    hide Next, Items, L.Scan;
    var first := Next(s, p);
    TokenScan(s, p, stack);
    if first.token.ObjectBegin? || first.token.ArrayBegin? {
      ContainerScan(s, first.token, first.next, depth, stack);
    }
  }

  lemma {:induction false} ItemsScan(s: string, keyed: bool, p: nat, depth: nat, stack: seq<char>)
    requires p <= |s| && Next(s, p).Tok? && Items(s, keyed, Next(s, p).token, Next(s, p).next, depth).Some?
    ensures L.Scan(s, p, stack + [Bracket(keyed)])
            == L.Scan(s, Items(s, keyed, Next(s, p).token, Next(s, p).next, depth).value, stack)
    decreases |s| - p, 1
  {
    hide Next, Items, Value, L.Scan, After, Closes;
    var next := Next(s, p);
    var st := stack + [Bracket(keyed)];
    ItemsStep(s, keyed, next.token, next.next, depth);
    var v := Element(s, keyed, next.token, next.next);
    var q := p;
    if keyed {
      q := KeyScan(s, p, st);
    }
    ValueScan(s, q, depth + 1, st);
    var w := Value(s, v.token, v.next, depth + 1).value;
    var n := Next(s, w);
    if n.token == Closer(keyed) {
      Popped(stack, keyed);
      TokenScan(s, w, st);
    } else {
      PlainToken(n.token, st);
      TokenScan(s, w, st);
      ItemsScan(s, keyed, n.next, depth, stack);
    }
  }

  lemma PlainToken(t: Token, stack: seq<char>)
    requires t.Text? || t.Colon? || t.Comma?
    ensures Closes(t, stack) && After(t, stack) == stack
  {
  }

  /** Past a key and its colon; the value begins at the offset returned. */
  lemma KeyScan(s: string, p: nat, stack: seq<char>) returns (q: nat)
    requires p <= |s| && stack != [] && Next(s, p).Tok? && Element(s, true, Next(s, p).token, Next(s, p).next).Tok?
    ensures p < q <= |s| && Next(s, q) == Element(s, true, Next(s, p).token, Next(s, p).next)
    ensures L.Scan(s, p, stack) == L.Scan(s, q, stack)
  {
    hide Next, L.Scan, After, Closes;
    var key := Next(s, p);
    var colon := Next(s, key.next);
    PlainToken(key.token, stack);
    PlainToken(colon.token, stack);
    TokenScan(s, p, stack);
    TokenScan(s, key.next, stack);
    q := colon.next;
  }

  lemma {:induction false} TrailRun(s: string, i: nat, j: nat)
    requires i <= j <= |s| && forall k :: i <= k < j ==> s[k] != ',' && s[k] != '}'
    ensures L.Trail(s, i) == L.Trail(s, j)
    decreases j - i
  {
    if i < j {
      TrailRun(s, i + 1, j);
    }
  }

  /** The skipper goes from any value but a string to the separator behind it. */
  lemma SkipLands(s: string, v: nat, e: nat)
    requires v < |s| && s[v] != '"' && !IsWs(s[v]) && TokenAt(s, v).Tok?
    requires Value(s, TokenAt(s, v).token, TokenAt(s, v).next, 0) == Some(e)
    requires var n := Next(s, e); n.Tok? && (n.token == Comma || n.token == ObjectEnd)
    ensures L.SkipValue(s, v) == Some(SkipWs(s, e))
  {
    hide Next, TokenAt, L.Round, Value;
    var first := TokenAt(s, v).token;
    assert SkipWs(s, v) == v;
    TrailLands(s, e);
    if first.ObjectBegin? || first.ArrayBegin? {
      ContainerLands(s, v, e);
    } else {
      ScalarLands(s, v, e);
    }
  }

  lemma ContainerLands(s: string, v: nat, e: nat)
    requires v < |s| && TokenAt(s, v).Tok? && (TokenAt(s, v).token.ObjectBegin? || TokenAt(s, v).token.ArrayBegin?)
    requires Value(s, TokenAt(s, v).token, TokenAt(s, v).next, 0) == Some(e)
    ensures L.Round(s, v, []) == Some(L.Trail(s, e))
  {
    hide Value, TokenAt, L.Trail;
    OpenerAt(s, v);
    ContainerScan(s, TokenAt(s, v).token, v + 1, 0, []);
    assert [] + ['}'] == ['}'] && [] + [']'] == [']'];
  }

  lemma ScalarLands(s: string, v: nat, e: nat)
    requires v < |s| && TokenAt(s, v).Tok? && s[v] != '"'
    requires !TokenAt(s, v).token.ObjectBegin? && !TokenAt(s, v).token.ArrayBegin?
    requires Value(s, TokenAt(s, v).token, TokenAt(s, v).next, 0) == Some(e)
    ensures L.Round(s, v, []) == Some(L.Trail(s, e))
  {
    hide TokenAt, L.Trail, Items;
    ScalarAt(s, v);
    TokenPlain(s, v);
    TrailRun(s, v + 1, e);
    assert !L.IsMark(s[v]) && s[v] != ',';
    assert L.Round(s, v, []) == L.Scan(s, v + 1, []) == Some(L.Trail(s, v + 1));
  }

  lemma OpenerAt(s: string, v: nat)
    requires v < |s| && TokenAt(s, v).Tok?
    ensures var t := TokenAt(s, v);
            && (t.token.ObjectBegin? ==> s[v] == '{' && t.next == v + 1)
            && (t.token.ArrayBegin? ==> s[v] == '[' && t.next == v + 1)
  {
    hide StringBody, At, NumberEnd;
  }

  lemma ScalarAt(s: string, v: nat)
    requires v < |s| && TokenAt(s, v).Tok?
    ensures var t := TokenAt(s, v).token; t.Text? <==> s[v] == '"'
  {
    hide StringBody, At, NumberEnd;
  }

  lemma TrailLands(s: string, e: nat)
    requires e <= |s|
    requires var n := Next(s, e); n.Tok? && (n.token == Comma || n.token == ObjectEnd)
    ensures L.Trail(s, e) == SkipWs(s, e)
  {
    var n := SkipWs(s, e);
    SeparatorAt(s, n);
    SkipIsPlain(s, e);
    TrailRun(s, e, n);
  }

  lemma SeparatorAt(s: string, n: nat)
    requires n < |s| && TokenAt(s, n).Tok?
    ensures var t := TokenAt(s, n);
            && (t.token == Comma ==> s[n] == ',' && t.next == n + 1)
            && (t.token == ObjectEnd ==> s[n] == '}' && t.next == n + 1)
            && (t.token == Colon ==> s[n] == ':' && t.next == n + 1)
  {
    hide StringBody, At, NumberEnd;
  }

  // ----- the members -----

  /** The decoded string, of a slice that is one string literal. */
  ghost function LiteralOf(slice: string): Option<string> {
    var t := Next(slice, 0);
    if t.Tok? && t.token.Text? && t.next == |slice| then Some(t.token.text) else None
  }

  /** What a field contributes to the string members. */
  ghost function Contribution(s: string, m: Member): seq<L.Pair>
    requires m.start <= m.stop <= |s|
  {
    var text := LiteralOf(s[m.start..m.stop]);
    if text.Some? then [L.Pair(m.key, text.value)] else []
  }

  ghost function Literals(s: string, ms: seq<Member>): seq<L.Pair>
    requires Within(s, ms)
  {
    if ms == [] then [] else Contribution(s, ms[0]) + Literals(s, ms[1..])
  }

  /** A slice by itself begins with the token its value began with. */
  lemma SliceToken(s: string, start: nat, e: nat)
    requires start <= e <= |s| && Next(s, start).Tok?
    requires Value(s, Next(s, start).token, Next(s, start).next, 0) == Some(e)
    ensures LiteralOf(s[start..e]) ==
            var t := Next(s, start).token; if t.Text? then Some(t.text) else None
  {
    hide Next;
    var slice := s[start..e];
    var d: int := 0 - start;
    assert Matches(s, slice, d, start, e);
    NextMoves(s, slice, d, start, e);
  }

  /** One member, read by both. */
  lemma EntryAgrees(s: string, p: nat)
    requires p <= |s| && Next(s, p).Tok? && Next(s, p).token.Text?
    requires var colon := Next(s, Next(s, p).next);
             && colon.Tok? && colon.token == Colon
             && var v := Next(s, colon.next);
                && v.Tok? && var e := Value(s, v.token, v.next, 0);
                             && e.Some? && var n := Next(s, e.value);
                                           n.Tok? && (n.token == Comma || n.token == ObjectEnd)
    ensures var key := Next(s, p);
            var colon := Next(s, key.next);
            var v := Next(s, colon.next);
            var e := Value(s, v.token, v.next, 0).value;
            var entry := L.Entry(s, SkipWs(s, p));
            && entry.Some?
            && entry.value.0 == Contribution(s, Member(key.token.text, colon.next, e))
            && SkipWs(s, entry.value.1) == SkipWs(s, e)
  {
    hide Next, SkipWs, StringBody, Value, L.SkipValue, LiteralOf;
    var key := Next(s, p);
    TextToken(s, p);
    var colon := Next(s, key.next);
    SeparatorToken(s, key.next);
    var v := Next(s, colon.next);
    var e := Value(s, v.token, v.next, 0).value;
    SliceToken(s, colon.next, e);
    SkipTwice(s, e);
    if v.token.Text? {
      TextToken(s, colon.next);
      TextEnds(s, v, e);
    } else {
      OtherToken(s, colon.next, e);
    }
  }

  lemma SkipTwice(s: string, p: nat)
    requires p <= |s|
    ensures SkipWs(s, SkipWs(s, p)) == SkipWs(s, p)
  {
  }

  lemma TextToken(s: string, p: nat)
    requires p <= |s| && Next(s, p).Tok? && Next(s, p).token.Text?
    ensures var k := SkipWs(s, p);
            k < |s| && s[k] == '"' && StringBody(s, k + 1) == Got(Next(s, p).token.text, Next(s, p).next)
  {
    hide StringBody, At, NumberEnd, SkipWs;
  }

  lemma TextEnds(s: string, v: Lexed, e: nat)
    requires v.Tok? && v.token.Text? && v.next <= |s| && Value(s, v.token, v.next, 0) == Some(e)
    ensures e == v.next
  {
  }

  lemma SeparatorToken(s: string, p: nat)
    requires p <= |s| && Next(s, p).Tok?
    ensures var k, t := SkipWs(s, p), Next(s, p);
            && k < |s|
            && (t.token == Comma ==> s[k] == ',' && t.next == k + 1)
            && (t.token == ObjectEnd ==> s[k] == '}' && t.next == k + 1)
            && (t.token == Colon ==> s[k] == ':' && t.next == k + 1)
            && (t.token == ObjectBegin ==> s[k] == '{' && t.next == k + 1)
            && (t.token.Text? ==> s[k] == '"')
  {
    hide StringBody, At, NumberEnd, SkipWs;
  }

  lemma OtherToken(s: string, p: nat, e: nat)
    requires p <= |s| && Next(s, p).Tok? && !Next(s, p).token.Text?
    requires Value(s, Next(s, p).token, Next(s, p).next, 0) == Some(e)
    requires var n := Next(s, e); n.Tok? && (n.token == Comma || n.token == ObjectEnd)
    ensures var k := SkipWs(s, p); k < |s| && s[k] != '"' && L.SkipValue(s, k) == Some(SkipWs(s, e))
  {
    hide TokenAt, L.SkipValue;
    var k := SkipWs(s, p);
    ScalarAt(s, k);
    SkipLands(s, k, e);
  }

  /** From the same member on, both readers find the same. */
  lemma {:induction false} PairsAgree(s: string, p: nat)
    requires p <= |s| && Next(s, p).Tok?
    requires Members(s, Next(s, p).token, Next(s, p).next).Some?
    requires Within(s, Members(s, Next(s, p).token, Next(s, p).next).value)
    ensures L.Pairs(s, p) == Some(Literals(s, Members(s, Next(s, p).token, Next(s, p).next).value))
    decreases |s| - p
  {
    hide Next, Value, L.Entry, Contribution, SkipWs;
    var next := Next(s, p);
    var ms := Members(s, next.token, next.next).value;
    var colon := Next(s, next.next);
    var v := Next(s, colon.next);
    var e := Value(s, v.token, v.next, 0).value;
    var n := Next(s, e);
    EntryAgrees(s, p);
    SeparatorToken(s, p);
    SeparatorToken(s, e);
    assert ms[0] == Member(next.token.text, colon.next, e);
    if n.token == ObjectEnd {
      assert ms[1..] == [];
      assert Contribution(s, ms[0]) + [] == Contribution(s, ms[0]);
      assert L.Pairs(s, p) == Some(L.Entry(s, SkipWs(s, p)).value.0);
    } else {
      var m := Next(s, n.next);
      assert ms[1..] == Members(s, m.token, m.next).value;
      PairsAgree(s, n.next);
    }
  }

  /** On every object the strict reader accepts, the lenient reader finds exactly
      the fields whose slice is a string literal, decoded and in order. */
  lemma MembersAgree(s: string)
    requires AllFields(s).Some?
    ensures L.StringMembers(s) == Some(Literals(s, AllFields(s).value))
  {
    hide Next, Members, L.Pairs;
    var open := Next(s, 0);
    SeparatorToken(s, 0);
    var next := Next(s, open.next);
    if next.token == ObjectEnd {
      SeparatorToken(s, open.next);
      NoPairs(s, open.next);
    } else {
      PairsAgree(s, open.next);
    }
  }

  lemma NoPairs(s: string, i: nat)
    requires i <= |s| && SkipWs(s, i) < |s| && s[SkipWs(s, i)] == '}'
    ensures L.Pairs(s, i) == Some([])
  {
  }

  // ----- looking a member up -----

  lemma {:induction false} LookupLiterals(s: string, ms: seq<Member>, key: string)
    requires Within(s, ms) && DistinctKeys(ms)
    ensures L.Lookup(Literals(s, ms), key)
            == if key in AsMap(s, ms) then LiteralOf(AsMap(s, ms)[key]) else None
    decreases |ms|
  {
    hide LiteralOf;
    if ms != [] {
      var m, rest := ms[0], ms[1..];
      LookupLiterals(s, rest, key);
      AsMapFront(s, m, rest, key);
      assert ms == [m] + rest;
      LookupFront(Contribution(s, m), Literals(s, rest), key);
      if m.key == key {
        AsMapKeys(s, rest, key);
      }
    }
  }

  lemma LookupFront(front: seq<L.Pair>, rest: seq<L.Pair>, key: string)
    requires |front| <= 1
    ensures L.Lookup(front + rest, key)
            == if front != [] && front[0].key == key then Some(front[0].value) else L.Lookup(rest, key)
  {
    if front == [] {
      assert front + rest == rest;
    } else {
      assert (front + rest)[1..] == rest;
    }
  }

  lemma {:induction false} AsMapFront(s: string, m: Member, rest: seq<Member>, key: string)
    requires m.start <= m.stop <= |s| && Within(s, [m] + rest) && Within(s, rest)
    ensures var all := AsMap(s, [m] + rest);
            var more := AsMap(s, rest);
            && (key in all <==> key == m.key || key in more)
            && (key in more ==> all[key] == more[key])
            && (key == m.key && key !in more ==> all[key] == s[m.start..m.stop])
    decreases |rest|
  {
    var ms := [m] + rest;
    if rest == [] {
      assert ms[..0] == [];
    } else {
      var k := |rest| - 1;
      assert ms[..|ms| - 1] == [m] + rest[..k];
      AsMapFront(s, m, rest[..k], key);
    }
  }

  /** `json_string_member` on a text the strict reader accepts: the decoded
      string exactly when the strict field is a string literal. */
  method StringField(data: string, key: string) returns (r: Option<string>)
    ensures Fields(data).Some? ==>
              var fields := AsMap(data, Fields(data).value);
              r == if key in fields then LiteralOf(fields[key]) else None
  {
    hide AllFields, AsMap, LiteralOf, Literals, L.StringMembers;
    r := L.JsonStringMember(data, key);
    if Fields(data).Some? {
      MembersAgree(data);
      LookupLiterals(data, AllFields(data).value, key);
    }
  }
}
