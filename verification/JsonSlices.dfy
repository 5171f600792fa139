/** Slices keep their meaning wherever they are put: what a value's text means
    does not depend on where it stands nor on what follows it. */
module JsonSlices {
  import opened Basics
  import opened Json
  import opened StrictJson
  import opened JsonWriter

  /** `t` shows between `i + d` and `e + d` what `s` shows between `i` and `e`. */
  ghost predicate Matches(s: string, t: string, d: int, i: nat, e: nat) {
    && i <= e <= |s| && 0 <= i + d && e + d <= |t|
    && forall k :: i <= k < e ==> s[k] == t[k + d]
  }

  /** No number runs on past `p`. */
  ghost predicate Stops(t: string, p: nat)
    requires p <= |t|
  {
    p == |t| || !NumberChar(t[p])
  }

  function Moved(p: Parsed<string>, d: int): Parsed<string>
    requires p.Got? ==> p.next + d >= 0
  {
    if p.Got? then Got(p.value, p.next + d) else Bad
  }

  lemma {:induction false} SkipWsMoves(s: string, t: string, d: int, i: nat, e: nat)
    requires Matches(s, t, d, i, e) && SkipWs(s, i) < e
    ensures SkipWs(t, i + d) == SkipWs(s, i) + d
    decreases e - i
  {
    if IsWs(s[i]) {
      SkipWsMoves(s, t, d, i + 1, e);
    }
  }

  lemma {:induction false} HexMoves(s: string, t: string, d: int, i: nat, n: nat, e: nat)
    requires Matches(s, t, d, i, e) && i + n <= e
    ensures Hex(t, i + d, n) == Hex(s, i, n)
  {
    if n > 0 {
      HexMoves(s, t, d, i, n - 1, e);
      assert s[i + n - 1] == t[i + n - 1 + d];
    }
  }

  lemma UnicodeMoves(s: string, t: string, d: int, i: nat, e: nat)
    requires Matches(s, t, d, i, e)
    requires UnicodeEscape(s, i).Got? && UnicodeEscape(s, i).next <= e
    ensures UnicodeEscape(t, i + d) == Moved(UnicodeEscape(s, i), d)
  {
    HexBound(s, i);
    HexMoves(s, t, d, i, 4, e);
    if UnicodeEscape(s, i).next == i + 10 {
      assert s[i + 4] == t[i + 4 + d] && s[i + 5] == t[i + 5 + d];
      assert Matches(s, t, d, i + 6, e);
      HexMoves(s, t, d, i + 6, 4, e);
    }
    hide Hex;
  }

  lemma UnitMoves(s: string, t: string, d: int, i: nat, e: nat)
    requires i < |s| && Matches(s, t, d, i, e) && Unit(s, i).Got? && Unit(s, i).next <= e
    ensures Unit(t, i + d) == Moved(Unit(s, i), d)
  {
    hide UnicodeEscape;
    assert s[i] == t[i + d];
    if s[i] == '\\' {
      assert s[i + 1] == t[i + 1 + d];
      if s[i + 1] == 'u' {
        assert Matches(s, t, d, i + 2, e);
        UnicodeMoves(s, t, d, i + 2, e);
      }
    }
  }

  lemma {:induction false} BodyMoves(s: string, t: string, d: int, i: nat, e: nat)
    requires Matches(s, t, d, i, e) && StringBody(s, i).Got? && StringBody(s, i).next <= e
    ensures StringBody(t, i + d) == Moved(StringBody(s, i), d)
    decreases |s| - i
  {
    hide Unit;
    assert s[i] == t[i + d];
    if s[i] != '"' {
      UnitMoves(s, t, d, i, e);
      BodyMoves(s, t, d, Unit(s, i).next, e);
    }
  }

  lemma {:induction false} NumberMoves(s: string, t: string, d: int, i: nat, e: nat)
    requires Matches(s, t, d, i, e) && Stops(t, e + d) && NumberEnd(s, i) <= e
    ensures NumberEnd(t, i + d) == NumberEnd(s, i) + d
    decreases e - i
  {
    if i < e && NumberChar(s[i]) {
      NumberMoves(s, t, d, i + 1, e);
    }
  }

  lemma LiteralMoves(s: string, t: string, d: int, i: nat, e: nat, tail: string)
    requires Matches(s, t, d, i, e) && At(s, i, tail) && i + |tail| <= e
    ensures At(t, i + d, tail)
  {
    forall k | 0 <= k < |tail|
      ensures t[i + d + k] == tail[k]
    {
      assert s[i + k] == t[i + k + d];
    }
  }

  lemma TokenAtMoves(s: string, t: string, d: int, i: nat, e: nat)
    requires i < e && Matches(s, t, d, i, e) && Stops(t, e + d)
    requires TokenAt(s, i).Tok? && TokenAt(s, i).next <= e
    ensures TokenAt(t, i + d) == Tok(TokenAt(s, i).token, TokenAt(s, i).next + d)
  {
    hide At, StringBody, NumberEnd;
    var c := s[i];
    assert c == t[i + d] && Matches(s, t, d, i + 1, e);
    if Mark(c).None? {
      match c {
        case '"' => BodyMoves(s, t, d, i + 1, e);
        case 't' => LiteralMoves(s, t, d, i + 1, e, "rue");
        case 'f' => LiteralMoves(s, t, d, i + 1, e, "alse");
        case 'n' => LiteralMoves(s, t, d, i + 1, e, "ull");
        case _ =>
          NumberMoves(s, t, d, i + 1, e);
          var n := NumberEnd(s, i + 1);
          assert s[i..n] == t[i + d..n + d];
      }
    }
  }

  lemma NextMoves(s: string, t: string, d: int, i: nat, e: nat)
    requires Matches(s, t, d, i, e) && Stops(t, e + d)
    requires Next(s, i).Tok? && Next(s, i).next <= e
    ensures Next(t, i + d) == Tok(Next(s, i).token, Next(s, i).next + d)
  {
    hide TokenAt;
    SkipWsMoves(s, t, d, i, e);
    assert Matches(s, t, d, SkipWs(s, i), e);
    TokenAtMoves(s, t, d, SkipWs(s, i), e);
  }

  /** A value that ends by `e` ends in the same place in any text that shows the
      same up to there and does not continue a number. */
  lemma {:induction false} ValueMoves(s: string, t: string, d: int, first: Token, i: nat, depth: nat, e: nat)
    requires Matches(s, t, d, i, e) && Stops(t, e + d)
    requires Value(s, first, i, depth).Some? && Value(s, first, i, depth).value <= e
    ensures Value(t, first, i + d, depth) == Some(Value(s, first, i, depth).value + d)
    decreases |s| - i, 0
  {
    hide Next, Items;
    if first.ObjectBegin? || first.ArrayBegin? {
      var next := Next(s, i);
      if next.token != Closer(first.ObjectBegin?) {
        assert next.next <= Items(s, first.ObjectBegin?, next.token, next.next, depth).value;
      }
      NextMoves(s, t, d, i, e);
      if next.token != Closer(first.ObjectBegin?) {
        ItemsMoves(s, t, d, first.ObjectBegin?, next.token, next.next, depth, e);
      }
    }
  }

  lemma {:induction false} ItemsMoves(s: string, t: string, d: int, keyed: bool, next: Token, i: nat, depth: nat, e: nat)
    requires Matches(s, t, d, i, e) && Stops(t, e + d)
    requires Items(s, keyed, next, i, depth).Some? && Items(s, keyed, next, i, depth).value <= e
    ensures Items(t, keyed, next, i + d, depth) == Some(Items(s, keyed, next, i, depth).value + d)
    decreases |s| - i, 1
  {
    hide Next, Items, Value, Element, Matches, Stops;
    MatchesBounds(s, t, d, i, e);
    ItemsStep(s, keyed, next, i, depth);
    ItemsStep(t, keyed, next, i + d, depth);
    var v := Element(s, keyed, next, i);
    var w := Value(s, v.token, v.next, depth + 1).value;
    var n := Next(s, w);
    assert n.next <= e;
    ElementMoves(s, t, d, keyed, next, i, e);
    MatchesFrom(s, t, d, i, v.next, e);
    ValueMoves(s, t, d, v.token, v.next, depth + 1, e);
    MatchesFrom(s, t, d, i, w, e);
    NextMoves(s, t, d, w, e);
    if n.token != Closer(keyed) {
      var m := Next(s, n.next);
      MatchesFrom(s, t, d, i, n.next, e);
      NextMoves(s, t, d, n.next, e);
      MatchesFrom(s, t, d, i, m.next, e);
      ItemsMoves(s, t, d, keyed, m.token, m.next, depth, e);
    }
  }

  lemma MatchesBounds(s: string, t: string, d: int, i: nat, e: nat)
    requires Matches(s, t, d, i, e)
    ensures i <= e <= |s| && 0 <= i + d && e + d <= |t|
  {
  }

  lemma MatchesFrom(s: string, t: string, d: int, i: nat, j: nat, e: nat)
    requires Matches(s, t, d, i, e) && i <= j <= e
    ensures Matches(s, t, d, j, e)
  {
  }

  lemma ElementMoves(s: string, t: string, d: int, keyed: bool, next: Token, i: nat, e: nat)
    requires Matches(s, t, d, i, e) && Stops(t, e + d)
    requires Element(s, keyed, next, i).Tok? && Element(s, keyed, next, i).next <= e
    ensures Element(t, keyed, next, i + d) == Tok(Element(s, keyed, next, i).token, Element(s, keyed, next, i).next + d)
  {
    hide Next;
    if keyed {
      NextMoves(s, t, d, i, e);
      NextMoves(s, t, d, Next(s, i).next, e);
    }
  }

  // ----- printing slices and slicing again -----

  /** What is printed from an item on: the separators the printer writes. */
  ghost function Rest(items: seq<string>): string
    requires items != []
  {
    if |items| == 1 then items[0] + "]" else items[0] + ("," + Rest(items[1..]))
  }

  /** What stands before an item: the items in front, each with its comma. */
  ghost function Lead(front: seq<string>): string {
    if front == [] then "" else Joined(front) + ","
  }

  lemma LeadSnoc(front: seq<string>, item: string)
    ensures Joined(front + [item]) == Lead(front) + item
    ensures Lead(front + [item]) == Lead(front) + item + ","
  {
    assert (front + [item])[..|front|] == front;
    assert "" + item == item;
  }

  lemma {:induction false} JoinedIsRest(front: seq<string>, items: seq<string>)
    requires items != []
    ensures Joined(front + items) + "]" == Lead(front) + Rest(items)
    decreases |items|
  {
    var item, more := items[0], items[1..];
    LeadSnoc(front, item);
    hide Joined, Lead;
    if more == [] {
      assert front + items == front + [item];
      Regroup(Lead(front), item, "]", "");
    } else {
      assert front + items == (front + [item]) + more;
      JoinedIsRest(front + [item], more);
      Regroup(Lead(front), item, ",", Rest(more));
    }
  }

  lemma Regroup(a: string, b: string, c: string, d: string)
    ensures (a + b + c) + d == a + (b + (c + d))
    ensures (a + b) + c == a + (b + c)
  {
  }

  lemma MarkToken(t: string, i: nat, c: char)
    requires i < |t| && t[i] == c && Mark(c).Some?
    ensures Next(t, i) == Tok(Mark(c).value, i + 1)
  {
  }

  /** The slices from `next` on, printed at `j` to the end of `t`, are read back. */
  lemma {:induction false} ElementsPrinted(s: string, start: nat, next: Token, i: nat, t: string, j: nat)
    requires start <= i <= |s| && Next(s, start) == Tok(next, i)
    requires Elements(s, start, next, i).Some?
    requires var items := Elements(s, start, next, i).value;
             items != [] && j + |Rest(items)| == |t| && At(t, j, Rest(items))
    ensures Next(t, j).Tok?
    ensures Elements(t, j, Next(t, j).token, Next(t, j).next) == Elements(s, start, next, i)
    decreases |s| - i
  {
    hide Next, Value, Matches, Stops, At;
    var items := Elements(s, start, next, i).value;
    var e, d := Value(s, next, i, 0).value, j - start;
    assert items[0] == s[start..e];
    FirstPrinted(s, t, start, e, items, j);
    NextMoves(s, t, d, start, e);
    MatchesFrom(s, t, d, start, i, e);
    ValueMoves(s, t, d, next, i, 0, e);
    var n := Next(s, e);
    if n.token == ArrayEnd {
      MarkToken(t, e + d, ']');
      assert Next(t, |t|).End? by {
        EndOfText(t);
      }
    } else {
      var m := Next(s, n.next);
      assert items[1..] == Elements(s, n.next, m.token, m.next).value;
      ElementsNonempty(s, n.next, m.token, m.next);
      MarkToken(t, e + d, ',');
      ElementsPrinted(s, n.next, m.token, m.next, t, e + d + 1);
    }
  }

  lemma EndOfText(t: string)
    ensures Next(t, |t|).End?
  {
  }

  lemma ElementsNonempty(s: string, start: nat, next: Token, i: nat)
    requires start <= i <= |s| && Elements(s, start, next, i).Some?
    ensures Elements(s, start, next, i).value != []
  {
    hide Next, Value;
  }

  /** The first item stands at `j`, a separator or the end behind it, then the rest. */
  lemma FirstPrinted(s: string, t: string, start: nat, e: nat, items: seq<string>, j: nat)
    requires start <= e <= |s| && items != [] && items[0] == s[start..e]
    requires j + |Rest(items)| == |t| && At(t, j, Rest(items))
    ensures Matches(s, t, j - start, start, e) && e + j - start < |t| && Stops(t, e + j - start)
    ensures t[j..e + j - start] == items[0]
    ensures t[e + j - start] == if |items| == 1 then ']' else ','
    ensures |items| == 1 ==> e + j - start + 1 == |t|
    ensures |items| > 1 ==> At(t, e + j - start + 1, Rest(items[1..])) && e + j - start + 1 + |Rest(items[1..])| == |t|
  {
    var n := e - start;
    var more := if |items| == 1 then "]" else "," + Rest(items[1..]);
    assert Rest(items) == items[0] + more;
    AtSplit(t, j, items[0], more);
    assert t[j + n + 0] == more[0];
    forall k | start <= k < e
      ensures s[k] == t[k + (j - start)]
    {
      assert t[j + (k - start)] == items[0][k - start];
    }
    if |items| > 1 {
      AtSplit(t, j + n, ",", Rest(items[1..]));
    }
  }

  /** Slicing an array, printing the slices and slicing again gives the same
      slices: nothing in them was lost or changed. */
  lemma PrintedSlices(s: string)
    requires Slices(s).Some?
    ensures Slices("[" + Joined(Slices(s).value) + "]") == Slices(s)
  {
    hide Elements, Value, Next;
    var items := Slices(s).value;
    var t := "[" + Joined(items) + "]";
    MarkToken(t, 0, '[');
    var open := Next(s, 0);
    var next := Next(s, open.next);
    if next.token == ArrayEnd {
      assert t == "[]";
      MarkToken(t, 1, ']');
      EndOfText(t);
    } else {
      ElementsNonempty(s, open.next, next.token, next.next);
      JoinedIsRest([], items);
      assert [] + items == items && Lead([]) + Rest(items) == Rest(items);
      assert t == "[" + Rest(items) + "";
      hide Rest, Joined;
      AtMiddle("[", Rest(items), "");
      ElementsPrinted(s, open.next, next.token, next.next, t, 1);
      FirstIsNotEnd(t, 1);
    }
  }

  lemma FirstIsNotEnd(t: string, i: nat)
    requires i <= |t| && Next(t, i).Tok? && Elements(t, i, Next(t, i).token, Next(t, i).next).Some?
    ensures Next(t, i).token != ArrayEnd
  {
    hide Next;
  }

  /** The same through the reader and the printer themselves. */
  method Reprint(raw: string) returns (first: Option<seq<string>>, again: Option<seq<string>>)
    ensures first == Slices(raw)
    ensures first.Some? ==> again == first
  {
    hide Slices, Joined;
    first := Array(raw);
    again := None;
    if first.Some? {
      var json := new Writer();
      WriteRawJsonArray(json, first.value);
      assert json.out == "[" + Joined(first.value) + "]";
      again := Array(json.out);
      PrintedSlices(raw);
    }
  }
}
