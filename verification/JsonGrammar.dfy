/** JSON texts: values as a datatype, the texts that spell them with any whitespace
    between tokens, said without the reader; and the proof that the strict reader
    takes exactly these, and slices them where their parts stand. */
module JsonGrammar {
  import opened Basics
  import opened Json
  import opened StrictJson
  import opened JsonLiterals
  import opened JsonWriter
  import opened JsonSlices

  // ----- values and their texts -----

  /** A value with its spelling. A group is an object if keyed, else an array;
      `blank` is what an empty one has between its brackets. */
  datatype Doc =
    | Str(pieces: seq<Piece>)
    | Num(text: string)
    | Bool(value: bool)
    | Nul
    | Group(keyed: bool, blank: string, items: Listing)

  /** A value with the whitespace before it; in an object behind a key and a colon. */
  datatype Item = Item(before: string, key: seq<Piece>, gap: string, space: string, value: Doc)

  datatype Listing = Nil | Cons(item: Item, after: string, rest: Listing)

  ghost predicate Blank(w: string) {
    forall k :: 0 <= k < |w| ==> w[k] in " \n\r\t"
  }

  /** The reader leaves the syntax of numbers to whoever converts them. */
  ghost predicate Numeral(t: string) {
    t != "" && t[0] in "-0123456789" && forall k :: 0 <= k < |t| ==> t[k] in "0123456789.eE+-"
  }

  ghost predicate Good(d: Doc) {
    match d
    case Str(pieces) => AllProper(pieces)
    case Num(text) => Numeral(text)
    case Bool(_) => true
    case Nul => true
    case Group(_, blank, items) => Blank(blank) && GoodItems(items)
  }

  ghost predicate GoodItems(items: Listing) {
    items.Nil? || (GoodItem(items.item) && Blank(items.after) && GoodItems(items.rest))
  }

  ghost predicate GoodItem(it: Item) {
    Blank(it.before) && AllProper(it.key) && Blank(it.gap) && Blank(it.space) && Good(it.value)
  }

  ghost function Written(d: Doc): string {
    match d
    case Str(pieces) => Quoted(pieces)
    case Num(text) => text
    case Bool(value) => if value then "true" else "false"
    case Nul => "null"
    case Group(keyed, blank, items) =>
      (if keyed then "{" else "[") + ((if items.Nil? then blank else "") + Inside(keyed, items))
  }

  /** The items, commas between them, and the closing bracket. */
  ghost function Inside(keyed: bool, items: Listing): string
    decreases items
  {
    if items.Nil? then if keyed then "}" else "]"
    else ItemText(keyed, items.item) + (items.after + ((if items.rest.Nil? then "" else ",") + Inside(keyed, items.rest)))
  }

  ghost function ItemText(keyed: bool, it: Item): string
    decreases it
  {
    it.before + ((if keyed then KeyText(it) + it.space else "") + Written(it.value))
  }

  ghost function KeyText(it: Item): string {
    Quoted(it.key) + (it.gap + ":")
  }

  /** How deeply groups are nested; an empty group holds nothing. */
  ghost function Depth(d: Doc): nat {
    if d.Group? && d.items.Cons? then 1 + DepthItems(d.items) else 0
  }

  ghost function DepthItems(items: Listing): nat {
    if items.Nil? then 0
    else
      var here, rest := Depth(items.item.value), DepthItems(items.rest);
      if here < rest then rest else here
  }

  // ----- tokens -----

  lemma {:induction false} BlankRead(s: string, i: nat, w: string)
    requires Blank(w) && At(s, i, w)
    ensures i + |w| <= |s| && Next(s, i) == Next(s, i + |w|)
    decreases |w|
  {
    hide TokenAt;
    if w != "" {
      assert s[i + 0] == w[0];
      assert w == [w[0]] + w[1..];
      AtSplit(s, i, [w[0]], w[1..]);
      BlankRead(s, i + 1, w[1..]);
    }
  }

  lemma {:induction false} BlankFound(s: string, i: nat) returns (w: string)
    requires i <= |s|
    ensures Blank(w) && At(s, i, w) && i + |w| == SkipWs(s, i)
  {
    w := s[i..SkipWs(s, i)];
  }

  lemma {:induction false} NumeralRead(s: string, i: nat, t: string)
    requires At(s, i, t) && Stops(s, i + |t|) && forall k :: 0 <= k < |t| ==> t[k] in "0123456789.eE+-"
    ensures NumberEnd(s, i) == i + |t|
    decreases |t|
  {
    if t != "" {
      assert s[i + 0] == t[0];
      assert t == [t[0]] + t[1..];
      AtSplit(s, i, [t[0]], t[1..]);
      NumeralRead(s, i + 1, t[1..]);
    }
  }

  ghost function TokenOf(d: Doc): Token
    requires Good(d)
  {
    match d
    case Str(pieces) => Text(Meaning(pieces))
    case Num(text) => Number(text)
    case Bool(value) => Boolean(value)
    case Nul => Null
    case Group(keyed, _, _) => if keyed then ObjectBegin else ArrayBegin
  }

  lemma QuotedRead(s: string, i: nat, ps: seq<Piece>)
    requires AllProper(ps) && At(s, i, Quoted(ps))
    ensures i <= |s| && Next(s, i) == Tok(Text(Meaning(ps)), i + |Quoted(ps)|)
  {
    hide At, AllProper, Meaning, Spellings, StringBody;
    AtSplit(s, i, "\"", Spellings(ps) + "\"");
    QuoteAt(s, i);
    PiecesRead(s, i + 1, ps);
  }

  lemma WordRead(s: string, i: nat, w: string)
    requires w in ["true", "false", "null"] && At(s, i, w)
    ensures i <= |s| && Next(s, i) == Tok(if w == "null" then Null else Boolean(w == "true"), i + |w|)
  {
    assert w == [w[0]] + w[1..];
    AtSplit(s, i, [w[0]], w[1..]);
    assert s[i + 0] == w[0];
  }

  lemma NumberRead(s: string, i: nat, t: string)
    requires Numeral(t) && At(s, i, t) && Stops(s, i + |t|)
    ensures Next(s, i) == Tok(Number(t), i + |t|)
  {
    hide Stops, NumberEnd, SkipWs, StringBody;
    assert s[i + 0] == t[0];
    assert s[i..i + |t|] == t;
    assert forall k :: 0 <= k < |t| - 1 ==> t[1..][k] == t[k + 1];
    assert t == [t[0]] + t[1..];
    AtSplit(s, i, [t[0]], t[1..]);
    NumeralRead(s, i + 1, t[1..]);
    FirstOfNumeral(s, i);
  }

  /** Only a digit or a minus begins a number. */
  lemma FirstOfNumeral(s: string, i: nat)
    requires i < |s|
    ensures s[i] in "-0123456789" <==> TokenAt(s, i).Tok? && TokenAt(s, i).token.Number?
    ensures s[i] in "-0123456789" ==>
              Next(s, i) == TokenAt(s, i) == Tok(Number(s[i..NumberEnd(s, i + 1)]), NumberEnd(s, i + 1))
  {
    hide NumberEnd, TokenAt;
    BeginsNumeral(s[i]);
    Kinds(s, i);
    assert Begins(s[i]) ==> SkipWs(s, i) == i;
  }

  ghost predicate Begins(c: char) {
    '0' <= c <= '9' || c == '-'
  }

  lemma BeginsNumeral(c: char)
    ensures c in "-0123456789" <==> Begins(c)
  {
  }

  lemma Kinds(s: string, i: nat)
    requires i < |s|
    ensures Begins(s[i]) <==> TokenAt(s, i).Tok? && TokenAt(s, i).token.Number?
    ensures Begins(s[i]) ==> TokenAt(s, i) == Tok(Number(s[i..NumberEnd(s, i + 1)]), NumberEnd(s, i + 1))
  {
    hide NumberEnd, StringBody, At;
  }

  lemma ScalarRead(s: string, i: nat, d: Doc)
    requires Good(d) && !d.Group? && At(s, i, Written(d)) && (d.Num? ==> Stops(s, i + |Written(d)|))
    ensures i <= |s| && Next(s, i) == Tok(TokenOf(d), i + |Written(d)|)
  {
    hide Next, At, Stops, Quoted, Numeral;
    match d
    case Str(pieces) => QuotedRead(s, i, pieces);
    case Num(text) => NumberRead(s, i, text);
    case _ => WordRead(s, i, Written(d));
  }

  /** `t` was read off at `i` as this value. */
  ghost predicate ReadAs(s: string, i: nat, t: Lexed, d: Doc) {
    && Good(d) && At(s, i, Written(d)) && t == Tok(TokenOf(d), i + |Written(d)|)
    && (d.Num? ==> Stops(s, i + |Written(d)|))
  }

  lemma ScalarFound(s: string, i: nat) returns (d: Doc)
    requires i < |s| && TokenAt(s, i).Tok? && IsScalar(TokenAt(s, i).token)
    ensures !d.Group? && ReadAs(s, i, TokenAt(s, i), d)
  {
    hide TokenAt, ReadAs;
    var t := TokenAt(s, i);
    if t.token.Text? {
      d := TextFound(s, i);
    } else if t.token.Number? {
      d := NumberFound(s, i);
    } else {
      d := WordFound(s, i);
    }
  }

  lemma TextFound(s: string, i: nat) returns (d: Doc)
    requires i < |s| && TokenAt(s, i).Tok? && TokenAt(s, i).token.Text?
    ensures d.Str? && ReadAs(s, i, TokenAt(s, i), d)
  {
    hide At, StringBody, NumberEnd, AllProper, Meaning, Spellings;
    var ps := PiecesFound(s, i + 1);
    QuoteAt(s, i);
    AtJoin(s, i, "\"", Spellings(ps) + "\"");
    d := Str(ps);
  }

  lemma NumberFound(s: string, i: nat) returns (d: Doc)
    requires i < |s| && TokenAt(s, i).Tok? && TokenAt(s, i).token.Number?
    ensures d.Num? && ReadAs(s, i, TokenAt(s, i), d)
  {
    FirstOfNumeral(s, i);
    hide TokenAt;
    var e := NumberEnd(s, i + 1);
    d := Num(s[i..e]);
    assert forall k :: i < k < e ==> NumberChar(s[k]);
  }

  lemma WordFound(s: string, i: nat) returns (d: Doc)
    requires i < |s| && TokenAt(s, i).Tok? && (TokenAt(s, i).token.Boolean? || TokenAt(s, i).token.Null?)
    ensures (d.Bool? || d.Nul?) && ReadAs(s, i, TokenAt(s, i), d)
  {
    hide At, StringBody, NumberEnd;
    var t := TokenAt(s, i).token;
    d := if t.Null? then Nul else Bool(t.value);
    TailJoin(s, i, Written(d));
  }

  lemma TailJoin(s: string, i: nat, w: string)
    requires i < |s| && w != "" && s[i] == w[0] && At(s, i + 1, w[1..])
    ensures At(s, i, w)
  {
    AtJoin(s, i, [w[0]], w[1..]);
    assert w == [w[0]] + w[1..];
  }

  // ----- every text is taken -----

  /** The item read from `i` on: its key and colon, and where its value ends. */
  ghost predicate ItemTaken(s: string, i: nat, keyed: bool, it: Item, depth: nat)
    requires i <= |s| && AllProper(it.key)
  {
    var next := Next(s, i);
    && next.Tok?
    && (keyed ==> && next.token == Text(Meaning(it.key))
                  && Next(s, next.next) == Tok(Colon, i + |it.before| + |KeyText(it)|))
    && var v := Element(s, keyed, next.token, next.next);
       v.Tok? && Value(s, v.token, v.next, depth) == Some(i + |ItemText(keyed, it)|)
  }

  lemma KeyRead(s: string, i: nat, it: Item)
    requires AllProper(it.key) && Blank(it.gap) && At(s, i, KeyText(it))
    ensures i <= |s| && Next(s, i) == Tok(Text(Meaning(it.key)), i + |Quoted(it.key)|)
    ensures i + |KeyText(it)| <= |s| && Next(s, i + |Quoted(it.key)|) == Tok(Colon, i + |KeyText(it)|)
  {
    hide At, Next, AllProper, Meaning, Quoted, Blank;
    var q := Quoted(it.key);
    AtSplit(s, i, q, it.gap + ":");
    AtSplit(s, i + |q|, it.gap, ":");
    QuotedRead(s, i, it.key);
    BlankRead(s, i + |q|, it.gap);
    MarkRead(s, i + |q| + |it.gap|, ':');
  }

  lemma MarkRead(s: string, i: nat, c: char)
    requires At(s, i, [c]) && Mark(c).Some?
    ensures i < |s| && Next(s, i) == Tok(Mark(c).value, i + 1) && Stops(s, i)
  {
    assert s[i + 0] == [c][0];
    MarkToken(s, i, c);
  }

  lemma AfterRead(s: string, e: nat, keyed: bool, after: string, rest: Listing)
    requires Blank(after) && At(s, e, after + ((if rest.Nil? then "" else ",") + Inside(keyed, rest)))
    ensures e <= |s| && Stops(s, e)
    ensures Next(s, e) == Tok(if rest.Nil? then Closer(keyed) else Comma, e + |after| + 1)
    ensures e + |after| + 1 <= |s|
    ensures rest.Cons? ==> At(s, e + |after| + 1, Inside(keyed, rest))
  {
    hide At, Next, Inside, Blank, Stops;
    var c := if rest.Cons? then ',' else if keyed then '}' else ']';
    var more := if rest.Nil? then "" else Inside(keyed, rest);
    SeparatorText(keyed, rest);
    AtSplit(s, e, after, [c] + more);
    AtSplit(s, e + |after|, [c], more);
    BlankRead(s, e, after);
    MarkRead(s, e + |after|, c);
    BlankStops(s, e, after);
  }

  lemma SeparatorText(keyed: bool, rest: Listing)
    ensures (if rest.Nil? then "" else ",") + Inside(keyed, rest)
            == [if rest.Cons? then ',' else if keyed then '}' else ']'] + (if rest.Nil? then "" else Inside(keyed, rest))
  {
  }

  lemma BlankStops(s: string, i: nat, w: string)
    requires Blank(w) && At(s, i, w) && i + |w| <= |s| && Stops(s, i + |w|)
    ensures Stops(s, i)
  {
    if w != "" {
      assert s[i + 0] == w[0];
    }
  }

  /** Any text of a value not nested too deeply is taken, and the reader ends right
      behind it; behind a number the next character must not continue it. */
  lemma {:induction false} ValueRead(s: string, i: nat, d: Doc, depth: nat)
    requires Good(d) && At(s, i, Written(d)) && Depth(d) + depth <= 128
    requires d.Num? ==> Stops(s, i + |Written(d)|)
    ensures i <= |s| && Next(s, i).Tok?
    ensures Value(s, Next(s, i).token, Next(s, i).next, depth) == Some(i + |Written(d)|)
    decreases d
  {
    hide At, Next, Stops, Blank, Items, GoodItems, DepthItems, AllProper;
    if d.Group? {
      GroupOpens(s, i, d);
      if d.items.Nil? {
        EmptyRead(s, i + 1, d);
      } else {
        ItemsRead(s, i + 1, d.keyed, d.items, depth);
      }
    } else {
      ScalarRead(s, i, d);
    }
  }

  lemma GroupOpens(s: string, i: nat, d: Doc)
    requires d.Group? && At(s, i, Written(d))
    ensures i < |s| && Next(s, i) == Tok(if d.keyed then ObjectBegin else ArrayBegin, i + 1)
    ensures At(s, i + 1, (if d.items.Nil? then d.blank else "") + Inside(d.keyed, d.items))
    ensures d.items.Cons? ==> At(s, i + 1, Inside(d.keyed, d.items))
  {
    hide At, Next, Inside;
    var c := if d.keyed then '{' else '[';
    AtSplit(s, i, [c], (if d.items.Nil? then d.blank else "") + Inside(d.keyed, d.items));
    assert "" + Inside(d.keyed, d.items) == Inside(d.keyed, d.items);
    MarkRead(s, i, c);
  }

  lemma EmptyRead(s: string, i: nat, d: Doc)
    requires d.Group? && d.items.Nil? && Blank(d.blank) && At(s, i, d.blank + Inside(d.keyed, d.items))
    ensures i <= |s| && Next(s, i) == Tok(Closer(d.keyed), i + |d.blank| + 1)
  {
    hide At, Next, Blank;
    AtSplit(s, i, d.blank, Inside(d.keyed, d.items));
    BlankRead(s, i, d.blank);
    MarkRead(s, i + |d.blank|, if d.keyed then '}' else ']');
  }

  lemma {:induction false} ItemRead(s: string, i: nat, keyed: bool, it: Item, depth: nat)
    requires GoodItem(it) && At(s, i, ItemText(keyed, it)) && Depth(it.value) + depth <= 128
    requires it.value.Num? ==> Stops(s, i + |ItemText(keyed, it)|)
    ensures i <= |s| && ItemTaken(s, i, keyed, it, depth)
    decreases it
  {
    hide At, Next, Stops, Blank, Value, Depth, Good, AllProper, Meaning, KeyText, Written;
    var lead := if keyed then KeyText(it) + it.space else "";
    AtSplit(s, i, it.before, lead + Written(it.value));
    var j := i + |it.before|;
    AtSplit(s, j, lead, Written(it.value));
    BlankRead(s, i, it.before);
    ValueRead(s, j + |lead|, it.value, depth);
    if keyed {
      AtSplit(s, j, KeyText(it), it.space);
      KeyRead(s, j, it);
      BlankRead(s, j + |KeyText(it)|, it.space);
    }
  }

  lemma {:induction false} ItemsRead(s: string, i: nat, keyed: bool, items: Listing, depth: nat)
    requires items.Cons? && GoodItems(items) && At(s, i, Inside(keyed, items)) && 1 + DepthItems(items) + depth <= 128
    ensures i <= |s| && Next(s, i).Tok? && Next(s, i).token != Closer(keyed)
    ensures Items(s, keyed, Next(s, i).token, Next(s, i).next, depth) == Some(i + |Inside(keyed, items)|)
    decreases items
  {
    hide At, Next, Stops, Blank, Value, Items, Depth, Good, AllProper, ItemText, ItemTaken, Element;
    var it, rest := items.item, items.rest;
    var text := ItemText(keyed, it);
    var e := i + |text|;
    AtSplit(s, i, text, items.after + ((if rest.Nil? then "" else ",") + Inside(keyed, rest)));
    AfterRead(s, e, keyed, items.after, rest);
    ItemRead(s, i, keyed, it, depth + 1);
    ItemFacts(s, i, keyed, it, depth + 1);
    ItemsStep(s, keyed, Next(s, i).token, Next(s, i).next, depth);
    if rest.Cons? {
      ItemsRead(s, e + |items.after| + 1, keyed, rest, depth);
    }
  }

  lemma ItemFacts(s: string, i: nat, keyed: bool, it: Item, depth: nat)
    requires i <= |s| && AllProper(it.key) && ItemTaken(s, i, keyed, it, depth)
    ensures Next(s, i).Tok? && Next(s, i).token != Closer(keyed)
    ensures keyed ==> Next(s, i).token == Text(Meaning(it.key))
    ensures var v := Element(s, keyed, Next(s, i).token, Next(s, i).next);
            v.Tok? && Value(s, v.token, v.next, depth) == Some(i + |ItemText(keyed, it)|)
  {
    hide Next, Items, ItemText, KeyText, Meaning;
  }

  // ----- nothing else is taken -----

  lemma MarkFound(s: string, i: nat, c: char) returns (w: string)
    requires i <= |s| && Mark(c).Some? && Next(s, i).Tok? && Next(s, i).token == Mark(c).value
    ensures Blank(w) && At(s, i, w + [c]) && Next(s, i) == Tok(Mark(c).value, i + |w| + 1)
  {
    w := BlankFound(s, i);
    var k := i + |w|;
    MarkAt(s, k, c);
    hide Next, SkipWs, TokenAt, Blank;
    AtJoin(s, i, w, [c]);
  }

  lemma MarkAt(s: string, i: nat, c: char)
    requires i < |s| && Mark(c).Some? && TokenAt(s, i).Tok? && TokenAt(s, i).token == Mark(c).value
    ensures s[i] == c && TokenAt(s, i).next == i + 1 && At(s, i, [c])
  {
    hide StringBody, NumberEnd;
  }

  /** What was read from `i` to `e` at this depth. */
  ghost predicate ValueIn(s: string, i: nat, e: nat, depth: nat, w: string, d: Doc) {
    && Blank(w) && Good(d) && Depth(d) + depth <= 128
    && At(s, i, w + Written(d)) && e == i + |w| + |Written(d)|
    && (d.Num? ==> Stops(s, e))
  }

  lemma {:induction false} ValueFound(s: string, i: nat, depth: nat) returns (w: string, d: Doc)
    requires i <= |s| && Next(s, i).Tok? && Value(s, Next(s, i).token, Next(s, i).next, depth).Some?
    ensures ValueIn(s, i, Value(s, Next(s, i).token, Next(s, i).next, depth).value, depth, w, d)
    decreases |s| - i, 0
  {
    hide At, Next, Stops, Blank, Items, GoodItems, DepthItems, Inside;
    var first := Next(s, i);
    if IsScalar(first.token) {
      w, d := ScalarIn(s, i, depth);
    } else {
      var keyed := first.token.ObjectBegin?;
      var c := if keyed then '{' else '[';
      w := MarkFound(s, i, c);
      var next := Next(s, first.next);
      var blank, items := "", Nil;
      if next.token == Closer(keyed) {
        blank := MarkFound(s, first.next, if keyed then '}' else ']');
        EmptyIn(s, first.next, keyed, blank);
      } else {
        items := ItemsFound(s, first.next, keyed, depth);
      }
      d := Group(keyed, blank, items);
      GroupIn(s, i, w, d);
      assert Depth(d) + depth <= 128;
    }
  }

  lemma ScalarIn(s: string, i: nat, depth: nat) returns (w: string, d: Doc)
    requires i <= |s| && Next(s, i).Tok? && IsScalar(Next(s, i).token) && depth <= 128
    ensures ValueIn(s, i, Next(s, i).next, depth, w, d)
  {
    hide At, TokenAt, Blank, Good, Stops, SkipWs;
    w := BlankFound(s, i);
    d := ScalarFound(s, i + |w|);
    AtJoin(s, i, w, Written(d));
  }

  lemma EmptyIn(s: string, i: nat, keyed: bool, blank: string)
    requires Blank(blank) && At(s, i, blank + [if keyed then '}' else ']'])
    ensures At(s, i, blank + Inside(keyed, Nil)) && GoodItems(Nil) && |Inside(keyed, Nil)| == 1 && Blank("")
  {
  }

  lemma GroupIn(s: string, i: nat, w: string, d: Doc)
    requires d.Group? && (d.items.Cons? ==> d.blank == "")
    requires At(s, i, w + [if d.keyed then '{' else '['])
    requires At(s, i + |w| + 1, d.blank + Inside(d.keyed, d.items))
             || (d.items.Cons? && At(s, i + |w| + 1, Inside(d.keyed, d.items)))
    ensures At(s, i, w + Written(d)) && Blank("")
    ensures |Written(d)| == 1 + |d.blank| + |Inside(d.keyed, d.items)|
  {
    hide At, Inside;
    assert "" + Inside(d.keyed, d.items) == Inside(d.keyed, d.items);
    var open := [if d.keyed then '{' else '['];
    AtJoin(s, i, w + open, d.blank + Inside(d.keyed, d.items));
    assert w + Written(d) == (w + open) + (d.blank + Inside(d.keyed, d.items));
  }

  /** An item stands from `i` on and is what was read there. */
  ghost predicate ItemIn(s: string, i: nat, keyed: bool, it: Item, depth: nat)
    requires i <= |s|
  {
    && GoodItem(it) && At(s, i, ItemText(keyed, it)) && ItemTaken(s, i, keyed, it, depth)
    && Depth(it.value) + depth <= 128
  }

  lemma {:induction false} ItemFound(s: string, i: nat, keyed: bool, depth: nat) returns (it: Item)
    requires i <= |s| && Next(s, i).Tok?
    requires var v := Element(s, keyed, Next(s, i).token, Next(s, i).next);
             v.Tok? && Value(s, v.token, v.next, depth).Some?
    ensures ItemIn(s, i, keyed, it, depth)
    decreases |s| - i, 1
  {
    hide At, Next, Stops, Blank, Value, Depth, Good, Written;
    if keyed {
      var before, key := KeyFound(s, i);
      var j := Next(s, i).next;
      var gap := MarkFound(s, j, ':');
      var colon := Next(s, j);
      var space, d := ValueFound(s, colon.next, depth);
      it := Item(before, key, gap, space, d);
      KeyedIn(s, i, it);
    } else {
      var w, d := ValueFound(s, i, depth);
      it := Item(w, [], "", "", d);
      PlainIn(it);
    }
  }

  lemma PlainIn(it: Item)
    requires it.key == [] && it.gap == "" && it.space == ""
    ensures ItemText(false, it) == it.before + Written(it.value) && AllProper(it.key) && Blank("")
  {
    hide Written;
    assert "" + Written(it.value) == Written(it.value);
  }

  lemma KeyFound(s: string, i: nat) returns (w: string, key: seq<Piece>)
    requires i <= |s| && Next(s, i).Tok? && Next(s, i).token.Text?
    ensures Blank(w) && AllProper(key) && At(s, i, w + Quoted(key))
    ensures Next(s, i) == Tok(Text(Meaning(key)), i + |w| + |Quoted(key)|)
  {
    hide At, TokenAt, Blank, AllProper, Meaning, Quoted, SkipWs;
    w := BlankFound(s, i);
    var d := TextFound(s, i + |w|);
    key := d.pieces;
    AtJoin(s, i, w, Quoted(key));
  }

  lemma KeyedIn(s: string, i: nat, it: Item)
    requires At(s, i, it.before + Quoted(it.key))
    requires At(s, i + |it.before| + |Quoted(it.key)|, it.gap + ":")
    requires At(s, i + |it.before| + |KeyText(it)|, it.space + Written(it.value))
    ensures At(s, i, ItemText(true, it)) && |KeyText(it)| == |Quoted(it.key)| + |it.gap| + 1
    ensures |ItemText(true, it)| == |it.before| + |KeyText(it)| + |it.space| + |Written(it.value)|
  {
    hide At, Quoted, Written;
    var lead, tail := it.before + Quoted(it.key), it.space + Written(it.value);
    AtJoin(s, i, lead, it.gap + ":");
    AtJoin(s, i, lead + (it.gap + ":"), tail);
    assert ItemText(true, it) == (lead + (it.gap + ":")) + tail;
  }

  lemma {:induction false} ItemsFound(s: string, i: nat, keyed: bool, depth: nat) returns (items: Listing)
    requires i <= |s| && Next(s, i).Tok?
    requires Items(s, keyed, Next(s, i).token, Next(s, i).next, depth).Some?
    ensures items.Cons? && GoodItems(items) && At(s, i, Inside(keyed, items)) && 1 + DepthItems(items) + depth <= 128
    ensures Items(s, keyed, Next(s, i).token, Next(s, i).next, depth) == Some(i + |Inside(keyed, items)|)
    decreases |s| - i, 2
  {
    hide At, Next, Blank, Value, Items, Element, ItemIn, Inside, GoodItems, DepthItems;
    var next := Next(s, i);
    ItemsStep(s, keyed, next.token, next.next, depth);
    var it := ItemFound(s, i, keyed, depth + 1);
    ItemInFacts(s, i, keyed, it, depth + 1);
    var e := i + |ItemText(keyed, it)|;
    var n := Next(s, e);
    var rest := Nil;
    var after := MarkFound(s, e, if n.token == Comma then ',' else if keyed then '}' else ']');
    if n.token == Comma {
      rest := ItemsFound(s, n.next, keyed, depth);
    }
    items := Cons(it, after, rest);
    ListIn(s, i, keyed, items, 127 - depth);
  }

  lemma ItemInFacts(s: string, i: nat, keyed: bool, it: Item, depth: nat)
    requires i <= |s| && ItemIn(s, i, keyed, it, depth)
    ensures GoodItem(it) && At(s, i, ItemText(keyed, it)) && Depth(it.value) + depth <= 128
    ensures Next(s, i).Tok? && Next(s, i).token != Closer(keyed)
    ensures var v := Element(s, keyed, Next(s, i).token, Next(s, i).next);
            v.Tok? && Value(s, v.token, v.next, depth) == Some(i + |ItemText(keyed, it)|)
  {
    hide At, Next, Value, Element, ItemText, ItemTaken, Depth, Good;
    ItemFacts(s, i, keyed, it, depth);
  }

  lemma ListIn(s: string, i: nat, keyed: bool, items: Listing, limit: int)
    requires items.Cons? && GoodItem(items.item) && Blank(items.after)
    requires At(s, i, ItemText(keyed, items.item)) && Depth(items.item.value) <= limit
    requires var e := i + |ItemText(keyed, items.item)|;
             var c := if items.rest.Cons? then ',' else if keyed then '}' else ']';
             && At(s, e, items.after + [c])
             && (items.rest.Cons? ==> && GoodItems(items.rest) && DepthItems(items.rest) <= limit
                                      && At(s, e + |items.after| + 1, Inside(keyed, items.rest)))
    ensures GoodItems(items) && At(s, i, Inside(keyed, items)) && DepthItems(items) <= limit
    ensures |Inside(keyed, items)| == |ItemText(keyed, items.item)| + |items.after| + 1
                                    + if items.rest.Cons? then |Inside(keyed, items.rest)| else 0
  {
    hide At, Blank, ItemText, Good, Depth;
    var rest := items.rest;
    SeparatorText(keyed, rest);
    var text := ItemText(keyed, items.item);
    var c := if rest.Cons? then ',' else if keyed then '}' else ']';
    var more := if rest.Nil? then "" else Inside(keyed, rest);
    if rest.Cons? {
      AtJoin(s, i + |text|, items.after + [c], more);
    } else {
      assert (items.after + [c]) + "" == items.after + [c];
    }
    assert (items.after + [c]) + more == items.after + ([c] + more);
    AtJoin(s, i, text, items.after + ([c] + more));
  }

  /** A value is taken from `i` to `e` exactly when whitespace and the text of a value
      not nested too deeply stand there, and no number runs on. */
  lemma ValueIs(s: string, i: nat, e: nat, depth: nat)
    requires i <= |s|
    ensures Next(s, i).Tok? && Value(s, Next(s, i).token, Next(s, i).next, depth) == Some(e)
            <==> exists w, d :: ValueIn(s, i, e, depth, w, d)
  {
    hide Next, Value, At, Stops, Blank, Good, Depth, Written;
    if Next(s, i).Tok? && Value(s, Next(s, i).token, Next(s, i).next, depth) == Some(e) {
      var w, d := ValueFound(s, i, depth);
    }
    if w, d :| ValueIn(s, i, e, depth, w, d) {
      AtSplit(s, i, w, Written(d));
      BlankRead(s, i, w);
      ValueRead(s, i + |w|, d, depth);
    }
  }
}
