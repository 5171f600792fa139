/** Whole texts: which ones the strict reader takes for one object or one array, and
    where it cuts them. */
module JsonDocuments {
  import opened Basics
  import opened Json
  import opened StrictJson
  import opened JsonLiterals
  import opened JsonWriter
  import opened JsonSlices
  import opened JsonGrammar

  /** One object or array, with whitespace around it. */
  datatype Document = Document(lead: string, blank: string, items: Listing, trail: string)

  /** `s` is the text of this object, or array if not keyed; its parts are not nested
      more than 128 deep. */
  ghost predicate Spells(s: string, keyed: bool, t: Document) {
    && Blank(t.lead) && Blank(t.trail) && Blank(t.blank) && GoodItems(t.items) && DepthItems(t.items) <= 128
    && s == t.lead + (Written(Group(keyed, t.blank, t.items)) + t.trail)
  }

  /** The fields of the items that stand from `i` on: each key, and the slice from
      behind its colon to the end of its value. */
  ghost function Listed(items: Listing, i: nat): seq<Member>
    requires GoodItems(items)
  {
    if items.Nil? then []
    else
      var it := items.item;
      assert GoodItem(it);
      var e := i + |ItemText(true, it)|;
      [AsMember(it, i)] + Listed(items.rest, e + |items.after| + 1)
  }

  /** The slices of an array: each value with the whitespace before it. */
  ghost function Cut(items: Listing): seq<string> {
    if items.Nil? then [] else [items.item.before + Written(items.item.value)] + Cut(items.rest)
  }

  /** The slices of an object: each value with the whitespace between its colon and it. */
  ghost function Parts(items: Listing): seq<string> {
    if items.Nil? then [] else [items.item.space + Written(items.item.value)] + Parts(items.rest)
  }

  lemma ListedStep(items: Listing, i: nat)
    requires items.Cons? && GoodItems(items)
    ensures AllProper(items.item.key) && GoodItems(items.rest)
    ensures var here := AsMember(items.item, i);
            Listed(items, i) == if items.rest.Nil? then [here]
                                else [here] + Listed(items.rest, i + |ItemText(true, items.item)| + |items.after| + 1)
  {
    hide AsMember;
    assert GoodItem(items.item);
    assert [AsMember(items.item, i)] + [] == [AsMember(items.item, i)];
  }

  lemma CutStep(items: Listing)
    requires items.Cons?
    ensures var here := items.item.before + Written(items.item.value);
            Cut(items) == if items.rest.Nil? then [here] else [here] + Cut(items.rest)
  {
    hide Written;
    var here := items.item.before + Written(items.item.value);
    assert [here] + [] == [here];
  }

  // ----- the end -----

  lemma EndsIs(s: string, i: nat)
    requires i <= |s|
    ensures Ends(s, i) <==> Blank(s[i..])
  {
    hide TokenAt;
    if Ends(s, i) {
      assert forall k :: 0 <= k < |s[i..]| ==> IsWs(s[i..][k]);
    }
    var e := SkipWs(s, i);
    if e < |s| {
      assert s[i..][e - i] == s[e];
    }
  }

  // ----- fields -----

  lemma {:induction false} MembersRead(s: string, i: nat, items: Listing)
    requires items.Cons? && GoodItems(items) && At(s, i, Inside(true, items)) && DepthItems(items) <= 128
    requires i + |Inside(true, items)| <= |s| && Ends(s, i + |Inside(true, items)|)
    ensures i <= |s| && Next(s, i).Tok? && Next(s, i).token != ObjectEnd
    ensures Members(s, Next(s, i).token, Next(s, i).next) == Some(Listed(items, i))
    decreases items
  {
    hide At, Next, Stops, Blank, Members, Depth, Good, AllProper, ItemText, ItemTaken, AsMember, Ends;
    var it, rest := items.item, items.rest;
    var e := i + |ItemText(true, it)|;
    AtSplit(s, i, ItemText(true, it), items.after + ((if rest.Nil? then "" else ",") + Inside(true, rest)));
    AfterRead(s, e, true, items.after, rest);
    ItemRead(s, i, true, it, 0);
    MembersOne(s, i, it);
    ListedStep(items, i);
    if rest.Cons? {
      MembersRead(s, e + |items.after| + 1, rest);
    }
  }

  ghost function AsMember(it: Item, i: nat): Member
    requires AllProper(it.key)
  {
    Member(Meaning(it.key), i + |it.before| + |KeyText(it)|, i + |ItemText(true, it)|)
  }

  /** `Members` takes one field and goes on. */
  lemma MembersOne(s: string, i: nat, it: Item)
    requires i <= |s| && AllProper(it.key) && ItemTaken(s, i, true, it, 0)
    ensures var e := i + |ItemText(true, it)|;
            && e <= |s| && Next(s, i).Tok? && Next(s, i).token != ObjectEnd
            && var n := Next(s, e);
               Members(s, Next(s, i).token, Next(s, i).next) ==
               if !n.Tok? then None
               else if n.token == ObjectEnd then if Ends(s, n.next) then Some([AsMember(it, i)]) else None
               else if n.token != Comma then None
               else
                 var m := Next(s, n.next);
                 if !m.Tok? then None else Push([AsMember(it, i)], Members(s, m.token, m.next))
  {
    hide Next, Value, Ends, ItemText, KeyText, Meaning, ItemTaken, AllProper;
    MemberFacts(s, i, it);
  }

  /** What it looks at. */
  lemma MemberFacts(s: string, i: nat, it: Item)
    requires i <= |s| && AllProper(it.key) && ItemTaken(s, i, true, it, 0)
    ensures var next := Next(s, i);
            && next.Tok? && next.token == Text(Meaning(it.key))
            && var colon := Next(s, next.next);
               && colon == Tok(Colon, i + |it.before| + |KeyText(it)|)
               && var v := Next(s, colon.next);
                  v.Tok? && Value(s, v.token, v.next, 0) == Some(i + |ItemText(true, it)|)
  {
    hide Next, Value, ItemText, KeyText, Meaning;
  }

  lemma {:induction false} MembersFound(s: string, i: nat) returns (items: Listing)
    requires i <= |s| && Next(s, i).Tok? && Members(s, Next(s, i).token, Next(s, i).next).Some?
    ensures items.Cons? && GoodItems(items) && At(s, i, Inside(true, items)) && DepthItems(items) <= 128
    ensures i + |Inside(true, items)| <= |s| && Ends(s, i + |Inside(true, items)|)
    ensures Members(s, Next(s, i).token, Next(s, i).next) == Some(Listed(items, i))
    decreases |s| - i
  {
    hide At, Next, Blank, Value, Inside, GoodItems, DepthItems, Ends, ItemTaken, Depth, Good, AllProper, ItemText;
    hide Members, AsMember, Listed, Element, Meaning, KeyText;
    FieldFollows(s, i);
    var it := ItemFound(s, i, true, 0);
    MembersOne(s, i, it);
    var e := i + |ItemText(true, it)|;
    var n := Next(s, e);
    var rest := Nil;
    var after := MarkFound(s, e, if n.token == Comma then ',' else '}');
    if n.token == Comma {
      rest := MembersFound(s, n.next);
    }
    items := Cons(it, after, rest);
    ListIn(s, i, true, items, 128);
    ListedStep(items, i);
  }

  lemma FieldFollows(s: string, i: nat)
    requires i <= |s| && Next(s, i).Tok? && Members(s, Next(s, i).token, Next(s, i).next).Some?
    ensures var v := Element(s, true, Next(s, i).token, Next(s, i).next);
            v.Tok? && Value(s, v.token, v.next, 0).Some?
  {
    hide Next, Value, Ends;
  }

  // ----- slices -----

  lemma {:induction false} ElementsRead(s: string, i: nat, items: Listing)
    requires items.Cons? && GoodItems(items) && At(s, i, Inside(false, items)) && DepthItems(items) <= 128
    requires i + |Inside(false, items)| <= |s| && Ends(s, i + |Inside(false, items)|)
    ensures i <= |s| && Next(s, i).Tok? && Next(s, i).token != ArrayEnd
    ensures Elements(s, i, Next(s, i).token, Next(s, i).next) == Some(Cut(items))
    decreases items
  {
    hide At, Next, Stops, Blank, Elements, Depth, Good, AllProper, ItemText, ItemTaken, Ends, Written;
    var it, rest := items.item, items.rest;
    var e := i + |ItemText(false, it)|;
    AtSplit(s, i, ItemText(false, it), items.after + ((if rest.Nil? then "" else ",") + Inside(false, rest)));
    AfterRead(s, e, false, items.after, rest);
    ItemRead(s, i, false, it, 0);
    ElementsOne(s, i, it);
    CutStep(items);
    if rest.Cons? {
      ElementsRead(s, e + |items.after| + 1, rest);
    }
  }

  /** `Elements` takes one slice and goes on. */
  lemma ElementsOne(s: string, i: nat, it: Item)
    requires i <= |s| && AllProper(it.key) && ItemTaken(s, i, false, it, 0) && At(s, i, ItemText(false, it))
    ensures var e := i + |ItemText(false, it)|; var here := [it.before + Written(it.value)];
            && e <= |s| && Next(s, i).Tok? && Next(s, i).token != ArrayEnd
            && var n := Next(s, e);
               Elements(s, i, Next(s, i).token, Next(s, i).next) ==
               if !n.Tok? then None
               else if n.token == ArrayEnd then if Ends(s, n.next) then Some(here) else None
               else if n.token != Comma then None
               else
                 var m := Next(s, n.next);
                 if !m.Tok? then None else Push(here, Elements(s, n.next, m.token, m.next))
  {
    hide Next, Value, Ends, ItemText, Written, ItemTaken, AllProper;
    ElementFacts(s, i, it);
  }

  lemma ElementFacts(s: string, i: nat, it: Item)
    requires i <= |s| && AllProper(it.key) && ItemTaken(s, i, false, it, 0) && At(s, i, ItemText(false, it))
    ensures var next := Next(s, i); var e := i + |ItemText(false, it)|;
            && next.Tok? && next.token != ArrayEnd && Value(s, next.token, next.next, 0) == Some(e)
            && e <= |s| && s[i..e] == it.before + Written(it.value)
  {
    hide Next, Value, Written;
    ItemFacts(s, i, false, it, 0);
    assert ItemText(false, it) == it.before + Written(it.value);
    AtSlice(s, i, ItemText(false, it));
  }

  lemma AtSlice(s: string, i: nat, t: string)
    ensures At(s, i, t) <==> i + |t| <= |s| && s[i..i + |t|] == t
  {
    if i + |t| <= |s| && s[i..i + |t|] == t {
      forall k | 0 <= k < |t|
        ensures s[i + k] == t[k]
      {
        assert s[i..i + |t|][k] == s[i + k];
      }
    }
  }

  lemma {:induction false} ElementsFound(s: string, i: nat) returns (items: Listing)
    requires i <= |s| && Next(s, i).Tok? && Elements(s, i, Next(s, i).token, Next(s, i).next).Some?
    ensures items.Cons? && GoodItems(items) && At(s, i, Inside(false, items)) && DepthItems(items) <= 128
    ensures i + |Inside(false, items)| <= |s| && Ends(s, i + |Inside(false, items)|)
    ensures Elements(s, i, Next(s, i).token, Next(s, i).next) == Some(Cut(items))
    decreases |s| - i
  {
    hide At, Next, Blank, Value, Inside, GoodItems, DepthItems, Ends, ItemTaken, Depth, Good, AllProper, ItemText, Written;
    var it := ItemFound(s, i, false, 0);
    ElementsOne(s, i, it);
    hide Elements;
    var e := i + |ItemText(false, it)|;
    var n := Next(s, e);
    var rest := Nil;
    var after := MarkFound(s, e, if n.token == Comma then ',' else ']');
    if n.token == Comma {
      rest := ElementsFound(s, n.next);
    }
    items := Cons(it, after, rest);
    ListIn(s, i, false, items, 128);
    CutStep(items);
  }

  // ----- whole texts -----

  /** The bracket and what is behind it. */
  lemma DocumentOpens(s: string, keyed: bool, t: Document)
    requires Spells(s, keyed, t)
    ensures var j := |t.lead| + 1;
            && j <= |s| && Next(s, 0) == Tok(if keyed then ObjectBegin else ArrayBegin, j)
            && (t.items.Nil? ==> Next(s, j).Tok? && Next(s, j).token == Closer(keyed) && Ends(s, Next(s, j).next))
            && (t.items.Cons? ==> && At(s, j, Inside(keyed, t.items)) && j + |Inside(keyed, t.items)| <= |s|
                                  && Ends(s, j + |Inside(keyed, t.items)|))
  {
    hide Next, Blank, GoodItems, DepthItems, Inside, Ends;
    var d := Group(keyed, t.blank, t.items);
    var j, e := |t.lead|, |t.lead| + |Written(d)|;
    assert s[0..j] == t.lead && s[j..e] == Written(d) && s[e..] == t.trail;
    AtSlice(s, 0, t.lead);
    AtSlice(s, j, Written(d));
    BlankRead(s, 0, t.lead);
    GroupOpens(s, j, d);
    EndsIs(s, e);
    if t.items.Nil? {
      EmptyRead(s, j + 1, d);
      ClosesOnly(keyed);
    }
  }

  lemma ClosesOnly(keyed: bool)
    ensures |Inside(keyed, Nil)| == 1
  {
  }

  lemma FieldsRead(s: string, t: Document)
    requires Spells(s, true, t)
    ensures AllFields(s) == Some(Listed(t.items, |t.lead| + 1))
  {
    hide Next, Members, Inside, Blank, GoodItems, DepthItems, Ends, At;
    DocumentOpens(s, true, t);
    if t.items.Cons? {
      MembersRead(s, |t.lead| + 1, t.items);
    }
  }

  lemma SlicesRead(s: string, t: Document)
    requires Spells(s, false, t)
    ensures Slices(s) == Some(Cut(t.items))
  {
    hide Next, Elements, Inside, Blank, GoodItems, DepthItems, Ends, At;
    DocumentOpens(s, false, t);
    if t.items.Cons? {
      ElementsRead(s, |t.lead| + 1, t.items);
    }
  }

  /** Whitespace, a bracket, the items up to `e`, and nothing more. */
  lemma DocumentIn(s: string, keyed: bool, t: Document)
    requires Blank(t.lead) && Blank(t.blank) && GoodItems(t.items) && DepthItems(t.items) <= 128
    requires At(s, 0, t.lead + [if keyed then '{' else '[']) && (t.items.Cons? ==> t.blank == "")
    requires var j := |t.lead| + 1;
             var e := j + |t.blank| + |Inside(keyed, t.items)|;
             && At(s, j, t.blank + Inside(keyed, t.items)) && e <= |s| && Ends(s, e) && t.trail == s[e..]
    ensures Spells(s, keyed, t)
  {
    hide Next, Blank, GoodItems, DepthItems, Inside, Ends, At;
    var d := Group(keyed, t.blank, t.items);
    GroupIn(s, 0, t.lead, d);
    var e := |t.lead| + |Written(d)|;
    AtSlice(s, 0, t.lead + Written(d));
    EndsIs(s, e);
    assert s[0..e] == s[..e];
    assert s == s[..e] + s[e..];
  }

  /** How an accepted text opens: with nothing in its brackets, or with items. */
  lemma OpensIn(s: string, keyed: bool) returns (lead: string, blank: string)
    requires Next(s, 0).Tok? && Next(s, 0).token == (if keyed then ObjectBegin else ArrayBegin)
    ensures Blank(lead) && Blank(blank) && At(s, 0, lead + [if keyed then '{' else '[']) && Next(s, 0).next == |lead| + 1
    ensures var j := |lead| + 1;
            if Next(s, j).Tok? && Next(s, j).token == Closer(keyed)
            then Next(s, j).next == j + |blank| + 1 && At(s, j, blank + Inside(keyed, Nil))
            else blank == ""
  {
    hide Next, Blank, At;
    lead := MarkFound(s, 0, if keyed then '{' else '[');
    blank := "";
    assert Blank(blank) by {
      EmptyBlank();
    }
    var j := |lead| + 1;
    if Next(s, j).Tok? && Next(s, j).token == Closer(keyed) {
      blank := MarkFound(s, j, if keyed then '}' else ']');
    }
  }

  lemma EmptyBlank()
    ensures Blank("")
  {
  }

  lemma FieldsFound(s: string) returns (t: Document)
    requires AllFields(s).Some?
    ensures Spells(s, true, t) && AllFields(s) == Some(Listed(t.items, |t.lead| + 1))
  {
    hide Next, Members, Inside, Blank, Ends, At, Spells;
    var lead, blank := OpensIn(s, true);
    var j := |lead| + 1;
    var items := Nil;
    ClosesOnly(true);
    if Next(s, j).token != ObjectEnd {
      items := MembersFound(s, j);
      assert "" + Inside(true, items) == Inside(true, items);
    }
    t := Document(lead, blank, items, s[j + |blank| + |Inside(true, items)|..]);
    DocumentIn(s, true, t);
  }

  lemma SlicesFound(s: string) returns (t: Document)
    requires Slices(s).Some?
    ensures Spells(s, false, t) && Slices(s) == Some(Cut(t.items))
  {
    hide Next, Elements, Inside, Blank, Ends, At, Spells;
    var lead, blank := OpensIn(s, false);
    var j := |lead| + 1;
    var items := Nil;
    ClosesOnly(false);
    if Next(s, j).token != ArrayEnd {
      items := ElementsFound(s, j);
      assert "" + Inside(false, items) == Inside(false, items);
    }
    t := Document(lead, blank, items, s[j + |blank| + |Inside(false, items)|..]);
    DocumentIn(s, false, t);
  }

  /** A text is taken for an object with these fields exactly when it spells one whose
      keys are distinct, and the fields are its keys and where its values stand. */
  lemma ObjectIs(s: string, ms: seq<Member>)
    ensures Fields(s) == Some(ms) <==>
            exists t :: Spells(s, true, t) && ms == Listed(t.items, |t.lead| + 1) && DistinctKeys(ms)
  {
    hide AllFields, Blank, GoodItems, DepthItems, Written, DistinctKeys, Listed;
    if Fields(s) == Some(ms) {
      var t := FieldsFound(s);
    }
    if t :| Spells(s, true, t) && ms == Listed(t.items, |t.lead| + 1) && DistinctKeys(ms) {
      FieldsRead(s, t);
    }
  }

  /** A text is taken for an array with these slices exactly when it spells one, and
      the slices are its values. */
  lemma ArrayIs(s: string, items: seq<string>)
    ensures Slices(s) == Some(items) <==> exists t :: Spells(s, false, t) && items == Cut(t.items)
  {
    hide Slices, Spells, Cut;
    if Slices(s) == Some(items) {
      var t := SlicesFound(s);
    }
    if t :| Spells(s, false, t) && items == Cut(t.items) {
      SlicesRead(s, t);
    }
  }

  // ----- an object's map -----

  /** The slice of each field is the text of its value. */
  lemma {:induction false} ListedParts(s: string, i: nat, items: Listing)
    requires GoodItems(items) && At(s, i, Inside(true, items))
    ensures var ms := Listed(items, i);
            && |ms| == |Parts(items)| && Within(s, ms)
            && forall k :: 0 <= k < |ms| ==> s[ms[k].start..ms[k].stop] == Parts(items)[k]
    decreases items
  {
    hide At, Blank, Good, KeyText, Written, AllProper, Meaning;
    if items.Cons? {
      var it, rest := items.item, items.rest;
      var text := ItemText(true, it);
      var e := i + |text|;
      var sep := if rest.Nil? then "" else ",";
      AtSplit(s, i, text, items.after + (sep + Inside(true, rest)));
      AtSplit(s, e, items.after, sep + Inside(true, rest));
      PartAt(s, i, it);
      if rest.Cons? {
        AtSplit(s, e + |items.after|, sep, Inside(true, rest));
        ListedParts(s, e + |items.after| + 1, rest);
      }
    }
  }

  lemma PartAt(s: string, i: nat, it: Item)
    requires At(s, i, ItemText(true, it))
    ensures var start := i + |it.before| + |KeyText(it)|; var e := i + |ItemText(true, it)|;
            start <= e <= |s| && s[start..e] == it.space + Written(it.value)
  {
    hide At, KeyText, Written;
    var tail := it.space + Written(it.value);
    assert ItemText(true, it) == (it.before + KeyText(it)) + tail;
    AtSplit(s, i, it.before + KeyText(it), tail);
    AtSlice(s, i + |it.before + KeyText(it)|, tail);
  }

  /** The map takes each key to its field's slice, and has no other keys. */
  lemma {:induction false} AsMapIs(s: string, ms: seq<Member>, key: string, slice: string)
    requires Within(s, ms) && DistinctKeys(ms)
    ensures key in AsMap(s, ms) && AsMap(s, ms)[key] == slice
            <==> exists k :: 0 <= k < |ms| && ms[k].key == key && s[ms[k].start..ms[k].stop] == slice
    decreases |ms|
  {
    if ms != [] {
      var n := |ms| - 1;
      var front := ms[..n];
      AsMapIs(s, front, key, slice);
      if k :| 0 <= k < n && front[k].key == key && s[front[k].start..front[k].stop] == slice {
        assert ms[k] == front[k];
      }
      if k :| 0 <= k < |ms| && ms[k].key == key && s[ms[k].start..ms[k].stop] == slice {
        assert k < n ==> front[k] == ms[k];
      }
    }
  }
}
