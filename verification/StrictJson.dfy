/** The strict slicing reader of src/nxtai/responses_stream.hpp. */
module StrictJson {
  import opened Basics
  import opened Json

  // ----- one value -----

  function Closer(keyed: bool): Token {
    if keyed then ObjectEnd else ArrayEnd
  }

  predicate IsScalar(t: Token) {
    t.Text? || t.Number? || t.Boolean? || t.Null?
  }

  /** The token a member's value begins with: behind its key and colon in an
      object, the very token just read in an array. */
  ghost function Element(s: string, keyed: bool, next: Token, i: nat): (r: Lexed)
    requires i <= |s|
    ensures r.Tok? ==> i <= r.next <= |s|
  {
    if !keyed then Tok(next, i)
    else if !next.Text? then Fault
    else
      var colon := Next(s, i);
      if colon.Tok? && colon.token == Colon then Next(s, colon.next) else Fault
  }

  /** Where the value that begins with token `first`, read up to `i`, ends. */
  ghost function Value(s: string, first: Token, i: nat, depth: nat): (r: Option<nat>)
    requires i <= |s|
    ensures r.Some? ==> i <= r.value <= |s|
    decreases |s| - i, 0
  {
    if depth > 128 then None
    else if first.ObjectBegin? || first.ArrayBegin? then
      var next := Next(s, i);
      if !next.Tok? then None
      else if next.token == Closer(first.ObjectBegin?) then Some(next.next)
      else Items(s, first.ObjectBegin?, next.token, next.next, depth)
    else if IsScalar(first) then Some(i)
    else None
  }

  /** Where the object or array ends whose next member begins with `next`. */
  ghost function Items(s: string, keyed: bool, next: Token, i: nat, depth: nat): (r: Option<nat>)
    requires i <= |s|
    ensures r.Some? ==> i <= r.value <= |s|
    decreases |s| - i, 1
  {
    var v := Element(s, keyed, next, i);
    if !v.Tok? then None else
    var e := Value(s, v.token, v.next, depth + 1);
    if e.None? then None else
    var n := Next(s, e.value);
    if !n.Tok? then None
    else if n.token == Closer(keyed) then Some(n.next)
    else if n.token != Comma then None
    else
      var m := Next(s, n.next);
      if !m.Tok? then None else Items(s, keyed, m.token, m.next, depth)
  }

  /** `detail::value`. */
  method ReadValue(input: StringReader, first: Token, depth: nat) returns (ok: bool)
    requires input.offset <= |input.input|
    modifies input
    ensures ok <==> Value(input.input, first, old(input.offset), depth).Some?
    ensures ok ==> input.offset == Value(input.input, first, old(input.offset), depth).value
    decreases |input.input| - input.offset
  {
    hide Next;
    ghost var start := input.offset;
    if depth > 128 {
      return false;
    }
    if first.ObjectBegin? || first.ArrayBegin? {
      var keyed := first.ObjectBegin?;
      var close := Closer(keyed);
      var next := ReadToken(input);
      if !next.Tok? {
        return false;
      }
      if next.token == close {
        return true;
      }
      ghost var goal := Items(input.input, keyed, next.token, next.next, depth);
      while true
        invariant next.Tok? && input.offset == next.next <= |input.input|
        invariant input.offset > start
        invariant goal == Items(input.input, keyed, next.token, next.next, depth)
        decreases |input.input| - input.offset
      {
        hide Value, Items;
        ItemsStep(input.input, keyed, next.token, next.next, depth);
        if keyed {
          if !next.token.Text? {
            return false;
          }
          var colon := ReadToken(input);
          if colon != Tok(Colon, input.offset) {
            return false;
          }
          next := ReadToken(input);
          if !next.Tok? {
            return false;
          }
        }
        ok := ReadValue(input, next.token, depth + 1);
        if !ok {
          return false;
        }
        next := ReadToken(input);
        if !next.Tok? {
          return false;
        }
        if next.token == close {
          return true;
        }
        if next.token != Comma {
          return false;
        }
        next := ReadToken(input);
        if !next.Tok? {
          return false;
        }
      }
    }
    return IsScalar(first);
  }

  lemma ItemsStep(s: string, keyed: bool, next: Token, i: nat, depth: nat)
    requires i <= |s|
    ensures Items(s, keyed, next, i, depth) ==
            var v := Element(s, keyed, next, i);
            if !v.Tok? then None else
            var e := Value(s, v.token, v.next, depth + 1);
            if e.None? then None else
            var n := Next(s, e.value);
            if !n.Tok? then None
            else if n.token == Closer(keyed) then Some(n.next)
            else if n.token != Comma then None
            else
              var m := Next(s, n.next);
              if !m.Tok? then None else Items(s, keyed, m.token, m.next, depth)
  {
  }

  // ----- an object's fields -----

  /** A field: its decoded key and the slice that is its value. */
  datatype Member = Member(key: string, start: nat, stop: nat)

  /** Nothing but whitespace follows. */
  ghost predicate Ends(s: string, i: nat)
    requires i <= |s|
  {
    Next(s, i).End?
  }

  ghost function Push<T>(front: seq<T>, rest: Option<seq<T>>): Option<seq<T>> {
    if rest.Some? then Some(front + rest.value) else None
  }

  /** The fields of an object from the one whose key is `next`, to the end of the text. */
  ghost function Members(s: string, next: Token, i: nat): Option<seq<Member>>
    requires i <= |s|
    decreases |s| - i
  {
    if !next.Text? then None else
    var colon := Next(s, i);
    if !colon.Tok? || colon.token != Colon then None else
    var v := Next(s, colon.next);
    if !v.Tok? then None else
    var e := Value(s, v.token, v.next, 0);
    if e.None? then None else
    var here := [Member(next.text, colon.next, e.value)];
    var n := Next(s, e.value);
    if !n.Tok? then None
    else if n.token == ObjectEnd then if Ends(s, n.next) then Some(here) else None
    else if n.token != Comma then None
    else
      var m := Next(s, n.next);
      if !m.Tok? then None else Push(here, Members(s, m.token, m.next))
  }

  ghost predicate DistinctKeys(ms: seq<Member>) {
    forall i, j :: 0 <= i < j < |ms| ==> ms[i].key != ms[j].key
  }

  /** The fields in order, of a text the strict reader takes for one object,
      whatever its keys. */
  ghost function AllFields(s: string): (r: Option<seq<Member>>)
    ensures r.Some? ==> Within(s, r.value)
  {
    var open := Next(s, 0);
    if !open.Tok? || open.token != ObjectBegin then None else
    var next := Next(s, open.next);
    if !next.Tok? then None
    else if next.token == ObjectEnd then if Ends(s, next.next) then Some([]) else None
    else
      MembersWithin(s, next.token, next.next);
      Members(s, next.token, next.next)
  }

  /** Every slice lies in the text. */
  ghost predicate Within(s: string, ms: seq<Member>) {
    forall k :: 0 <= k < |ms| ==> ms[k].start <= ms[k].stop <= |s|
  }

  lemma {:induction false} MembersWithin(s: string, next: Token, i: nat)
    requires i <= |s|
    ensures Members(s, next, i).Some? ==> Within(s, Members(s, next, i).value)
    decreases |s| - i
  {
    hide Next, Value;
    var ms := Members(s, next, i);
    if ms.Some? {
      var colon := Next(s, i);
      var v := Next(s, colon.next);
      var e := Value(s, v.token, v.next, 0);
      var n := Next(s, e.value);
      if n.token == Comma {
        var m := Next(s, n.next);
        MembersWithin(s, m.token, m.next);
      }
    }
  }

  ghost function Fields(s: string): (r: Option<seq<Member>>)
    ensures r.Some? ==> Within(s, r.value)
  {
    var all := AllFields(s);
    if all.Some? && DistinctKeys(all.value) then all else None
  }

  /** The map from keys to slices. */
  ghost function AsMap(s: string, ms: seq<Member>): map<string, string>
    requires Within(s, ms)
  {
    if ms == [] then map[]
    else
      var last := ms[|ms| - 1];
      AsMap(s, ms[..|ms| - 1])[last.key := s[last.start..last.stop]]
  }

  lemma {:induction false} AsMapKeys(s: string, ms: seq<Member>, key: string)
    requires Within(s, ms)
    ensures key in AsMap(s, ms) <==> exists k :: 0 <= k < |ms| && ms[k].key == key
  {
    if ms != [] {
      var front := ms[..|ms| - 1];
      AsMapKeys(s, front, key);
      if key in AsMap(s, front) {
        var k :| 0 <= k < |front| && front[k].key == key;
        assert ms[k].key == key;
      }
      if k :| 0 <= k < |ms| && ms[k].key == key {
        assert k < |front| ==> front[k].key == key;
      }
    }
  }

  /** `detail::object`. */
  method Object(raw: string) returns (r: Option<map<string, string>>)
    ensures r.Some? <==> Fields(raw).Some?
    ensures r.Some? ==> r.value == AsMap(raw, Fields(raw).value)
  {
    hide Next, Members, AsMap, DistinctKeys;
    var input := new StringReader(raw);
    var next := ReadToken(input);
    if next != Tok(ObjectBegin, input.offset) {
      return None;
    }
    var fields: map<string, string> := map[];
    next := ReadToken(input);
    if !next.Tok? {
      return None;
    }
    ghost var all := AllFields(raw);
    ghost var done: seq<Member> := [];
    Start(raw, all);
    var last := next.token == ObjectEnd;
    while !last
      invariant next.Tok? && input.offset == next.next <= |raw|
      invariant Within(raw, done)
      invariant fields == AsMap(raw, done) && DistinctKeys(done)
      invariant all == if last then Closed(raw, done, next.next)
                       else Push(done, Members(raw, next.token, next.next))
      decreases |raw| - input.offset, !last
    {
      MembersStep(raw, done, next.token, next.next);
      if !next.token.Text? {
        return None;
      }
      var key := next.token.text;
      next := ReadToken(input);
      if next != Tok(Colon, input.offset) {
        return None;
      }
      var start := input.offset;
      next := ReadToken(input);
      if !next.Tok? {
        return None;
      }
      var ok := ReadValue(input, next.token, 0);
      if !ok {
        return None;
      }
      ghost var m := Member(key, start, input.offset);
      AddKey(raw, done, m, all);
      if key in fields {
        return None;
      }
      fields := fields[key := raw[start..input.offset]];
      done := done + [m];
      next := ReadToken(input);
      if !next.Tok? {
        return None;
      }
      if next.token == ObjectEnd {
        last := true;
      } else {
        if next.token != Comma {
          return None;
        }
        next := ReadToken(input);
        if !next.Tok? || next.token == ObjectEnd {
          NoKey(raw, done, next);
          return None;
        }
      }
    }
    next := ReadToken(input);
    if !next.End? {
      return None;
    }
    r := Some(fields);
  }

  ghost function Closed(s: string, done: seq<Member>, i: nat): Option<seq<Member>>
    requires i <= |s|
  {
    if Ends(s, i) then Some(done) else None
  }

  lemma Start(s: string, all: Option<seq<Member>>)
    ensures Push([], all) == all && AsMap(s, []) == map[] && DistinctKeys([])
  {
    assert all.Some? ==> [] + all.value == all.value;
  }

  lemma NoKey(s: string, done: seq<Member>, next: Lexed)
    requires next.Tok? ==> next.next <= |s|
    ensures next.Tok? && next.token == ObjectEnd ==> Push(done, Members(s, next.token, next.next)).None?
  {
  }

  lemma MembersStep(s: string, done: seq<Member>, next: Token, i: nat)
    requires i <= |s|
    ensures Push(done, Members(s, next, i)) ==
            if !next.Text? then None else
            var colon := Next(s, i);
            if !colon.Tok? || colon.token != Colon then None else
            var v := Next(s, colon.next);
            if !v.Tok? then None else
            var e := Value(s, v.token, v.next, 0);
            if e.None? then None else
            var done' := done + [Member(next.text, colon.next, e.value)];
            var n := Next(s, e.value);
            if !n.Tok? then None
            else if n.token == ObjectEnd then Closed(s, done', n.next)
            else if n.token != Comma then None
            else
              var m := Next(s, n.next);
              if !m.Tok? then None else Push(done', Members(s, m.token, m.next))
  {
    hide Next, Value;
    var r := Members(s, next, i);
    if r.Some? && |r.value| > 1 {
      assert done + r.value == done + [r.value[0]] + r.value[1..];
    }
  }

  /** A key already there makes any outcome a duplicate; a new one extends the map. */
  lemma AddKey(s: string, done: seq<Member>, m: Member, all: Option<seq<Member>>)
    requires Within(s, done)
    requires m.start <= m.stop <= |s| && DistinctKeys(done)
    ensures m.key !in AsMap(s, done) ==>
              && DistinctKeys(done + [m])
              && AsMap(s, done + [m]) == AsMap(s, done)[m.key := s[m.start..m.stop]]
    ensures m.key in AsMap(s, done) && all.Some? && done + [m] <= all.value ==> !DistinctKeys(all.value)
  {
    AsMapKeys(s, done, m.key);
    assert (done + [m])[..|done|] == done;
    if m.key in AsMap(s, done) && all.Some? && done + [m] <= all.value {
      var k :| 0 <= k < |done| && done[k].key == m.key;
      assert all.value[k] == done[k] && all.value[|done|] == m;
    }
  }

  // ----- an array's slices -----

  /** The slices from the one that starts at `start` with token `next`. */
  ghost function Elements(s: string, start: nat, next: Token, i: nat): Option<seq<string>>
    requires start <= i <= |s|
    decreases |s| - i
  {
    var e := Value(s, next, i, 0);
    if e.None? then None else
    var here := [s[start..e.value]];
    var n := Next(s, e.value);
    if !n.Tok? then None
    else if n.token == ArrayEnd then if Ends(s, n.next) then Some(here) else None
    else if n.token != Comma then None
    else
      var m := Next(s, n.next);
      if !m.Tok? then None else Push(here, Elements(s, n.next, m.token, m.next))
  }

  ghost function Slices(s: string): Option<seq<string>> {
    var open := Next(s, 0);
    if !open.Tok? || open.token != ArrayBegin then None else
    var next := Next(s, open.next);
    if !next.Tok? then None
    else if next.token == ArrayEnd then if Ends(s, next.next) then Some([]) else None
    else Elements(s, open.next, next.token, next.next)
  }

  /** `detail::array`. */
  method Array(raw: string) returns (r: Option<seq<string>>)
    ensures r == Slices(raw)
  {
    hide Next, Elements;
    var input := new StringReader(raw);
    var next := ReadToken(input);
    if next != Tok(ArrayBegin, input.offset) {
      return None;
    }
    var items: seq<string> := [];
    var start: nat := input.offset;
    next := ReadToken(input);
    if !next.Tok? {
      return None;
    }
    ghost var all := Slices(raw);
    assert all.Some? ==> [] + all.value == all.value;
    var last := next.token == ArrayEnd;
    while !last
      invariant next.Tok? && start <= input.offset == next.next <= |raw|
      invariant all == if last then Finished(raw, items, next.next)
                       else Push(items, Elements(raw, start, next.token, next.next))
      decreases |raw| - input.offset, !last
    {
      ElementsStep(raw, items, start, next.token, next.next);
      var ok := ReadValue(input, next.token, 0);
      if !ok {
        return None;
      }
      items := items + [raw[start..input.offset]];
      next := ReadToken(input);
      if !next.Tok? {
        return None;
      }
      if next.token == ArrayEnd {
        last := true;
      } else {
        if next.token != Comma {
          return None;
        }
        start := input.offset;
        next := ReadToken(input);
        if !next.Tok? || next.token == ArrayEnd {
          NoElement(raw, items, start, next);
          return None;
        }
      }
    }
    next := ReadToken(input);
    r := if next.End? then Some(items) else None;
  }

  ghost function Finished(s: string, items: seq<string>, i: nat): Option<seq<string>>
    requires i <= |s|
  {
    if Ends(s, i) then Some(items) else None
  }

  lemma NoElement(s: string, items: seq<string>, start: nat, next: Lexed)
    requires next.Tok? ==> start <= next.next <= |s|
    ensures next.Tok? && next.token == ArrayEnd ==> Push(items, Elements(s, start, next.token, next.next)).None?
  {
  }

  lemma ElementsStep(s: string, items: seq<string>, start: nat, next: Token, i: nat)
    requires start <= i <= |s|
    ensures Push(items, Elements(s, start, next, i)) ==
            var e := Value(s, next, i, 0);
            if e.None? then None else
            var items' := items + [s[start..e.value]];
            var n := Next(s, e.value);
            if !n.Tok? then None
            else if n.token == ArrayEnd then Finished(s, items', n.next)
            else if n.token != Comma then None
            else
              var m := Next(s, n.next);
              if !m.Tok? then None else Push(items', Elements(s, n.next, m.token, m.next))
  {
    hide Next, Value;
    var r := Elements(s, start, next, i);
    if r.Some? && |r.value| > 1 {
      assert items + r.value == items + [r.value[0]] + r.value[1..];
    }
  }
}
