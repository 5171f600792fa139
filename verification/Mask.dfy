/** The 64-ary summary tree of src/nxtrt/land.hpp and the plain set it stands for. */
module MaskTree {
  import opened Words

  const MAX_DEPTH := 6
  const MAX_CAPACITY := 0x10_0000_0000

  function Up(n: nat): nat {
    (n + 63) / 64
  }

  /** Words in the level `width` words wide and in every level above it. */
  function Total(width: nat): nat {
    if width <= 1 then width else width + Total(Up(width))
  }

  function LeafWords(capacity: nat): nat {
    if capacity == 0 then 1 else Up(capacity)
  }

  /** `mask<>::words_for`. */
  function WordsFor(capacity: nat): nat {
    Total(LeafWords(capacity))
  }

  /** `mask_layout`: `offset[k]` is the first word of level `k`, root first. */
  datatype Layout = Layout(capacity: nat, depth: nat, words: nat, offset: seq<nat>) {

    ghost predicate Shaped() {
      && 1 <= depth <= MAX_DEPTH == |offset|
      && offset[depth - 1] <= words
      && forall a, b :: 0 <= a <= b < depth ==> offset[a] <= offset[b]
    }

    /** One past the last word of a level. */
    ghost function End(level: nat): nat
      requires Shaped() && level < depth
    {
      if level + 1 < depth then offset[level + 1] else words
    }

    /** Words in a level. */
    ghost function Count(level: nat): nat
      requires Shaped() && level < depth
    {
      End(level) - offset[level]
    }

    /** Bit positions in use in a level: members at the leaves, child words above. */
    ghost function Width(level: nat): nat
      requires Shaped() && level < depth
    {
      if level + 1 < depth then Count(level + 1) else capacity
    }

    /** Levels tile the words: root first and one word wide, each level wide
        enough for its children, with no level to spare. */
    ghost predicate WellFormed() {
      && Shaped()
      && offset[0] == 0
      && Count(0) == 1
      && Count(depth - 1) == LeafWords(capacity)
      && words == WordsFor(capacity)
      && (forall level :: 0 <= level < depth - 1 ==> Count(level) == Up(Count(level + 1)))
      && (forall level :: 0 < level < depth ==> Count(level) > 1)
    }
  }

  /** Different (level, word) pairs never share storage. */
  lemma LevelsDisjoint(l: Layout, a: nat, i: nat, b: nat, j: nat)
    requires l.WellFormed() && a < l.depth && b < l.depth
    requires i < l.Count(a) && j < l.Count(b)
    requires (a, i) != (b, j)
    ensures l.offset[a] + i != l.offset[b] + j
    ensures l.offset[a] + i < l.words
  {
    if a < b {
      assert l.End(a) == l.offset[a + 1] <= l.offset[b];
    } else if b < a {
      assert l.End(b) == l.offset[b + 1] <= l.offset[a];
    }
    assert l.End(a) <= l.words;
  }

  /** A bit position in use lies in a word of its level. */
  lemma WordOfPosition(l: Layout, level: nat, i: nat)
    requires l.WellFormed() && level < l.depth && i < l.Width(level)
    ensures i / 64 < l.Count(level)
    ensures l.offset[level] + i / 64 < l.words
  {
    assert l.Count(level) == Up(l.Width(level));
    assert l.End(level) <= l.words;
  }

  function Bound(level: nat): nat
    requires level < 6
  {
    [0x4000_0000, 0x100_0000, 0x4_0000, 0x1000, 0x40, 1][level]
  }

  /** Words per level, leaves first, as the first loop of `mask_layout::of` counts them. */
  ghost predicate LevelCounts(capacity: nat, counts: seq<nat>, depth: nat) {
    && 1 <= depth <= |counts| == MAX_DEPTH
    && counts[0] == LeafWords(capacity)
    && (forall i :: 0 <= i < depth ==> 1 <= counts[i])
    && forall i :: 0 <= i < depth - 1 ==> counts[i] > 1 && counts[i + 1] == Up(counts[i])
  }

  method CountLevels(capacity: nat) returns (counts: seq<nat>, depth: nat)
    requires capacity <= MAX_CAPACITY
    ensures LevelCounts(capacity, counts, depth) && counts[depth - 1] == 1
  {
    counts := [0, 0, 0, 0, 0, 0];
    depth := 0;
    var width := (capacity + 63) / 64;
    counts := counts[depth := if width == 0 then 1 else width];
    depth := depth + 1;
    width := (width + 63) / 64;
    while counts[depth - 1] > 1 && depth < MAX_DEPTH
      invariant LevelCounts(capacity, counts, depth)
      invariant counts[depth - 1] > 1 ==> width == Up(counts[depth - 1])
      invariant counts[depth - 1] <= Bound(depth - 1)
      decreases MAX_DEPTH - depth
    {
      counts := counts[depth := if width == 0 then 1 else width];
      depth := depth + 1;
      width := (width + 63) / 64;
    }
  }

  /** `mask_layout::of`. */
  method LayoutOf(capacity: nat) returns (l: Layout)
    requires capacity <= MAX_CAPACITY
    ensures l.WellFormed() && l.capacity == capacity
  {
    var counts, depth := CountLevels(capacity);
    var words, offset: seq<nat> := 0, [0, 0, 0, 0, 0, 0];
    var level := 0;
    while level < depth
      invariant 0 <= level <= depth && |offset| == MAX_DEPTH
      invariant offset[0] == 0
      invariant forall k :: 0 <= k < level - 1 ==> offset[k + 1] == offset[k] + counts[depth - 1 - k]
      invariant level > 0 ==> words == offset[level - 1] + counts[depth - level]
      invariant level == 0 ==> words == 0
      invariant level > 0 ==> words == Total(counts[depth - level])
    {
      offset := offset[level := words];
      words := words + counts[depth - 1 - level];
      level := level + 1;
    }
    l := Layout(capacity, depth, words, offset);
    LayoutFromCounts(l, counts);
  }

  lemma LayoutFromCounts(l: Layout, counts: seq<nat>)
    requires LevelCounts(l.capacity, counts, l.depth) && counts[l.depth - 1] == 1
    requires |l.offset| == MAX_DEPTH && l.offset[0] == 0 && l.words == WordsFor(l.capacity)
    requires forall k :: 0 <= k < l.depth - 1 ==> l.offset[k + 1] == l.offset[k] + counts[l.depth - 1 - k]
    requires l.words == l.offset[l.depth - 1] + counts[0]
    ensures l.WellFormed()
  {
    forall a, b | 0 <= a <= b < l.depth
      ensures l.offset[a] <= l.offset[b]
    {
      OffsetsGrow(l, a, b);
    }
    forall k | 0 <= k < l.depth
      ensures l.Count(k) == counts[l.depth - 1 - k]
    {
      if k + 1 < l.depth {
        assert l.End(k) == l.offset[k + 1];
      }
    }
    forall level | 0 <= level < l.depth - 1
      ensures l.Count(level) == Up(l.Count(level + 1))
    {
      var i := l.depth - 2 - level;
      assert counts[i + 1] == Up(counts[i]);
    }
  }

  lemma {:induction false} OffsetsGrow(l: Layout, a: nat, b: nat)
    requires a <= b < l.depth <= |l.offset|
    requires forall k :: 0 <= k < l.depth - 1 ==> l.offset[k] <= l.offset[k + 1]
    ensures l.offset[a] <= l.offset[b]
  {
    if a < b {
      OffsetsGrow(l, a, b - 1);
    }
  }

  /** The indices below `n`. */
  function Indices(n: nat): (s: set<nat>)
    ensures |s| == n && forall i :: i in s <==> 0 <= i < n
  {
    if n == 0 then {} else Indices(n - 1) + {n - 1}
  }

  // ----- the tree over a word array -----

  ghost predicate Fits(l: Layout, w: seq<Word>) {
    l.WellFormed() && l.words <= |w|
  }

  ghost function At(l: Layout, w: seq<Word>, level: nat, k: nat): Word
    requires Fits(l, w) && level < l.depth && k < l.Count(level)
  {
    assert l.End(level) <= l.words;
    w[l.offset[level] + k]
  }

  /** The bit for position `i` of a level. */
  ghost predicate On(l: Layout, w: seq<Word>, level: nat, i: nat)
    requires Fits(l, w) && level < l.depth && i < 64 * l.Count(level)
  {
    At(l, w, level, i / 64)[i % 64]
  }

  /** A summary bit is set exactly when its child word is nonzero. */
  ghost predicate Link(l: Layout, w: seq<Word>, level: nat, i: nat)
    requires Fits(l, w) && level + 1 < l.depth && i < l.Count(level + 1)
  {
    WordOfPosition(l, level, i);
    On(l, w, level, i) <==> At(l, w, level + 1, i) != Zero()
  }

  /** Every link holds, except perhaps the one for position `i0` of `level0`. */
  ghost predicate LinkedBut(l: Layout, w: seq<Word>, level0: int, i0: nat)
    requires Fits(l, w)
  {
    forall level: nat, i: nat :: level + 1 < l.depth && i < l.Count(level + 1) && !(level == level0 && i == i0)
      ==> Link(l, w, level, i)
  }

  /** No bit beyond a level's positions is set. */
  ghost predicate Tidy(l: Layout, w: seq<Word>)
    requires Fits(l, w)
  {
    forall level: nat, i: nat :: level < l.depth && i < 64 * l.Count(level) && On(l, w, level, i) ==> i < l.Width(level)
  }

  ghost predicate Tree(l: Layout, w: seq<Word>) {
    Fits(l, w) && Tidy(l, w) && LinkedBut(l, w, -1, 0)
  }

  ghost function Members(l: Layout, w: seq<Word>): set<nat>
    requires Fits(l, w)
  {
    set i: nat | i < l.capacity && InLeaves(l, w, i)
  }

  ghost predicate InLeaves(l: Layout, w: seq<Word>, i: nat)
    requires Fits(l, w) && i < l.capacity
  {
    WordOfPosition(l, l.depth - 1, i);
    On(l, w, l.depth - 1, i)
  }

  /** `w'` differs from `w` in at most the bit for position `i` of one level. */
  ghost predicate Rewritten(l: Layout, w: seq<Word>, level: nat, i: nat, w': seq<Word>)
    requires Fits(l, w) && level < l.depth
  {
    && i < l.Width(level)
    && i / 64 < l.Count(level)
    && l.offset[level] + i / 64 < |w| == |w'|
    && w' == w[l.offset[level] + i / 64 := w'[l.offset[level] + i / 64]]
    && forall j :: 0 <= j < 64 && j != i % 64 ==> At(l, w', level, i / 64)[j] == At(l, w, level, i / 64)[j]
  }

  lemma OtherWord(l: Layout, w: seq<Word>, level: nat, i: nat, w': seq<Word>, a: nat, k: nat)
    requires Fits(l, w) && level < l.depth && Rewritten(l, w, level, i, w')
    requires a < l.depth && k < l.Count(a) && (a, k) != (level, i / 64)
    ensures At(l, w', a, k) == At(l, w, a, k)
  {
    LevelsDisjoint(l, a, k, level, i / 64);
  }

  lemma OtherPosition(l: Layout, w: seq<Word>, level: nat, i: nat, w': seq<Word>, a: nat, k: nat)
    requires Fits(l, w) && level < l.depth && Rewritten(l, w, level, i, w')
    requires a < l.depth && k < 64 * l.Count(a) && (a, k) != (level, i)
    ensures On(l, w', a, k) == On(l, w, a, k)
  {
    if (a, k / 64) == (level, i / 64) {
      assert k % 64 != i % 64;
    } else {
      OtherWord(l, w, level, i, w', a, k / 64);
    }
  }

  lemma RewriteTidy(l: Layout, w: seq<Word>, level: nat, i: nat, w': seq<Word>)
    requires Fits(l, w) && Tidy(l, w) && level < l.depth && Rewritten(l, w, level, i, w')
    ensures Tidy(l, w')
  {
    forall a: nat, k: nat | a < l.depth && k < 64 * l.Count(a) && On(l, w', a, k) && (a, k) != (level, i)
      ensures k < l.Width(a)
    {
      OtherPosition(l, w, level, i, w', a, k);
    }
  }

  lemma RewriteLink(l: Layout, w: seq<Word>, level: nat, i: nat, w': seq<Word>, a: nat, k: nat)
    requires Fits(l, w) && level < l.depth && Rewritten(l, w, level, i, w')
    requires LinkedBut(l, w, level, i)
    requires level + 1 < l.depth ==> (On(l, w', level, i) <==> At(l, w, level + 1, i) != Zero())
    requires a + 1 < l.depth && k < l.Count(a + 1)
    requires (a + 1, k) == (level, i / 64) ==> (At(l, w', level, k) == Zero()) == (At(l, w, level, k) == Zero())
    ensures Link(l, w', a, k)
  {
    WordOfPosition(l, a, k);
    if (a + 1, k) != (level, i / 64) {
      OtherWord(l, w, level, i, w', a + 1, k);
    }
    if (a, k) != (level, i) {
      assert Link(l, w, a, k);
      OtherPosition(l, w, level, i, w', a, k);
    }
  }

  lemma RewriteMembers(l: Layout, w: seq<Word>, level: nat, i: nat, w': seq<Word>)
    requires Fits(l, w) && level < l.depth && Rewritten(l, w, level, i, w')
    ensures level + 1 < l.depth ==> Members(l, w') == Members(l, w)
    ensures level + 1 == l.depth ==>
              Members(l, w') == if On(l, w', level, i) then Members(l, w) + {i} else Members(l, w) - {i}
  {
    forall m: nat | m < l.capacity && !(level + 1 == l.depth && m == i)
      ensures InLeaves(l, w', m) == InLeaves(l, w, m)
    {
      WordOfPosition(l, l.depth - 1, m);
      OtherPosition(l, w, level, i, w', l.depth - 1, m);
    }
  }

  /** Rewriting one position: what stays linked, and what the set becomes. */
  lemma RewritePosition(l: Layout, w: seq<Word>, level: nat, i: nat, w': seq<Word>)
    requires Fits(l, w) && Tidy(l, w) && level < l.depth && Rewritten(l, w, level, i, w')
    requires LinkedBut(l, w, level, i)
    requires level + 1 < l.depth ==> (On(l, w', level, i) <==> At(l, w, level + 1, i) != Zero())
    ensures Tidy(l, w') && LinkedBut(l, w', level - 1, i / 64)
    ensures (At(l, w', level, i / 64) == Zero()) == (At(l, w, level, i / 64) == Zero()) ==> Tree(l, w')
    ensures level == 0 ==> Tree(l, w')
    ensures level + 1 < l.depth ==> Members(l, w') == Members(l, w)
    ensures level + 1 == l.depth ==>
              Members(l, w') == if On(l, w', level, i) then Members(l, w) + {i} else Members(l, w) - {i}
  {
    RewriteTidy(l, w, level, i, w');
    RewriteMembers(l, w, level, i, w');
    forall a: nat, k: nat | a + 1 < l.depth && k < l.Count(a + 1)
      ensures (a + 1, k) != (level, i / 64) ==> Link(l, w', a, k)
      ensures (At(l, w', level, i / 64) == Zero()) == (At(l, w, level, i / 64) == Zero()) ==> Link(l, w', a, k)
    {
      if (a + 1, k) != (level, i / 64)
        || (At(l, w', level, i / 64) == Zero()) == (At(l, w, level, i / 64) == Zero())
      {
        RewriteLink(l, w, level, i, w', a, k);
      }
    }
  }

  /** The ancestor of a leaf position, `up` levels above it. */
  ghost function Ancestor(i: nat, up: nat): nat {
    if up == 0 then i else Ancestor(i, up - 1) / 64
  }

  /** Above a member every word is nonzero. */
  lemma {:induction false} AncestorsOn(l: Layout, w: seq<Word>, m: nat, up: nat)
    requires Tree(l, w) && m in Members(l, w) && up < l.depth
    ensures var level := l.depth - 1 - up;
            && Ancestor(m, up) < l.Width(level)
            && Ancestor(m, up + 1) < l.Count(level)
            && On(l, w, level, Ancestor(m, up))
    ensures At(l, w, l.depth - 1 - up, Ancestor(m, up + 1)) != Zero()
  {
    assert InLeaves(l, w, m);
    var level := l.depth - 1 - up;
    if up > 0 {
      AncestorsOn(l, w, m, up - 1);
      assert Link(l, w, level, Ancestor(m, up));
    }
    WordOfPosition(l, level, Ancestor(m, up));
  }

  ghost predicate IsMin(m: nat, s: set<nat>) {
    m in s && forall i :: i in s ==> m <= i
  }

  /** `index` is the leftmost nonzero word of `level`, or the lowest member once below the leaves. */
  ghost predicate Leftmost(l: Layout, w: seq<Word>, level: nat, index: nat)
    requires Fits(l, w) && level <= l.depth
  {
    && (level < l.depth ==> index < l.Count(level) && At(l, w, level, index) != Zero())
    && (level == l.depth ==> index in Members(l, w))
    && forall m :: m in Members(l, w) ==> index <= Ancestor(m, l.depth - level)
  }

  lemma DescendLeftmost(l: Layout, w: seq<Word>, level: nat, index: nat)
    requires Tree(l, w) && level < l.depth && Leftmost(l, w, level, index)
    ensures Leftmost(l, w, level + 1, index * 64 + CountlZero(At(l, w, level, index)))
  {
    NonzeroHasBit(At(l, w, level, index));
    var next := index * 64 + CountlZero(At(l, w, level, index));
    assert next / 64 == index && next % 64 == CountlZero(At(l, w, level, index));
    assert On(l, w, level, next);
    assert next < l.Width(level);
    forall m | m in Members(l, w)
      ensures next <= Ancestor(m, l.depth - level - 1)
    {
      NotBelow(l, w, m, level, index);
    }
    if level + 1 < l.depth {
      assert Link(l, w, level, next);
    } else {
      assert InLeaves(l, w, next);
    }
  }

  lemma LeftmostIsMin(l: Layout, w: seq<Word>, index: nat)
    requires Fits(l, w) && Leftmost(l, w, l.depth, index)
    ensures IsMin(index, Members(l, w))
  {
    forall m | m in Members(l, w)
      ensures index <= m
    {
      assert Ancestor(m, 0) == m;
    }
  }

  /** The root word is zero exactly when the set is empty. */
  lemma RootSummary(l: Layout, w: seq<Word>)
    requires Tree(l, w)
    ensures w[0] == Zero() <==> Members(l, w) == {}
  {
    if w[0] == Zero() {
      if m :| m in Members(l, w) {
        AncestorsOn(l, w, m, l.depth - 1);
      }
    } else {
      var level: nat, index: nat := 0, 0;
      while level < l.depth
        invariant level <= l.depth && Leftmost(l, w, level, index)
      {
        DescendLeftmost(l, w, level, index);
        index := index * 64 + CountlZero(At(l, w, level, index));
        level := level + 1;
      }
    }
  }

  /** `mask_layout::peek`: one word per level, root to leaf. */
  method Peek(l: Layout, words: array<Word>) returns (index: nat)
    requires Tree(l, words[..])
    ensures words[0] == Zero() <==> Members(l, words[..]) == {}
    ensures words[0] == Zero() ==> index == l.capacity
    ensures words[0] != Zero() ==> index < l.capacity && IsMin(index, Members(l, words[..]))
  {
    RootSummary(l, words[..]);
    if words[0] == Zero() {
      return l.capacity;
    }
    index := 0;
    var level := 0;
    while level < l.depth
      invariant 0 <= level <= l.depth
      invariant Leftmost(l, words[..], level, index)
    {
      WordOfLevel(l, level, index);
      DescendLeftmost(l, words[..], level, index);
      index := index * 64 + CountlZero(words[l.offset[level] + index]);
      level := level + 1;
    }
    LeftmostIsMin(l, words[..], index);
  }

  lemma WordOfLevel(l: Layout, level: nat, k: nat)
    requires l.WellFormed() && level < l.depth && k < l.Count(level)
    ensures l.offset[level] + k < l.words
  {
    assert l.End(level) <= l.words;
  }

  /** The first set bit of the leftmost nonzero word is at or before every member's ancestor. */
  lemma NotBelow(l: Layout, w: seq<Word>, m: nat, level: nat, index: nat)
    requires Tree(l, w) && m in Members(l, w) && level < l.depth
    requires index < l.Count(level) && index <= Ancestor(m, l.depth - level)
    ensures index * 64 + CountlZero(At(l, w, level, index)) <= Ancestor(m, l.depth - level - 1)
            || CountlZero(At(l, w, level, index)) == 64
  {
    AncestorsOn(l, w, m, l.depth - 1 - level);
    var a := Ancestor(m, l.depth - 1 - level);
    assert Ancestor(m, l.depth - level) == a / 64;
  }

  /** The tree part-way through a climb from leaf `index`: the levels from `level`
      down are settled, and above them only the link for position `i` may be stale. */
  ghost predicate Climbing(l: Layout, w0: seq<Word>, w: seq<Word>, index: nat, put: bool, level: nat, i: nat)
    requires Fits(l, w0) && level <= l.depth
  {
    && Fits(l, w) && Tidy(l, w)
    && (level == 0 ==> Tree(l, w))
    && (level > 0 ==> i < l.Width(level - 1) && LinkedBut(l, w, level - 1, i))
    && (level == l.depth ==> i == index && w == w0)
    && (level < l.depth ==> Members(l, w) == if put then Members(l, w0) + {index} else Members(l, w0) - {index})
    && (0 < level < l.depth ==> i < l.Count(level) && (At(l, w, level, i) != Zero() <==> put))
  }

  lemma StartClimb(l: Layout, w: seq<Word>, index: nat, put: bool)
    requires Tree(l, w) && index < l.capacity
    ensures Climbing(l, w, w, index, put, l.depth, index)
  {
  }

  /** The word a climb writes for position `i`. */
  function Put(word: Word, i: nat, put: bool): Word {
    if put then Or(word, Bit(i % 64)) else And(word, Not(Bit(i % 64)))
  }

  lemma PutRewrites(l: Layout, w: seq<Word>, level: nat, i: nat, put: bool)
    requires Fits(l, w) && level < l.depth && i < l.Width(level)
    ensures i / 64 < l.Count(level) && l.offset[level] + i / 64 < |w|
    ensures var p := l.offset[level] + i / 64;
            var w' := w[p := Put(w[p], i, put)];
            Rewritten(l, w, level, i, w') && On(l, w', level, i) == put
  {
    WordOfPosition(l, level, i);
  }

  /** One level of the climb, with the early exit when the word's emptiness did not change. */
  lemma Climb(l: Layout, w0: seq<Word>, w: seq<Word>, index: nat, put: bool, level: nat, i: nat)
    requires Fits(l, w0) && level < l.depth && Climbing(l, w0, w, index, put, level + 1, i)
    ensures i / 64 < l.Count(level) && l.offset[level] + i / 64 < |w|
    ensures var p := l.offset[level] + i / 64;
            var word := Put(w[p], i, put);
            var w' := w[p := word];
            && (if (if put then w[p] != Zero() else word != Zero())
                then Tree(l, w') && Members(l, w') == (if put then Members(l, w0) + {index} else Members(l, w0) - {index})
                else Climbing(l, w0, w', index, put, level, i / 64))
  {
    hide LinkedBut;
    hide Tidy;
    hide Members;
    PutRewrites(l, w, level, i, put);
    var p := l.offset[level] + i / 64;
    var word := Put(w[p], i, put);
    RewritePosition(l, w, level, i, w[p := word]);
    NonzeroHasBit(word);
    if !put && word != Zero() {
      assert w[p][CountlZero(word)];
    }
    assert put ==> word[i % 64];
  }

  method Store(words: array<Word>, p: nat, v: Word)
    requires p < words.Length
    modifies words
    ensures words[..] == old(words[..])[p := v]
  {
    words[p] := v;
  }

  /** `mask_layout::erase`: clears `index`, then each ancestor bit whose word just emptied. */
  method Erase(l: Layout, words: array<Word>, index: nat)
    requires Tree(l, words[..]) && index < l.capacity
    modifies words
    ensures Tree(l, words[..])
    ensures Members(l, words[..]) == old(Members(l, words[..])) - {index}
  {
    hide LinkedBut;
    hide Tidy;
    hide Members;
    var level, i: nat := l.depth, index;
    StartClimb(l, words[..], index, false);
    while level > 0
      invariant 0 <= level <= l.depth
      invariant Climbing(l, old(words[..]), words[..], index, false, level, i)
    {
      level := level - 1;
      Climb(l, old(words[..]), words[..], index, false, level, i);
      var p := l.offset[level] + i / 64;
      var word := And(words[p], Not(Bit(i % 64)));
      Store(words, p, word);
      if word != Zero() {
        return;
      }
      i := i / 64;
    }
  }

  /** `mask_layout::insert`: sets `index`, then each ancestor bit whose word was empty. */
  method Insert(l: Layout, words: array<Word>, index: nat)
    requires Tree(l, words[..]) && index < l.capacity
    modifies words
    ensures Tree(l, words[..])
    ensures Members(l, words[..]) == old(Members(l, words[..])) + {index}
  {
    hide LinkedBut;
    hide Tidy;
    hide Members;
    var level, i: nat := l.depth, index;
    StartClimb(l, words[..], index, true);
    while level > 0
      invariant 0 <= level <= l.depth
      invariant Climbing(l, old(words[..]), words[..], index, true, level, i)
    {
      level := level - 1;
      Climb(l, old(words[..]), words[..], index, true, level, i);
      var p := l.offset[level] + i / 64;
      var wasEmpty := words[p] == Zero();
      Store(words, p, Or(words[p], Bit(i % 64)));
      if !wasEmpty {
        return;
      }
      i := i / 64;
    }
  }

  /** From `level` down, exactly the positions in use are set. */
  ghost predicate Full(l: Layout, w: seq<Word>, level: nat)
    requires Fits(l, w)
  {
    forall a: nat, i: nat :: level <= a < l.depth && i < 64 * l.Count(a) ==> (On(l, w, a, i) <==> i < l.Width(a))
  }

  /** The inner loop of `fill`: one level, from the count of its positions. */
  method FillLevel(l: Layout, words: array<Word>, level: nat, members: nat) returns (count: nat)
    requires Fits(l, words[..]) && level < l.depth
    requires members == l.Width(level) > 0 && Full(l, words[..], level + 1)
    modifies words
    ensures Fits(l, words[..]) && Full(l, words[..], level)
    ensures count == l.Count(level)
  {
    var first := l.offset[level];
    count := (members + 63) / 64;
    var w := 0;
    while w < count
      invariant 0 <= w <= count == l.Count(level)
      invariant Full(l, words[..], level + 1)
      invariant FullUpTo(l, words[..], level, w)
    {
      var live := if members - w * 64 < 64 then members - w * 64 else 64;
      ghost var before := words[..];
      WordOfLevel(l, level, w);
      Store(words, first + w, Leading(live));
      FillStep(l, before, level, w, words[..]);
      w := w + 1;
    }
  }

  /** `mask_layout::fill`: puts every index in the set, whatever the words were. With
      no index there is no word to write, and they must be the (empty) tree already. */
  method Fill(l: Layout, words: array<Word>)
    requires Fits(l, words[..]) && (l.capacity == 0 ==> Tree(l, words[..]))
    modifies words
    ensures Tree(l, words[..])
    ensures Members(l, words[..]) == Indices(l.capacity)
  {
    var members := l.capacity;
    if members == 0 {
      assert Members(l, words[..]) == {};
      return;
    }
    var level := l.depth;
    while level > 0
      invariant 0 <= level <= l.depth && Fits(l, words[..])
      invariant level > 0 ==> members == l.Width(level - 1) > 0
      invariant Full(l, words[..], level)
    {
      level := level - 1;
      members := FillLevel(l, words, level, members);
    }
    FilledTree(l, words[..]);
  }

  /** The first `k` words of a level have exactly their positions in use set. */
  ghost predicate FullUpTo(l: Layout, w: seq<Word>, level: nat, k: nat)
    requires Fits(l, w) && level < l.depth && k <= l.Count(level)
  {
    forall i: nat :: i < 64 * k ==> (On(l, w, level, i) <==> i < l.Width(level))
  }

  lemma FillStep(l: Layout, w: seq<Word>, level: nat, k: nat, w': seq<Word>)
    requires Fits(l, w) && level < l.depth && k < l.Count(level) && 64 * k < l.Width(level)
    requires Full(l, w, level + 1) && FullUpTo(l, w, level, k)
    requires l.offset[level] + k < |w|
    requires w' == w[l.offset[level] + k := Leading(if l.Width(level) - k * 64 < 64 then l.Width(level) - k * 64 else 64)]
    ensures Full(l, w', level + 1) && FullUpTo(l, w', level, k + 1)
  {
    forall a: nat, i: nat | level + 1 <= a < l.depth && i < 64 * l.Count(a)
      ensures On(l, w', a, i) <==> i < l.Width(a)
    {
      LevelsDisjoint(l, a, i / 64, level, k);
      assert On(l, w, a, i) <==> i < l.Width(a);
    }
    forall i: nat | i < 64 * (k + 1)
      ensures On(l, w', level, i) <==> i < l.Width(level)
    {
      if i / 64 < k {
        LevelsDisjoint(l, level, i / 64, level, k);
        assert On(l, w, level, i) <==> i < l.Width(level);
      } else {
        assert i == 64 * k + i % 64;
      }
    }
  }

  lemma FilledTree(l: Layout, w: seq<Word>)
    requires Fits(l, w)
    requires l.capacity > 0 && Full(l, w, 0)
    ensures Tree(l, w) && Members(l, w) == Indices(l.capacity)
  {
    forall a: nat, i: nat | a + 1 < l.depth && i < l.Count(a + 1)
      ensures Link(l, w, a, i)
    {
      WordOfPosition(l, a, i);
      assert On(l, w, a + 1, 64 * i);
    }
    forall i: nat | i < l.capacity
      ensures InLeaves(l, w, i)
    {
      WordOfPosition(l, l.depth - 1, i);
    }
  }
}

/** `mask<>`: a set of indices that hands out its lowest member. */
module Masks {
  import opened Words
  import opened MaskTree

  class Mask {
    const layout: Layout
    const words: array<Word>

    ghost predicate Valid()
      reads words
    {
      Tree(layout, words[..])
    }

    ghost function Contents(): set<nat>
      requires Valid()
      reads words
    {
      Members(layout, words[..])
    }

    /** Borrows `words` and starts empty. */
    constructor (words: array<Word>, capacity: nat)
      requires capacity <= MAX_CAPACITY && WordsFor(capacity) <= words.Length
      modifies words
      ensures this.words == words && layout.capacity == capacity
      ensures Valid() && Contents() == {}
    {
      var l := LayoutOf(capacity);
      this.words, layout := words, l;
      new;
      var i := 0;
      while i < l.words
        invariant 0 <= i <= l.words
        invariant forall k :: 0 <= k < i ==> words[k] == Zero()
      {
        words[i] := Zero();
        i := i + 1;
      }
      ZeroTree(l, words[..]);
    }

    method Empty() returns (b: bool)
      requires Valid()
      ensures b <==> Contents() == {}
    {
      RootSummary(layout, words[..]);
      b := words[0] == Zero();
    }

    /** Membership; indices beyond the capacity are never members. */
    method Contains(index: nat) returns (b: bool)
      requires Valid()
      ensures b <==> index in Contents()
    {
      if index < layout.capacity {
        WordOfPosition(layout, layout.depth - 1, index);
        b := And(words[layout.offset[layout.depth - 1] + index / 64], Bit(index % 64)) != Zero();
        AndBit(words[layout.offset[layout.depth - 1] + index / 64], index % 64);
        assert InLeaves(layout, words[..], index) <==> b;
      } else {
        b := false;
      }
    }

    /** Removes and returns the lowest member, or the capacity when there is none. */
    method Take() returns (index: nat)
      requires Valid()
      modifies words
      ensures Valid() && index == Lowest(layout.capacity, old(Contents()))
      ensures Contents() == old(Contents()) - {index}
    {
      index := MaskTree.Peek(layout, words);
      LowestIsMin(layout.capacity, Contents());
      if index != layout.capacity {
        MaskTree.Erase(layout, words, index);
      }
    }

    /** Puts `index` back in the set. */
    method Give(index: nat)
      requires Valid() && index < layout.capacity
      modifies words
      ensures Valid() && Contents() == old(Contents()) + {index}
    {
      MaskTree.Insert(layout, words, index);
    }

    method Fill()
      requires Valid()
      modifies words
      ensures Valid() && Contents() == Indices(layout.capacity)
    {
      MaskTree.Fill(layout, words);
    }
  }

  lemma ZeroTree(l: Layout, w: seq<Word>)
    requires Fits(l, w) && forall k :: 0 <= k < l.words ==> w[k] == Zero()
    ensures Tree(l, w) && Members(l, w) == {}
  {
    forall level: nat, k: nat | level < l.depth && k < l.Count(level)
      ensures At(l, w, level, k) == Zero()
    {
      WordOfLevel(l, level, k);
    }
    assert forall level: nat, i: nat :: level < l.depth && i < 64 * l.Count(level) ==> !On(l, w, level, i);
    forall level: nat, i: nat | level + 1 < l.depth && i < l.Count(level + 1)
      ensures Link(l, w, level, i)
    {
      WordOfPosition(l, level, i);
    }
    forall i: nat | i < l.capacity
      ensures !InLeaves(l, w, i)
    {
      WordOfPosition(l, l.depth - 1, i);
    }
  }

  lemma AndBit(w: Word, j: nat)
    requires j < 64
    ensures And(w, Bit(j)) != Zero() <==> w[j]
  {
    NonzeroHasBit(And(w, Bit(j)));
    assert w[j] ==> And(w, Bit(j))[j];
  }

  /** The least element of `s`, or `none` when there is none. */
  ghost function Lowest(none: nat, s: set<nat>): nat {
    if s == {} then none else
      MinExists(s);
      var m :| IsMin(m, s);
      m
  }

  lemma {:induction false} MinExists(s: set<nat>)
    requires s != {}
    ensures exists m :: IsMin(m, s)
    decreases |s|
  {
    var x :| x in s;
    var rest := s - {x};
    if rest == {} {
      assert s == {x};
      assert IsMin(x, s);
    } else {
      MinExists(rest);
      var m :| IsMin(m, rest);
      assert forall i :: i in s ==> i == x || i in rest;
      assert IsMin(if x < m then x else m, s);
    }
  }

  lemma LowestIsMin(none: nat, s: set<nat>)
    ensures s != {} ==> IsMin(Lowest(none, s), s)
    ensures forall m :: IsMin(m, s) ==> m == Lowest(none, s)
  {
    if s != {} {
      MinExists(s);
    }
  }

  // ----- whole runs against the plain set -----

  datatype Op = FillAll | Give(index: nat) | Take

  /** What a run does to a plain set, with the index each `Take` returns. */
  ghost function SetRun(capacity: nat, s: set<nat>, ops: seq<Op>): (set<nat>, seq<nat>)
  {
    if ops == [] then (s, []) else
      var (before, taken) := SetRun(capacity, s, ops[..|ops| - 1]);
      match ops[|ops| - 1]
      case FillAll => (Indices(capacity), taken)
      case Give(i) => (before + {i}, taken)
      case Take => var m := Lowest(capacity, before); (before - {m}, taken + [m])
  }

  /** Any run of the tree is the same run of the plain set. */
  method Run(m: Mask, ops: seq<Op>) returns (taken: seq<nat>)
    requires m.Valid()
    requires forall op :: op in ops && op.Give? ==> op.index < m.layout.capacity
    modifies m.words
    ensures m.Valid()
    ensures (m.Contents(), taken) == SetRun(m.layout.capacity, old(m.Contents()), ops)
  {
    taken := [];
    var k := 0;
    assert ops[..0] == [];
    while k < |ops|
      invariant 0 <= k <= |ops| && m.Valid()
      invariant (m.Contents(), taken) == SetRun(m.layout.capacity, old(m.Contents()), ops[..k])
    {
      assert ops[..k + 1][..k] == ops[..k];
      match ops[k] {
        case FillAll => m.Fill();
        case Give(i) => m.Give(i);
        case Take =>
          var x := m.Take();
          taken := taken + [x];
      }
      k := k + 1;
    }
    assert ops[..|ops|] == ops;
  }
}
