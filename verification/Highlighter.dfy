/** Resolving overlapping matches and emitting the code in pieces. */
module Highlighter {
  import opened Wrappers
  import Tabs

  /** A match of some pattern: the text, where it starts, and the style for it. */
  datatype Match = Match(value: string, index: nat, css: string)
  {
    function End(): nat {
      index + |value|
    }
  }

  /** A piece of output: a span, whose text has no style or one, or a line break between two spans. */
  datatype Bit = Span(text: string, css: Option<string>) | Break

  // ---------- order ----------

  /** By start, then by length. */
  function SortCallback(a: Match, b: Match): int {
    if a.index < b.index then -1
    else if a.index > b.index then 1
    else if |a.value| < |b.value| then -1
    else if |a.value| > |b.value| then 1
    else 0
  }

  /** It is a consistent comparison: what it says of two matches in either order agrees, it is
      transitive, and ties are interchangeable. */
  lemma CallbackIsConsistent(a: Match, b: Match, c: Match)
    ensures SortCallback(a, b) == -SortCallback(b, a)
    ensures SortCallback(a, b) <= 0 && SortCallback(b, c) <= 0 ==> SortCallback(a, c) <= 0
    ensures SortCallback(a, b) == 0 ==> SortCallback(a, c) == SortCallback(b, c)
  {
  }

  /** What sorting with the callback guarantees. */
  ghost predicate Sorted(ms: seq<Match>) {
    forall i, j | 0 <= i < j < |ms| :: SortCallback(ms[i], ms[j]) <= 0
  }

  /** a starts strictly inside c; a match without text is never inside. */
  predicate Inside(a: Match, c: Match) {
    a.value != "" && c.index < a.index < c.End()
  }

  // ---------- suppression ----------

  /** a is inside one of the matches that are left. */
  ghost predicate InsideAny(a: Match, left: seq<Option<Match>>) {
    exists j :: 0 <= j < |left| && left[j].Some? && Inside(a, left[j].value)
  }

  /** From left to right, keep what does not start inside something kept before. */
  ghost function Greedy(ms: seq<Match>): (kept: seq<Option<Match>>)
    ensures |kept| == |ms| && forall i | 0 <= i < |ms| :: kept[i] == None || kept[i] == Some(ms[i])
  {
    if ms == [] then []
    else
      var before, last := Greedy(ms[..|ms| - 1]), ms[|ms| - 1];
      before + [if InsideAny(last, before) then None else Some(last)]
  }

  /** Of the matches in ms, exactly those are left that do not start inside another that is left. */
  ghost predicate Resolved(ms: seq<Match>, left: seq<Option<Match>>) {
    && |left| == |ms|
    && (forall i | 0 <= i < |ms| :: left[i] == None || left[i] == Some(ms[i]))
    && (forall i | 0 <= i < |ms| :: left[i] == None <==> InsideAny(ms[i], left))
  }

  /** For sorted matches the greedy choice is the only resolution: no survivor starts strictly inside
      another, and everything suppressed starts strictly inside a survivor. */
  lemma GreedyIsExact(ms: seq<Match>, left: seq<Option<Match>>)
    requires Sorted(ms)
    ensures Resolved(ms, left) <==> left == Greedy(ms)
  {
    GreedyResolves(ms);
    if Resolved(ms, left) {
      ResolutionIsGreedy(ms, left);
    }
  }

  lemma {:induction false} GreedyResolves(ms: seq<Match>)
    requires Sorted(ms)
    ensures Resolved(ms, Greedy(ms))
    decreases |ms|
  {
    if ms != [] {
      GreedyResolves(ms[..|ms| - 1]);
      ResolvedGrows(ms, Greedy(ms[..|ms| - 1]));
    }
  }

  lemma ResolvedGrows(ms: seq<Match>, rest: seq<Option<Match>>)
    requires Sorted(ms) && ms != [] && Resolved(ms[..|ms| - 1], rest)
    ensures Resolved(ms, rest + [if InsideAny(ms[|ms| - 1], rest) then None else Some(ms[|ms| - 1])])
  {
    var n := |ms| - 1;
    var left := rest + [if InsideAny(ms[n], rest) then None else Some(ms[n])];
    assert left[..n] == rest;
    OnlyEarlierOnes(ms, left);
    forall i | 0 <= i < n ensures left[i] == None <==> InsideAny(ms[i], left) {
      assert rest[i] == left[i] && ms[..n][i] == ms[i];
    }
  }

  lemma {:induction false} ResolutionIsGreedy(ms: seq<Match>, left: seq<Option<Match>>)
    requires Sorted(ms) && Resolved(ms, left)
    ensures left == Greedy(ms)
    decreases |ms|
  {
    if ms != [] {
      FrontIsResolved(ms, left);
      ResolutionIsGreedy(ms[..|ms| - 1], left[..|ms| - 1]);
    }
  }

  lemma FrontIsResolved(ms: seq<Match>, left: seq<Option<Match>>)
    requires Sorted(ms) && Resolved(ms, left) && ms != []
    ensures var n := |ms| - 1;
            && Resolved(ms[..n], left[..n])
            && left == left[..n] + [if InsideAny(ms[n], left[..n]) then None else Some(ms[n])]
  {
    var n := |ms| - 1;
    OnlyEarlierOnes(ms, left);
    var front, rest := ms[..n], left[..n];
    forall i | 0 <= i < n ensures rest[i] == None <==> InsideAny(front[i], rest) {
      assert rest[i] == left[i] && front[i] == ms[i];
      assert InsideAny(ms[i], left) <==> InsideAny(ms[i], rest);
    }
  }

  /** The last match never holds the start of another one, so it does not matter to the rest. */
  lemma OnlyEarlierOnes(ms: seq<Match>, left: seq<Option<Match>>)
    requires Sorted(ms) && ms != [] && |left| == |ms|
    requires var n := |ms| - 1; left[n] == None || left[n] == Some(ms[n])
    ensures var n := |ms| - 1;
            forall i | 0 <= i < |ms| :: InsideAny(ms[i], left) <==> InsideAny(ms[i], left[..n])
  {
    var n := |ms| - 1;
    forall i | 0 <= i < |ms|
      ensures InsideAny(ms[i], left) <==> InsideAny(ms[i], left[..n])
    {
      if InsideAny(ms[i], left) {
        var j :| 0 <= j < |left| && left[j].Some? && Inside(ms[i], left[j].value);
        assert j != n;
        assert left[..n][j] == left[j];
      }
      if InsideAny(ms[i], left[..n]) {
        var j :| 0 <= j < n && left[..n][j].Some? && Inside(ms[i], left[..n][j].value);
        assert left[j] == left[..n][j];
      }
    }
  }

  // ---------- emission ----------

  /** JavaScript's substr: a length below one gives nothing, and it stops at the end of the text. */
  function Substr(s: string, from: nat, length: int): string {
    if length <= 0 || from >= |s| then "" else if from + length <= |s| then s[from..from + length] else s[from..]
  }

  /** Empty pieces are not emitted; a piece with a style is cut into its lines. */
  function Piece(text: string, css: Option<string>): seq<Bit> {
    if text == "" then []
    else if css.None? then [Span(text, None)]
    else Lines(Tabs.Split(text), css)
  }

  function Lines(lines: seq<string>, css: Option<string>): (bits: seq<Bit>)
    requires lines != []
  {
    if |lines| == 1 then [Span(lines[0], css)] else [Span(lines[0], css), Break] + Lines(lines[1..], css)
  }

  /** The pieces from a cursor on: before every match that has text the gap, then the match. */
  function Bits(code: string, left: seq<Option<Match>>, cursor: nat): seq<Bit> {
    if left == [] then Piece(Substr(code, cursor, |code|), None)
    else if left[0].None? || left[0].value.value == "" then Bits(code, left[1..], cursor)
    else
      var m := left[0].value;
      MatchBits(code, m, cursor) + Bits(code, left[1..], m.End())
  }

  /** The gap before a match, and the match. */
  function MatchBits(code: string, m: Match, cursor: nat): seq<Bit> {
    Piece(Substr(code, cursor, m.index - cursor), None) + Piece(m.value, Some(m.css))
  }

  function Text(bits: seq<Bit>): string {
    if bits == [] then "" else (if bits[0].Break? then [Tabs.NEWLINE] else bits[0].text) + Text(bits[1..])
  }

  /** The cursor, what has been emitted and the cursors so far after i matches. */
  function CursorAt(left: seq<Option<Match>>, i: nat): nat
    requires i <= |left|
  {
    if i == 0 then 0 else if Emitted(left[i - 1]) then left[i - 1].value.End() else CursorAt(left, i - 1)
  }

  function BitsBefore(code: string, left: seq<Option<Match>>, i: nat): seq<Bit>
    requires i <= |left|
  {
    if i == 0 then []
    else if !Emitted(left[i - 1]) then BitsBefore(code, left, i - 1)
    else
      var (m, h) := (left[i - 1].value, CursorAt(left, i - 1));
      BitsBefore(code, left, i - 1) + MatchBits(code, m, h)
  }

  function CursorsBefore(left: seq<Option<Match>>, i: nat): seq<nat>
    requires i <= |left|
  {
    if i == 0 then []
    else if !Emitted(left[i - 1]) then CursorsBefore(left, i - 1)
    else CursorsBefore(left, i - 1) + [CursorAt(left, i - 1)]
  }

  lemma {:induction false} BitsBeforeAndAfter(code: string, left: seq<Option<Match>>, i: nat)
    requires i <= |left|
    ensures BitsBefore(code, left, i) + Bits(code, left[i..], CursorAt(left, i)) == Bits(code, left, 0)
    decreases i
  {
    if i == 0 {
      assert left[0..] == left;
    } else {
      BitsBeforeAndAfter(code, left, i - 1);
      assert left[i - 1..][0] == left[i - 1] && left[i - 1..][1..] == left[i..];
      if Emitted(left[i - 1]) {
        var (m, h) := (left[i - 1].value, CursorAt(left, i - 1));
        Associative(BitsBefore(code, left, i - 1), MatchBits(code, m, h), Bits(code, left[i..], m.End()));
      }
    }
  }

  lemma {:induction false} CursorsBeforeAndAfter(left: seq<Option<Match>>, i: nat)
    requires i <= |left|
    ensures CursorsBefore(left, i) + Cursors(left[i..], CursorAt(left, i)) == Cursors(left, 0)
    decreases i
  {
    if i == 0 {
      assert left[0..] == left;
    } else {
      CursorsBeforeAndAfter(left, i - 1);
      assert left[i - 1..][0] == left[i - 1] && left[i - 1..][1..] == left[i..];
      if Emitted(left[i - 1]) {
        Associative(CursorsBefore(left, i - 1), [CursorAt(left, i - 1)], Cursors(left[i..], left[i - 1].value.End()));
      }
    }
  }

  lemma Associative<T>(a: seq<T>, b: seq<T>, c: seq<T>)
    ensures a + b + c == a + (b + c)
  {
  }

  lemma Regroup<T>(a: seq<T>, b: seq<T>, c: seq<T>, d: seq<T>)
    ensures a + b + c + d == a + (b + (c + d))
  {
  }

  function LinesFrom(lines: seq<string>, css: Option<string>, b: nat): seq<Bit>
    requires b <= |lines|
  {
    if b == |lines| then [] else Lines(lines[b..], css)
  }

  lemma NextLine(lines: seq<string>, css: Option<string>, b: nat)
    requires b < |lines|
    ensures b == 0 ==> LinesFrom(lines, css, b) == Lines(lines, css)
    ensures LinesFrom(lines, css, b) ==
            [Span(lines[b], css)] + ((if b + 1 < |lines| then [Break] else []) + LinesFrom(lines, css, b + 1))
  {
    assert b == 0 ==> lines[b..] == lines;
    assert lines[b..][1..] == lines[b + 1..];
  }

  lemma PieceIsInStyle(text: string, css: Option<string>)
    ensures forall bit | bit in Piece(text, css) && bit.Span? :: bit.css == css
  {
    if text != "" && css.Some? {
      LinesAreInStyle(Tabs.Split(text), css);
    }
  }

  lemma {:induction false} LinesAreInStyle(lines: seq<string>, css: Option<string>)
    requires lines != []
    ensures forall bit | bit in Lines(lines, css) && bit.Span? :: bit.css == css
    decreases |lines|
  {
    if |lines| > 1 {
      LinesAreInStyle(lines[1..], css);
    }
  }

  class Highlighter {
    var code: string
    var matches: seq<Option<Match>>
    var div: seq<Bit>

    constructor (code: string)
      ensures this.code == code && matches == [] && div == []
    {
      this.code, matches, div := code, [], [];
    }

    /** All new spans have the given style, or none if none is given. */
    method AddBit(text: string, css: Option<string>)
      modifies `div
      ensures div == old(div) + Piece(text, css)
      ensures forall i | |old(div)| <= i < |div| && div[i].Span? :: div[i].css == css
    {
      PieceIsInStyle(text, css);
      if text == "" {
        return;
      }
      if css.None? {
        div := div + [Span(text, None)];
        return;
      }
      AddLines(Tabs.Split(text), css);
    }

    method AddLines(lines: seq<string>, css: Option<string>)
      requires lines != []
      modifies `div
      ensures div == old(div) + Lines(lines, css)
    {
      ghost var goal := div + Lines(lines, css);
      NextLine(lines, css, 0);
      for b := 0 to |lines|
        invariant div + LinesFrom(lines, css, b) == goal
      {
        NextLine(lines, css, b);
        Regroup(div, [Span(lines[b], css)], if b + 1 < |lines| then [Break] else [], LinesFrom(lines, css, b + 1));
        div := div + [Span(lines[b], css)];
        if b + 1 < |lines| {
          div := div + [Break];
        }
      }
    }

    method IsInside(a: Option<Match>) returns (b: bool)
      ensures b <==> a.Some? && InsideAny(a.value, matches)
    {
      if a.None? || a.value.value == "" {
        return false;
      }
      for j := 0 to |matches|
        invariant forall k | 0 <= k < j && matches[k].Some? :: !Inside(a.value, matches[k].value)
      {
        var c := matches[j];
        if c.None? {
          continue;
        }
        if c.value.index < a.value.index && a.value.index < c.value.index + |c.value.value| {
          return true;
        }
      }
      return false;
    }

    /** The suppression loop over the sorted matches. */
    method Suppress(ghost ms: seq<Match>)
      requires Sorted(ms) && |matches| == |ms| && forall i | 0 <= i < |ms| :: matches[i] == Some(ms[i])
      modifies `matches
      ensures matches == Greedy(ms)
    {
      for i := 0 to |matches|
        invariant |matches| == |ms|
        invariant matches[..i] == Greedy(ms[..i])
        invariant forall k | i <= k < |ms| :: matches[k] == Some(ms[k])
      {
        OneMoreMatch(ms, matches, i);
        var inside := IsInside(matches[i]);
        if inside {
          matches := matches[i := None];
        }
        assert matches[..i + 1] == matches[..i] + [matches[i]];
      }
      assert ms[..|ms|] == ms && matches[..|ms|] == matches;
    }

    lemma OneMoreMatch(ms: seq<Match>, left: seq<Option<Match>>, i: nat)
      requires Sorted(ms) && i < |ms| == |left| && forall k | i <= k < |ms| :: left[k] == Some(ms[k])
      requires left[..i] == Greedy(ms[..i])
      ensures Greedy(ms[..i + 1]) == left[..i] + [if InsideAny(ms[i], left) then None else Some(ms[i])]
    {
      LaterOnesDoNotCount(ms, left, i);
      assert ms[..i + 1][..i] == ms[..i];
    }

    lemma LaterOnesDoNotCount(ms: seq<Match>, left: seq<Option<Match>>, i: nat)
      requires Sorted(ms) && i < |ms| == |left| && forall k | i <= k < |ms| :: left[k] == Some(ms[k])
      ensures InsideAny(ms[i], left) <==> InsideAny(ms[i], left[..i])
    {
      if InsideAny(ms[i], left) {
        var j :| 0 <= j < |left| && left[j].Some? && Inside(ms[i], left[j].value);
        assert j < i;
        assert left[..i][j] == left[j];
      }
      if InsideAny(ms[i], left[..i]) {
        var j :| 0 <= j < i && left[..i][j].Some? && Inside(ms[i], left[..i][j].value);
        assert left[j] == left[..i][j];
      }
    }

    /** The emission loop; trail is every value its cursor takes. */
    method Emit() returns (ghost trail: seq<nat>)
      modifies `div
      ensures div == old(div) + Bits(code, matches, 0)
      ensures trail == Cursors(matches, 0)
    {
      var h: nat := 0;
      trail := [];
      for i := 0 to |matches|
        invariant h == CursorAt(matches, i)
        invariant div == old(div) + BitsBefore(code, matches, i)
        invariant trail == CursorsBefore(matches, i)
      {
        if matches[i].None? || matches[i].value.value == "" {
          continue;
        }
        var a := matches[i].value;
        Regroup(old(div), BitsBefore(code, matches, i),
                Piece(Substr(code, h, a.index - h), None), Piece(a.value, Some(a.css)));
        AddBit(Substr(code, h, a.index - h), None);
        AddBit(a.value, Some(a.css));
        assert div == old(div) + (BitsBefore(code, matches, i) + MatchBits(code, a, h));
        trail := trail + [h];
        h := a.index + |a.value|;
      }
      BitsBeforeAndAfter(code, matches, |matches|);
      CursorsBeforeAndAfter(matches, |matches|);
      Associative(old(div), BitsBefore(code, matches, |matches|), Piece(Substr(code, h, |code|), None));
      AddBit(Substr(code, h, |code|), None);
      trail := trail + [h];
    }

    /** The part of `Highlight` after the patterns have been matched; sorted is what the engine's sort
        makes of the list of matches. */
    method Highlight(sorted: seq<Match>)
      requires Sorted(sorted)
      modifies this
      ensures code == old(code) && matches == Greedy(sorted)
      ensures div == old(div) + Bits(code, Greedy(sorted), 0)
    {
      if sorted == [] {
        matches := [];
        assert Substr(code, 0, |code|) == code;
        AddBit(code, None);
        return;
      }
      matches := seq(|sorted|, i requires 0 <= i < |sorted| => Some(sorted[i]));
      Suppress(sorted);
      ghost var _ := Emit();
    }
  }

  // ---------- conservation ----------

  /** The matches are where they claim to be. */
  ghost predicate FoundIn(code: string, left: seq<Option<Match>>) {
    forall i | 0 <= i < |left| && left[i].Some? ::
      left[i].value.End() <= |code| && code[left[i].value.index..left[i].value.End()] == left[i].value.value
  }

  predicate Emitted(m: Option<Match>) {
    m.Some? && m.value.value != ""
  }

  /** Where the next emitted match starts. */
  function NextStart(left: seq<Option<Match>>): Option<nat> {
    if left == [] then None
    else if Emitted(left[0]) then Some(left[0].value.index)
    else NextStart(left[1..])
  }

  /** The emitted text without the matches that are followed by another one with the same start. */
  function LastOfEachStart(code: string, left: seq<Option<Match>>, cursor: nat): string {
    if left == [] then Substr(code, cursor, |code|)
    else if !Emitted(left[0]) then LastOfEachStart(code, left[1..], cursor)
    else
      var m := left[0].value;
      Substr(code, cursor, m.index - cursor)
      + (if NextStart(left[1..]) == Some(m.index) then "" else m.value)
      + LastOfEachStart(code, left[1..], m.End())
  }

  /** How much text is emitted more than once. */
  function Repeated(left: seq<Option<Match>>): nat {
    if left == [] then 0
    else (if Emitted(left[0]) && NextStart(left[1..]) == Some(left[0].value.index) then |left[0].value.value| else 0)
         + Repeated(left[1..])
  }

  /** In order, and none starting inside another. */
  ghost predicate Disjoint(left: seq<Option<Match>>) {
    forall i, j | 0 <= i < j < |left| && Emitted(left[i]) && Emitted(left[j]) ::
      SortCallback(left[i].value, left[j].value) <= 0 && !Inside(left[j].value, left[i].value)
  }

  lemma SuppressedIsDisjoint(ms: seq<Match>)
    requires Sorted(ms)
    ensures Disjoint(Greedy(ms))
  {
    var left := Greedy(ms);
    GreedyIsExact(ms, left);
    forall i, j | 0 <= i < j < |left| && Emitted(left[i]) && Emitted(left[j])
      ensures !Inside(left[j].value, left[i].value)
    {
      assert left[j] != None && !InsideAny(ms[j], left);
    }
  }

  /** The values that the cursor of the emission loop takes. */
  function Cursors(left: seq<Option<Match>>, cursor: nat): seq<nat> {
    if left == [] then [cursor]
    else if !Emitted(left[0]) then Cursors(left[1..], cursor)
    else [cursor] + Cursors(left[1..], left[0].value.End())
  }

  lemma {:induction false} CursorNeverMovesBack(left: seq<Option<Match>>, cursor: nat)
    requires Disjoint(left) && forall i | 0 <= i < |left| && Emitted(left[i]) :: cursor <= left[i].value.End()
    ensures var cs := Cursors(left, cursor);
            && cs != [] && cs[0] == cursor
            && forall i, j | 0 <= i < j < |cs| :: cs[i] <= cs[j]
    decreases left
  {
    if left != [] {
      var rest := left[1..];
      if Emitted(left[0]) {
        forall i | 0 <= i < |rest| && Emitted(rest[i]) ensures left[0].value.End() <= rest[i].value.End() {
          assert left[i + 1] == rest[i];
        }
        CursorNeverMovesBack(rest, left[0].value.End());
      } else {
        CursorNeverMovesBack(rest, cursor);
      }
    }
  }

  lemma {:induction false} NextStartIsAfter(left: seq<Option<Match>>, m: Match)
    requires m.value != "" && Disjoint([Some(m)] + left)
    ensures match NextStart(left) { case None => true case Some(s) => s == m.index || m.End() <= s }
    decreases left
  {
    if left != [] {
      if Emitted(left[0]) {
        var all := [Some(m)] + left;
        assert all[0] == Some(m) && all[1] == left[0];
        assert SortCallback(all[0].value, all[1].value) <= 0 && !Inside(all[1].value, all[0].value);
      } else {
        forall i, j | 0 <= i < j < |[Some(m)] + left[1..]| ensures
          var (a, b) := (([Some(m)] + left[1..])[i], ([Some(m)] + left[1..])[j]);
          Emitted(a) && Emitted(b) ==> SortCallback(a.value, b.value) <= 0 && !Inside(b.value, a.value)
        {
          var all := [Some(m)] + left;
          assert ([Some(m)] + left[1..])[i] == all[if i == 0 then 0 else i + 1];
          assert ([Some(m)] + left[1..])[j] == all[j + 1];
        }
        NextStartIsAfter(left[1..], m);
      }
    }
  }

  /** From a position on, with everything before it emitted: the text is emitted exactly once. */
  lemma {:induction false} TextIsConserved(code: string, left: seq<Option<Match>>, cursor: nat, position: nat)
    requires FoundIn(code, left) && Disjoint(left) && position <= |code|
    requires cursor == position || (position <= cursor && NextStart(left) == Some(position))
    requires match NextStart(left) { case None => true case Some(s) => position <= s }
    ensures LastOfEachStart(code, left, cursor) == code[position..]
    decreases left
  {
    if left != [] {
      var rest := left[1..];
      RestIsAlike(code, left);
      if !Emitted(left[0]) {
        TextIsConserved(code, rest, cursor, position);
      } else {
        var m := left[0].value;
        assert left == [Some(m)] + rest;
        NextStartIsAfter(rest, m);
        assert code[m.index..m.End()] == m.value;
        GapThenRest(code, position, m.index, m.End(), cursor);
        if NextStart(rest) == Some(m.index) {
          TextIsConserved(code, rest, m.End(), m.index);
        } else {
          TextIsConserved(code, rest, m.End(), m.End());
        }
      }
    }
  }

  lemma RestIsAlike(code: string, left: seq<Option<Match>>)
    requires FoundIn(code, left) && Disjoint(left) && left != []
    ensures FoundIn(code, left[1..]) && Disjoint(left[1..])
  {
    assert forall i | 0 <= i < |left| - 1 :: left[1..][i] == left[i + 1];
  }

  lemma GapThenRest(code: string, position: nat, start: nat, end: nat, cursor: nat)
    requires position <= start <= end <= |code| && (cursor == position || (position <= cursor && start == position))
    ensures var gap := Substr(code, cursor, start - cursor);
            && gap + "" + code[start..] == code[position..]
            && gap + code[start..end] + code[end..] == code[position..]
  {
    assert Substr(code, cursor, start - cursor) == code[position..start];
  }

  lemma {:induction false} TextConcat(a: seq<Bit>, b: seq<Bit>)
    ensures Text(a + b) == Text(a) + Text(b)
    decreases a
  {
    if a == [] {
      assert a + b == b;
    } else {
      assert (a + b)[0] == a[0] && (a + b)[1..] == a[1..] + b;
      TextConcat(a[1..], b);
    }
  }

  lemma PieceText(text: string, css: Option<string>)
    ensures Text(Piece(text, css)) == text
  {
    if text != "" {
      if css.None? {
        assert [Span(text, None)][1..] == [];
      } else {
        LinesText(text, css);
      }
    }
  }

  lemma {:induction false} LinesText(text: string, css: Option<string>)
    ensures Text(Lines(Tabs.Split(text), css)) == text
    decreases text
  {
    if text == "" {
      assert [Span("", css)][1..] == [];
    } else {
      var rest := Tabs.Split(text[1..]);
      LinesText(text[1..], css);
      if text[0] == Tabs.NEWLINE {
        assert ([""] + rest)[1..] == rest;
        FirstLineText("", rest, css);
      } else {
        LongerFirstLine(text[0], rest, css);
      }
    }
  }

  lemma FirstLineText(line: string, rest: seq<string>, css: Option<string>)
    requires rest != []
    ensures Text(Lines([line] + rest, css)) == line + ([Tabs.NEWLINE] + Text(Lines(rest, css)))
  {
    assert ([line] + rest)[1..] == rest;
    var bits := [Span(line, css), Break] + Lines(rest, css);
    assert bits[1..] == [Break] + Lines(rest, css) && bits[1..][1..] == Lines(rest, css);
  }

  lemma LongerFirstLine(c: char, lines: seq<string>, css: Option<string>)
    requires lines != []
    ensures Text(Lines([[c] + lines[0]] + lines[1..], css)) == [c] + Text(Lines(lines, css))
  {
    var longer := [[c] + lines[0]] + lines[1..];
    if |lines| == 1 {
      assert longer == [[c] + lines[0]];
      assert [Span(lines[0], css)][1..] == [] && [Span([c] + lines[0], css)][1..] == [];
    } else {
      FirstLineText(lines[0], lines[1..], css);
      FirstLineText([c] + lines[0], lines[1..], css);
      assert lines == [lines[0]] + lines[1..];
    }
  }

  // ---------- the pieces that count ----------

  function Flags(n: nat, keep: bool): seq<bool> {
    seq(n, _ => keep)
  }

  /** For every piece that is emitted whether it counts: the gaps do, and of the matches those whose next
      emitted match starts somewhere else. */
  function Keeps(code: string, left: seq<Option<Match>>, cursor: nat): seq<bool> {
    if left == [] then Flags(|Piece(Substr(code, cursor, |code|), None)|, true)
    else if !Emitted(left[0]) then Keeps(code, left[1..], cursor)
    else
      var m := left[0].value;
      MatchKeeps(code, m, cursor, NextStart(left[1..]) != Some(m.index)) + Keeps(code, left[1..], m.End())
  }

  function MatchKeeps(code: string, m: Match, cursor: nat, keep: bool): (keeps: seq<bool>)
    ensures |keeps| == |MatchBits(code, m, cursor)|
  {
    Flags(|Piece(Substr(code, cursor, m.index - cursor), None)|, true) + Flags(|Piece(m.value, Some(m.css))|, keep)
  }

  /** The pieces whose flag is set, in their order. */
  function Select(bits: seq<Bit>, keeps: seq<bool>): seq<Bit> {
    if bits == [] || keeps == [] then []
    else (if keeps[0] then [bits[0]] else []) + Select(bits[1..], keeps[1..])
  }

  lemma {:induction false} SelectConcat(a: seq<Bit>, b: seq<Bit>, k: seq<bool>, l: seq<bool>)
    requires |a| == |k|
    ensures Select(a + b, k + l) == Select(a, k) + Select(b, l)
    decreases a
  {
    if a == [] {
      assert a + b == b && k + l == l;
    } else {
      assert (a + b)[0] == a[0] && (a + b)[1..] == a[1..] + b;
      assert (k + l)[0] == k[0] && (k + l)[1..] == k[1..] + l;
      SelectConcat(a[1..], b, k[1..], l);
    }
  }

  lemma {:induction false} SelectAllOrNone(bits: seq<Bit>, keep: bool)
    ensures Select(bits, Flags(|bits|, keep)) == if keep then bits else []
    decreases bits
  {
    if bits != [] {
      assert Flags(|bits|, keep)[1..] == Flags(|bits| - 1, keep);
      SelectAllOrNone(bits[1..], keep);
    }
  }

  lemma {:induction false} OneFlagEach(code: string, left: seq<Option<Match>>, cursor: nat)
    ensures |Keeps(code, left, cursor)| == |Bits(code, left, cursor)|
    decreases left
  {
    if left != [] {
      OneFlagEach(code, left[1..], if Emitted(left[0]) then left[0].value.End() else cursor);
    }
  }

  /** The text of the pieces that count. */
  lemma {:induction false} KeptText(code: string, left: seq<Option<Match>>, cursor: nat)
    ensures Text(Select(Bits(code, left, cursor), Keeps(code, left, cursor))) == LastOfEachStart(code, left, cursor)
    decreases left
  {
    if left == [] {
      SelectAllOrNone(Piece(Substr(code, cursor, |code|), None), true);
      PieceText(Substr(code, cursor, |code|), None);
    } else if !Emitted(left[0]) {
      KeptText(code, left[1..], cursor);
    } else {
      var m := left[0].value;
      KeptText(code, left[1..], m.End());
      OneFlagEach(code, left[1..], m.End());
      var (bits, keeps) := (Bits(code, left[1..], m.End()), Keeps(code, left[1..], m.End()));
      KeptPieces(code, m, cursor, NextStart(left[1..]) != Some(m.index), bits, keeps);
    }
  }

  lemma KeptPieces(code: string, m: Match, cursor: nat, keep: bool, bits: seq<Bit>, keeps: seq<bool>)
    requires |bits| == |keeps|
    ensures Text(Select(MatchBits(code, m, cursor) + bits, MatchKeeps(code, m, cursor, keep) + keeps))
         == Substr(code, cursor, m.index - cursor) + (if keep then m.value else "") + Text(Select(bits, keeps))
  {
    var (g, p) := (Piece(Substr(code, cursor, m.index - cursor), None), Piece(m.value, Some(m.css)));
    SelectConcat(g + p, bits, MatchKeeps(code, m, cursor, keep), keeps);
    SelectConcat(g, p, Flags(|g|, true), Flags(|p|, keep));
    SelectAllOrNone(g, true);
    SelectAllOrNone(p, keep);
    var kept := if keep then p else [];
    TextConcat(g + kept, Select(bits, keeps));
    TextConcat(g, kept);
    PieceText(Substr(code, cursor, m.index - cursor), None);
    PieceText(m.value, Some(m.css));
  }

  /** All that is emitted: the text once, and the repeated matches once more. */
  lemma {:induction false} EmittedLength(code: string, left: seq<Option<Match>>, cursor: nat)
    ensures |Text(Bits(code, left, cursor))| == |LastOfEachStart(code, left, cursor)| + Repeated(left)
    ensures Repeated(left) == 0 ==> Text(Bits(code, left, cursor)) == LastOfEachStart(code, left, cursor)
    decreases left
  {
    if left == [] {
      PieceText(Substr(code, cursor, |code|), None);
    } else if !Emitted(left[0]) {
      EmittedLength(code, left[1..], cursor);
    } else {
      var m := left[0].value;
      EmittedLength(code, left[1..], m.End());
      PiecesText(code, m, cursor, Bits(code, left[1..], m.End()));
    }
  }

  lemma PiecesText(code: string, m: Match, cursor: nat, bits: seq<Bit>)
    ensures Text(MatchBits(code, m, cursor) + bits) == Substr(code, cursor, m.index - cursor) + m.value + Text(bits)
  {
    var (g, p) := (Piece(Substr(code, cursor, m.index - cursor), None), Piece(m.value, Some(m.css)));
    PieceText(Substr(code, cursor, m.index - cursor), None);
    PieceText(m.value, Some(m.css));
    TextConcat(g, p);
    TextConcat(g + p, bits);
  }

  /** Two emitted matches start at the same place. */
  ghost predicate SharedStart(left: seq<Option<Match>>) {
    exists i, j ::
      0 <= i < j < |left| && Emitted(left[i]) && Emitted(left[j]) && left[i].value.index == left[j].value.index
  }

  /** Emission: keeping only the last match of each start, the emitted pieces are the code.  All pieces
      together are the code exactly when no two emitted matches share their start. */
  lemma EmissionConserves(code: string, ms: seq<Match>)
    requires Sorted(ms) && FoundIn(code, Greedy(ms))
    ensures var (bits, keeps) := (Bits(code, Greedy(ms), 0), Keeps(code, Greedy(ms), 0));
            |keeps| == |bits| && Text(Select(bits, keeps)) == code
    ensures Text(Bits(code, Greedy(ms), 0)) == code <==> !SharedStart(Greedy(ms))
  {
    var left := Greedy(ms);
    SuppressedIsDisjoint(ms);
    TextIsConserved(code, left, 0, 0);
    OneFlagEach(code, left, 0);
    KeptText(code, left, 0);
    EmittedLength(code, left, 0);
    RepeatedMeansShared(left);
  }

  /** The shortest case: a keyword that begins like a longer match. */
  lemma {:induction false} SharedStartIsDoubled(short: string, long: string, css: string)
    requires short != "" && short < long
    ensures var ms := [Match(short, 0, css), Match(long, 0, css)];
            && Sorted(ms) && FoundIn(long, Greedy(ms)) && SharedStart(Greedy(ms))
            && Text(Bits(long, Greedy(ms), 0)) == short + long
  {
    var ms := [Match(short, 0, css), Match(long, 0, css)];
    BothSurvive(ms);
    var left := Greedy(ms);
    assert Emitted(left[0]) && Emitted(left[1]) && left[0].value.index == left[1].value.index;
    TextOfBoth(long, ms[0], ms[1]);
  }

  lemma {:induction false} BothSurvive(ms: seq<Match>)
    requires |ms| == 2 && ms[0].index == ms[1].index
    ensures Greedy(ms) == [Some(ms[0]), Some(ms[1])]
  {
    assert ms[..1] == [ms[0]] && Greedy([ms[0]]) == [Some(ms[0])];
  }

  lemma {:induction false} TextOfBoth(code: string, a: Match, b: Match)
    requires a.value != "" && b.value != "" && a.index == b.index == 0 && |a.value| <= |b.value| == |code|
    ensures Text(Bits(code, [Some(a), Some(b)], 0)) == a.value + b.value
  {
    assert [Some(a), Some(b)][1..] == [Some(b)];
    TextOfLast(code, b, a.End());
    PiecesText(code, a, 0, Bits(code, [Some(b)], a.End()));
  }

  lemma {:induction false} TextOfLast(code: string, b: Match, cursor: nat)
    requires b.value != "" && b.index == 0 && |b.value| == |code|
    ensures Text(Bits(code, [Some(b)], cursor)) == b.value
  {
    assert [Some(b)][1..] == [];
    PieceText(Substr(code, |code|, |code|), None);
    PiecesText(code, b, cursor, Bits(code, [], |code|));
  }

  lemma {:induction false} RepeatedMeansShared(left: seq<Option<Match>>)
    requires Disjoint(left)
    ensures Repeated(left) > 0 <==> SharedStart(left)
    decreases left
  {
    if left != [] {
      RepeatedMeansShared(left[1..]);
      SharedStartOfRest(left);
      if Emitted(left[0]) {
        FirstSharedIsNext(left);
      }
    }
  }

  /** A later match starts where the first one does. */
  ghost predicate FirstIsShared(left: seq<Option<Match>>)
    requires left != [] && Emitted(left[0])
  {
    exists j :: 0 < j < |left| && Emitted(left[j]) && left[j].value.index == left[0].value.index
  }

  lemma SharedStartOfRest(left: seq<Option<Match>>)
    requires left != []
    ensures SharedStart(left) <==> SharedStart(left[1..]) || (Emitted(left[0]) && FirstIsShared(left))
  {
    var rest := left[1..];
    if SharedStart(rest) {
      var i, j :| 0 <= i < j < |rest| && Emitted(rest[i]) && Emitted(rest[j])
                  && rest[i].value.index == rest[j].value.index;
      assert left[i + 1] == rest[i] && left[j + 1] == rest[j];
    }
    if SharedStart(left) {
      var i, j :| 0 <= i < j < |left| && Emitted(left[i]) && Emitted(left[j])
                  && left[i].value.index == left[j].value.index;
      assert left[j] == rest[j - 1];
      if i > 0 {
        assert left[i] == rest[i - 1];
      }
    }
  }

  lemma {:induction false} NextStartOccurs(left: seq<Option<Match>>)
    ensures NextStart(left).Some? ==>
              exists i :: 0 <= i < |left| && Emitted(left[i]) && left[i].value.index == NextStart(left).value
    decreases left
  {
    if left != [] {
      NextStartOccurs(left[1..]);
      if !Emitted(left[0]) && NextStart(left).Some? {
        var i :| 0 <= i < |left[1..]| && Emitted(left[1..][i]) && left[1..][i].value.index == NextStart(left).value;
        assert left[i + 1] == left[1..][i];
      }
    }
  }

  /** If a later match shares the start of the first one, so does the next one. */
  lemma FirstSharedIsNext(left: seq<Option<Match>>)
    requires Disjoint(left) && left != [] && Emitted(left[0])
    ensures FirstIsShared(left) <==> NextStart(left[1..]) == Some(left[0].value.index)
  {
    NextStartOccurs(left[1..]);
    NextStartIsLeast(left[1..]);
    if NextStart(left[1..]) == Some(left[0].value.index) {
      var i :| 0 <= i < |left[1..]| && Emitted(left[1..][i]) && left[1..][i].value.index == NextStart(left[1..]).value;
      assert left[i + 1] == left[1..][i];
    }
    if FirstIsShared(left) {
      var j :| 0 < j < |left| && Emitted(left[j]) && left[j].value.index == left[0].value.index;
      assert left[1..][j - 1] == left[j];
      var i :| 0 <= i < |left[1..]| && Emitted(left[1..][i]) && left[1..][i].value.index == NextStart(left[1..]).value;
      assert left[i + 1] == left[1..][i];
    }
  }

  lemma {:induction false} NextStartIsLeast(left: seq<Option<Match>>)
    requires Disjoint(left)
    ensures forall j | 0 <= j < |left| && Emitted(left[j]) ::
              NextStart(left).Some? && NextStart(left).value <= left[j].value.index
    decreases left
  {
    if left != [] && !Emitted(left[0]) {
      NextStartIsLeast(left[1..]);
      forall j | 0 <= j < |left| && Emitted(left[j])
        ensures NextStart(left).Some? && NextStart(left).value <= left[j].value.index
      {
        assert left[1..][j - 1] == left[j];
      }
    }
  }
}
