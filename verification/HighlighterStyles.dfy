/** Which style every character of the code gets, and which matches are left, in terms of positions alone. */
module HighlighterStyles {
  import opened Wrappers
  import opened Highlighter
  import Tabs

  // ---------- reading the pieces ----------

  /** What a reader sees: a character in a style or in none, or a line break between two spans. */
  datatype Glyph = Glyph(c: char, css: Option<string>) | LineBreak

  /** A text without a style keeps its newlines; the markup for them is inside its span. */
  function Plain(text: string): (r: seq<Glyph>) {
    seq(|text|, i requires 0 <= i < |text| => Glyph(text[i], None))
  }

  function Styled(text: string, css: string): (r: seq<Glyph>) {
    seq(|text|, i requires 0 <= i < |text| => if text[i] == '\n' then LineBreak else Glyph(text[i], Some(css)))
  }

  function OneBit(bit: Bit): seq<Glyph> {
    match bit
    case Break => [LineBreak]
    case Span(text, css) => seq(|text|, i requires 0 <= i < |text| => Glyph(text[i], css))
  }

  function Reading(bits: seq<Bit>): seq<Glyph> {
    if bits == [] then [] else OneBit(bits[0]) + Reading(bits[1..])
  }

  lemma {:induction false} ReadingConcat(a: seq<Bit>, b: seq<Bit>)
    ensures Reading(a + b) == Reading(a) + Reading(b)
    decreases a
  {
    if a == [] {
      assert a + b == b;
    } else {
      assert (a + b)[0] == a[0] && (a + b)[1..] == a[1..] + b;
      ReadingConcat(a[1..], b);
    }
  }

  lemma ReadingOfOne(bit: Bit)
    ensures Reading([bit]) == OneBit(bit)
  {
    assert [bit][1..] == [];
  }

  lemma GapReading(text: string)
    ensures Reading(Piece(text, None)) == Plain(text)
  {
    if text != "" {
      ReadingOfOne(Span(text, None));
    }
  }

  lemma MatchReading(text: string, css: string)
    ensures Reading(Piece(text, Some(css))) == Styled(text, css)
  {
    if text != "" {
      LinesReading(text, css);
    }
  }

  lemma {:induction false} LinesReading(text: string, css: string)
    ensures Reading(Lines(Tabs.Split(text), Some(css))) == Styled(text, css)
    decreases text
  {
    if text == "" {
      ReadingOfOne(Span("", Some(css)));
    } else {
      var rest := Tabs.Split(text[1..]);
      LinesReading(text[1..], css);
      if text[0] == '\n' {
        FirstLineReading("", rest, css);
        assert OneBit(Span("", Some(css))) == [];
      } else {
        LongerLineReading(text[0], rest, css);
      }
      assert Styled(text, css) == Styled([text[0]], css) + Styled(text[1..], css);
    }
  }

  lemma FirstLineReading(line: string, rest: seq<string>, css: string)
    requires rest != []
    ensures Reading(Lines([line] + rest, Some(css)))
         == OneBit(Span(line, Some(css))) + ([LineBreak] + Reading(Lines(rest, Some(css))))
  {
    assert ([line] + rest)[1..] == rest;
    ReadingConcat([Span(line, Some(css)), Break], Lines(rest, Some(css)));
    ReadingConcat([Span(line, Some(css))], [Break]);
    ReadingOfOne(Span(line, Some(css)));
    ReadingOfOne(Break);
    assert [Span(line, Some(css))] + [Break] == [Span(line, Some(css)), Break];
  }

  lemma LongerLineReading(c: char, lines: seq<string>, css: string)
    requires lines != []
    ensures Reading(Lines([[c] + lines[0]] + lines[1..], Some(css)))
         == [Glyph(c, Some(css))] + Reading(Lines(lines, Some(css)))
  {
    LongerBit(c, lines[0], css);
    var first, longer := OneBit(Span(lines[0], Some(css))), [[c] + lines[0]] + lines[1..];
    if |lines| == 1 {
      ReadingOfOne(Span(lines[0], Some(css)));
      ReadingOfOne(Span([c] + lines[0], Some(css)));
      assert longer == [[c] + lines[0]];
    } else {
      var rest := [LineBreak] + Reading(Lines(lines[1..], Some(css)));
      FirstLineReading(lines[0], lines[1..], css);
      FirstLineReading([c] + lines[0], lines[1..], css);
      assert lines == [lines[0]] + lines[1..];
      Associative([Glyph(c, Some(css))], first, rest);
    }
  }

  lemma LongerBit(c: char, text: string, css: string)
    ensures OneBit(Span([c] + text, Some(css))) == [Glyph(c, Some(css))] + OneBit(Span(text, Some(css)))
  {
  }

  // ---------- the style of a position ----------

  predicate Covers(m: Match, p: nat) {
    m.index <= p < m.index + |m.value|
  }

  /** The style of the last match that covers a position. */
  function StyleAt(left: seq<Option<Match>>, p: nat): Option<string> {
    if left == [] then None
    else
      var later := StyleAt(left[1..], p);
      if later.Some? then later
      else if left[0].Some? && Covers(left[0].value, p) then Some(left[0].value.css) else None
  }

  function GlyphAt(code: string, left: seq<Option<Match>>, p: nat): Glyph
    requires p < |code|
  {
    match StyleAt(left, p)
    case None => Glyph(code[p], None)
    case Some(css) => if code[p] == '\n' then LineBreak else Glyph(code[p], Some(css))
  }

  /** The code from a position on, each character as its matches have it. */
  function Tail(code: string, left: seq<Option<Match>>, position: nat): (r: seq<Glyph>)
    requires position <= |code|
    ensures |r| == |code| - position && forall q | 0 <= q < |r| :: r[q] == GlyphAt(code, left, position + q)
  {
    seq(|code| - position, q requires 0 <= q < |code| - position => GlyphAt(code, left, position + q))
  }

  /** The pieces that count, read. */
  function KeptGlyphs(code: string, left: seq<Option<Match>>, cursor: nat): seq<Glyph> {
    if left == [] then Plain(Substr(code, cursor, |code|))
    else if !Emitted(left[0]) then KeptGlyphs(code, left[1..], cursor)
    else
      var m := left[0].value;
      Plain(Substr(code, cursor, m.index - cursor))
      + ((if NextStart(left[1..]) == Some(m.index) then [] else Styled(m.value, m.css))
         + KeptGlyphs(code, left[1..], m.End()))
  }

  lemma {:induction false} NoStyleBefore(left: seq<Option<Match>>, p: nat)
    requires Disjoint(left) && match NextStart(left) { case None => true case Some(s) => p < s }
    ensures StyleAt(left, p) == None
    decreases left
  {
    NextStartIsLeast(left);
    if left != [] {
      RestIsDisjoint(left);
      NextStartIsLeast(left[1..]);
      NextStartOccurs(left[1..]);
      NoStyleBefore(left[1..], p);
    }
  }

  lemma RestIsDisjoint(left: seq<Option<Match>>)
    requires Disjoint(left) && left != []
    ensures Disjoint(left[1..])
  {
    assert forall i | 0 <= i < |left| - 1 :: left[1..][i] == left[i + 1];
  }

  /** A match that shares its start with a later one is covered by later ones. */
  lemma {:induction false} LaterCovers(left: seq<Option<Match>>, m: Match, p: nat)
    requires Disjoint([Some(m)] + left) && m.value != "" && Covers(m, p) && NextStart(left) == Some(m.index)
    ensures StyleAt(left, p).Some?
    decreases left
  {
    var all := [Some(m)] + left;
    if Emitted(left[0]) {
      assert all[0] == Some(m) && all[1] == left[0];
      assert SortCallback(m, left[0].value) <= 0;
    } else {
      DropSecond(left, m);
      LaterCovers(left[1..], m, p);
    }
  }

  lemma DropSecond(left: seq<Option<Match>>, m: Match)
    requires Disjoint([Some(m)] + left) && left != []
    ensures Disjoint([Some(m)] + left[1..])
  {
    var all, less := [Some(m)] + left, [Some(m)] + left[1..];
    forall i, j | 0 <= i < j < |less| && Emitted(less[i]) && Emitted(less[j])
      ensures SortCallback(less[i].value, less[j].value) <= 0 && !Inside(less[j].value, less[i].value)
    {
      assert less[i] == all[if i == 0 then 0 else i + 1] && less[j] == all[j + 1];
    }
  }

  // ---------- the pieces that count ----------

  lemma {:induction false} KeptReading(code: string, left: seq<Option<Match>>, cursor: nat)
    ensures Reading(Select(Bits(code, left, cursor), Keeps(code, left, cursor))) == KeptGlyphs(code, left, cursor)
    decreases left
  {
    if left == [] {
      SelectAllOrNone(Piece(Substr(code, cursor, |code|), None), true);
      GapReading(Substr(code, cursor, |code|));
    } else if !Emitted(left[0]) {
      KeptReading(code, left[1..], cursor);
    } else {
      var m := left[0].value;
      KeptReading(code, left[1..], m.End());
      OneFlagEach(code, left[1..], m.End());
      var (bits, keeps) := (Bits(code, left[1..], m.End()), Keeps(code, left[1..], m.End()));
      KeptPiecesReading(code, m, cursor, NextStart(left[1..]) != Some(m.index), bits, keeps);
    }
  }

  lemma KeptPiecesReading(code: string, m: Match, cursor: nat, keep: bool, bits: seq<Bit>, keeps: seq<bool>)
    requires |bits| == |keeps|
    ensures Reading(Select(MatchBits(code, m, cursor) + bits, MatchKeeps(code, m, cursor, keep) + keeps))
         == Plain(Substr(code, cursor, m.index - cursor))
            + ((if keep then Styled(m.value, m.css) else []) + Reading(Select(bits, keeps)))
  {
    var (g, p) := (Piece(Substr(code, cursor, m.index - cursor), None), Piece(m.value, Some(m.css)));
    SelectConcat(g + p, bits, MatchKeeps(code, m, cursor, keep), keeps);
    SelectConcat(g, p, Flags(|g|, true), Flags(|p|, keep));
    SelectAllOrNone(g, true);
    SelectAllOrNone(p, keep);
    ReadTogether(g, if keep then p else [], Select(bits, keeps));
    GapReading(Substr(code, cursor, m.index - cursor));
    MatchReading(m.value, m.css);
  }

  lemma ReadTogether(a: seq<Bit>, b: seq<Bit>, c: seq<Bit>)
    ensures Reading(a + b + c) == Reading(a) + (Reading(b) + Reading(c))
  {
    ReadingConcat(a + b, c);
    ReadingConcat(a, b);
    Associative(Reading(a), Reading(b), Reading(c));
  }

  /** If nothing is repeated, all pieces count. */
  lemma {:induction false} AllReading(code: string, left: seq<Option<Match>>, cursor: nat)
    requires Repeated(left) == 0
    ensures Reading(Bits(code, left, cursor)) == KeptGlyphs(code, left, cursor)
    decreases left
  {
    if left == [] {
      GapReading(Substr(code, cursor, |code|));
    } else if !Emitted(left[0]) {
      AllReading(code, left[1..], cursor);
    } else {
      var m := left[0].value;
      AllReading(code, left[1..], m.End());
      var (g, p) := (Piece(Substr(code, cursor, m.index - cursor), None), Piece(m.value, Some(m.css)));
      ReadTogether(g, p, Bits(code, left[1..], m.End()));
      GapReading(Substr(code, cursor, m.index - cursor));
      MatchReading(m.value, m.css);
    }
  }

  // ---------- every character once, in its style ----------

  lemma TailAfterGap(code: string, left: seq<Option<Match>>, from: nat, to: nat)
    requires from <= to <= |code| && forall p | from <= p < to :: StyleAt(left, p) == None
    ensures Tail(code, left, from) == Plain(code[from..to]) + Tail(code, left, to)
  {
    var (a, b) := (Tail(code, left, from), Plain(code[from..to]) + Tail(code, left, to));
    forall q | 0 <= q < |a| ensures a[q] == b[q] {
      assert q >= to - from ==> from + q == to + (q - (to - from));
    }
  }

  lemma TailAfterMatch(code: string, left: seq<Option<Match>>, m: Match)
    requires m.End() <= |code| && code[m.index..m.End()] == m.value
    requires forall p | m.index <= p < m.End() :: StyleAt(left, p) == Some(m.css)
    ensures Tail(code, left, m.index) == Styled(m.value, m.css) + Tail(code, left, m.End())
  {
    var (a, b) := (Tail(code, left, m.index), Styled(m.value, m.css) + Tail(code, left, m.End()));
    forall q | 0 <= q < |a| ensures a[q] == b[q] {
      assert q < |m.value| ==> code[m.index + q] == code[m.index..m.End()][q];
      assert q >= |m.value| ==> m.index + q == m.End() + (q - |m.value|);
    }
  }

  lemma SameTail(code: string, left: seq<Option<Match>>, rest: seq<Option<Match>>, from: nat)
    requires from <= |code| && forall p | from <= p < |code| :: StyleAt(left, p) == StyleAt(rest, p)
    ensures Tail(code, left, from) == Tail(code, rest, from)
  {
    var (a, b) := (Tail(code, left, from), Tail(code, rest, from));
    forall q | 0 <= q < |a| ensures a[q] == b[q] {
      assert StyleAt(left, from + q) == StyleAt(rest, from + q);
    }
  }

  lemma {:induction false} GlyphsAreConserved(code: string, left: seq<Option<Match>>, cursor: nat, position: nat)
    requires FoundIn(code, left) && Disjoint(left) && position <= |code|
    requires cursor == position || (position <= cursor && NextStart(left) == Some(position))
    requires match NextStart(left) { case None => true case Some(s) => position <= s }
    ensures KeptGlyphs(code, left, cursor) == Tail(code, left, position)
    decreases left, 2
  {
    if left == [] {
      assert Substr(code, cursor, |code|) == code[position..];
      assert code[position..|code|] == code[position..];
      TailAfterGap(code, left, position, |code|);
    } else {
      RestIsAlike(code, left);
      if !Emitted(left[0]) {
        GlyphsAreConserved(code, left[1..], cursor, position);
        SameTail(code, left, left[1..], position);
      } else {
        MatchIsConserved(code, left, cursor, position);
      }
    }
  }

  lemma {:induction false} MatchIsConserved(code: string, left: seq<Option<Match>>, cursor: nat, position: nat)
    requires FoundIn(code, left) && Disjoint(left) && left != [] && Emitted(left[0])
    requires position <= left[0].value.index
    requires cursor == position || (position <= cursor && left[0].value.index == position)
    ensures KeptGlyphs(code, left, cursor) == Tail(code, left, position)
    decreases left, 1
  {
    var m := left[0].value;
    forall p | position <= p < m.index {
      NoStyleBefore(left, p);
    }
    TailAfterGap(code, left, position, m.index);
    assert Substr(code, cursor, m.index - cursor) == code[position..m.index];
    FromTheMatchOn(code, left);
  }

  lemma {:induction false} FromTheMatchOn(code: string, left: seq<Option<Match>>)
    requires FoundIn(code, left) && Disjoint(left) && left != [] && Emitted(left[0])
    ensures var (m, rest) := (left[0].value, left[1..]);
            (if NextStart(rest) == Some(m.index) then [] else Styled(m.value, m.css)) + KeptGlyphs(code, rest, m.End())
            == Tail(code, left, m.index)
    decreases left, 0
  {
    var (m, rest) := (left[0].value, left[1..]);
    assert left == [Some(m)] + rest;
    RestIsAlike(code, left);
    NextStartIsAfter(rest, m);
    if NextStart(rest) == Some(m.index) {
      forall p | m.index <= p < m.End() {
        LaterCovers(rest, m, p);
      }
      SameTail(code, left, rest, m.index);
      GlyphsAreConserved(code, rest, m.End(), m.index);
    } else {
      forall p | m.index <= p < m.End() {
        NoStyleBefore(rest, p);
      }
      TailAfterMatch(code, left, m);
      SameTail(code, left, rest, m.End());
      GlyphsAreConserved(code, rest, m.End(), m.End());
    }
  }

  /** Highlighting: read without the matches that are followed by one with the same start, the pieces
      show every character of the code once, in the style of the last surviving match that covers it, and
      those that no surviving match covers in none.  If no start is shared, that holds of all pieces. */
  lemma EachCharacterInItsStyle(code: string, ms: seq<Match>)
    requires Sorted(ms) && FoundIn(code, Greedy(ms))
    ensures var left := Greedy(ms);
            && Reading(Select(Bits(code, left, 0), Keeps(code, left, 0))) == Tail(code, left, 0)
            && (!SharedStart(left) ==> Reading(Bits(code, left, 0)) == Tail(code, left, 0))
  {
    var left := Greedy(ms);
    SuppressedIsDisjoint(ms);
    GlyphsAreConserved(code, left, 0, 0);
    KeptReading(code, left, 0);
    RepeatedMeansShared(left);
    if !SharedStart(left) {
      AllReading(code, left, 0);
    }
  }

  /** What that says of one position. */
  lemma {:induction false} StyleOfCovered(left: seq<Option<Match>>, i: nat, p: nat)
    requires i < |left| && left[i].Some? && Covers(left[i].value, p)
    requires forall j | i < j < |left| && left[j].Some? :: !Covers(left[j].value, p)
    ensures StyleAt(left, p) == Some(left[i].value.css)
    decreases left
  {
    if i > 0 {
      forall j | i - 1 < j < |left[1..]| && left[1..][j].Some? ensures !Covers(left[1..][j].value, p) {
        assert left[1..][j] == left[j + 1];
      }
      StyleOfCovered(left[1..], i - 1, p);
    } else {
      forall j | 0 <= j < |left[1..]| && left[1..][j].Some? ensures !Covers(left[1..][j].value, p) {
        assert left[1..][j] == left[j + 1];
      }
      NoStyleOfUncovered(left[1..], p);
    }
  }

  lemma {:induction false} NoStyleOfUncovered(left: seq<Option<Match>>, p: nat)
    requires forall j | 0 <= j < |left| && left[j].Some? :: !Covers(left[j].value, p)
    ensures StyleAt(left, p) == None
    decreases left
  {
    if left != [] {
      forall j | 0 <= j < |left[1..]| && left[1..][j].Some? ensures !Covers(left[1..][j].value, p) {
        assert left[1..][j] == left[j + 1];
      }
      NoStyleOfUncovered(left[1..], p);
    }
  }

  /** In terms of positions: a character in a match that is left, and in no later one, has the style of
      that match, and one in no match has none. */
  lemma PositionInItsStyle(code: string, ms: seq<Match>, p: nat)
    requires Sorted(ms) && FoundIn(code, Greedy(ms)) && p < |code|
    ensures var left := Greedy(ms);
            var r := Reading(Select(Bits(code, left, 0), Keeps(code, left, 0)));
            && |r| == |code|
            && (forall i | 0 <= i < |ms| && LastToCover(left, i, p) ::
                  r[p] == if code[p] == '\n' then LineBreak else Glyph(code[p], Some(ms[i].css)))
            && ((forall i | 0 <= i < |left| && left[i].Some? :: !Covers(left[i].value, p)) ==>
                  r[p] == Glyph(code[p], None))
  {
    var left := Greedy(ms);
    EachCharacterInItsStyle(code, ms);
    forall i | 0 <= i < |ms| && LastToCover(left, i, p)
      ensures StyleAt(left, p) == Some(ms[i].css)
    {
      StyleOfCovered(left, i, p);
    }
    if forall i | 0 <= i < |left| && left[i].Some? :: !Covers(left[i].value, p) {
      NoStyleOfUncovered(left, p);
    }
  }

  ghost predicate LastToCover(left: seq<Option<Match>>, i: nat, p: nat)
    requires i < |left|
  {
    && left[i].Some? && Covers(left[i].value, p)
    && forall j | i < j < |left| && left[j].Some? :: !Covers(left[j].value, p)
  }

  // ---------- which matches are left ----------

  /** A match is suppressed exactly if it has text and starts behind the start and before the end of one
      that is left. */
  lemma SuppressedExactly(ms: seq<Match>, i: nat)
    requires Sorted(ms) && i < |ms|
    ensures Greedy(ms)[i] == None
       <==> && ms[i].value != ""
            && exists j :: 0 <= j < |ms| && Greedy(ms)[j].Some?
                           && ms[j].index < ms[i].index < ms[j].index + |ms[j].value|
  {
    var left := Greedy(ms);
    GreedyIsExact(ms, left);
    if InsideAny(ms[i], left) {
      var j :| 0 <= j < |left| && left[j].Some? && Inside(ms[i], left[j].value);
      assert left[j] == Some(ms[j]);
    }
    if j :| 0 <= j < |ms| && left[j].Some? && ms[j].index < ms[i].index < ms[j].index + |ms[j].value| {
      assert left[j] == Some(ms[j]);
      assert ms[i].value != "" ==> Inside(ms[i], left[j].value);
    }
  }

  /** The highlighter on a text whose matches have been found and sorted. */
  method HighlightText(code: string, sorted: seq<Match>) returns (div: seq<Bit>)
    requires Sorted(sorted)
    ensures FoundIn(code, Greedy(sorted)) && !SharedStart(Greedy(sorted)) ==>
              Reading(div) == Tail(code, Greedy(sorted), 0)
  {
    var highlighter := new Highlighter(code);
    highlighter.Highlight(sorted);
    div := highlighter.div;
    assert [] + Bits(code, Greedy(sorted), 0) == Bits(code, Greedy(sorted), 0);
    if FoundIn(code, Greedy(sorted)) {
      EachCharacterInItsStyle(code, sorted);
    }
  }
}
