/** Smart tabs: replacing tabs by spaces up to the next tab stop. */
module Tabs {
  import opened Multiples

  const TAB: char := '\t'
  const NEWLINE: char := '\n'
  const TAB_SIZE: nat := 4

  function Spaces(n: nat): (s: string)
    ensures |s| == n && forall j | 0 <= j < n :: s[j] == ' '
  {
    seq(n, _ => ' ')
  }

  /** How far the next tab stop is from a column; tab stops are the multiples of the size. */
  function ToStop(column: nat, size: nat): (n: nat)
    requires size > 0
    ensures 0 < n <= size
    decreases column
  {
    if column < size then size - column else ToStop(column - size, size)
  }

  /** The distance as it is computed. */
  lemma {:induction false} StopDistance(column: nat, size: nat)
    requires size > 0
    ensures ToStop(column, size) == size - column % size
    decreases column
  {
    if column >= size {
      StopDistance(column - size, size);
      AddDivisor(column - size, size);
    } else {
      SmallRemainder(column, size);
    }
  }

  lemma SmallRemainder(x: nat, size: nat)
    requires x < size
    ensures x % size == x
  {
  }

  /** One pass over a line that starts at the given column. */
  function Expanded(line: string, size: nat, column: nat): string
    requires size > 0
    decreases line
  {
    if line == "" then ""
    else if line[0] == TAB then
      var n := ToStop(column, size);
      Spaces(n) + Expanded(line[1..], size, column + n)
    else
      [line[0]] + Expanded(line[1..], size, column + 1)
  }

  function CountTabs(line: string): nat {
    if line == "" then 0 else (if line[0] == TAB then 1 else 0) + CountTabs(line[1..])
  }

  lemma {:induction false} CountTabsConcat(a: string, b: string)
    ensures CountTabs(a + b) == CountTabs(a) + CountTabs(b)
    decreases a
  {
    if a == "" {
      assert a + b == b;
    } else {
      assert (a + b)[0] == a[0] && (a + b)[1..] == a[1..] + b;
      CountTabsConcat(a[1..], b);
    }
  }

  lemma {:induction false} NoTabs(a: string)
    requires TAB !in a
    ensures CountTabs(a) == 0
    decreases a
  {
    if a != "" {
      NoTabs(a[1..]);
    }
  }

  /** Text before the first tab stays where it is. */
  lemma {:induction false} PrefixStays(a: string, b: string, size: nat, column: nat)
    requires size > 0 && TAB !in a
    ensures Expanded(a + b, size, column) == a + Expanded(b, size, column + |a|)
    decreases a
  {
    if a == "" {
      assert a + b == b;
    } else {
      assert (a + b)[0] == a[0] && (a + b)[1..] == a[1..] + b;
      PrefixStays(a[1..], b, size, column + 1);
    }
  }

  method IndexOf(s: string, c: char) returns (i: int)
    ensures i == -1 ==> c !in s
    ensures i != -1 ==> 0 <= i < |s| && s[i] == c && c !in s[..i]
  {
    for k := 0 to |s|
      invariant c !in s[..k]
    {
      if s[k] == c {
        return k;
      }
      assert s[..k + 1] == s[..k] + [s[k]];
    }
    assert s[..|s|] == s;
    return -1;
  }

  /** The line with one character replaced by spaces. */
  function Spaced(line: string, pos: nat, count: nat): string
    requires pos < |line|
  {
    line[..pos] + Spaces(count) + line[pos + 1..]
  }

  /** The helper that cuts out one character and puts spaces in its place. */
  method InsertSpaces(line: string, pos: nat, count: nat) returns (r: string)
    requires pos < |line|
    ensures r == Spaced(line, pos, count)
  {
    var left, right, spaces := line[..pos], line[pos + 1..], "";
    for i := 0 to count
      invariant spaces == Spaces(i)
    {
      spaces := spaces + " ";
    }
    r := left + spaces + right;
  }

  method SpacesNeeded(pos: nat, size: nat) returns (n: nat)
    requires size > 0
    ensures n == ToStop(pos, size)
  {
    StopDistance(pos, size);
    n := size - pos % size;
  }

  /** One line: the first tab is replaced until there is none.  The line can grow in every round. */
  method ProcessLine(line: string, size: nat) returns (r: string)
    requires size > 0
    ensures r == Expanded(line, size, 0)
    ensures TAB !in r
  {
    r := line;
    while true
      invariant Expanded(r, size, 0) == Expanded(line, size, 0)
      decreases CountTabs(r)
    {
      var pos := IndexOf(r, TAB);
      if pos == -1 {
        break;
      }
      var spaces := SpacesNeeded(pos, size);
      FirstTabKeepsResult(r, pos, size);
      FirstTabIsGone(r, pos, spaces);
      r := InsertSpaces(r, pos, spaces);
    }
    TabFree(r, size);
  }

  lemma TabFree(line: string, size: nat)
    requires size > 0 && TAB !in line
    ensures Expanded(line, size, 0) == line
  {
    PrefixStays(line, "", size, 0);
    assert line + "" == line;
  }

  /** Replacing the first tab changes nothing in the result. */
  lemma FirstTabKeepsResult(line: string, pos: nat, size: nat)
    requires size > 0 && pos < |line| && line[pos] == TAB && TAB !in line[..pos]
    ensures Expanded(Spaced(line, pos, ToStop(pos, size)), size, 0) == Expanded(line, size, 0)
  {
    var a, b := line[..pos], line[pos + 1..];
    assert line == a + ([TAB] + b);
    ReplacedTab(a, b, size);
  }

  lemma ReplacedTab(a: string, b: string, size: nat)
    requires size > 0 && TAB !in a
    ensures Expanded(a + ([TAB] + b), size, 0) == Expanded(a + Spaces(ToStop(|a|, size)) + b, size, 0)
  {
    var n := ToStop(|a|, size);
    var spaced, rest := a + Spaces(n), Expanded(b, size, |a| + n);
    PrefixStays(a, [TAB] + b, size, 0);
    LeadingTab(b, size, |a|);
    PrefixStays(spaced, b, size, 0);
    Associative(a, Spaces(n), rest);
  }

  lemma LeadingTab(b: string, size: nat, column: nat)
    requires size > 0
    ensures var n := ToStop(column, size);
            Expanded([TAB] + b, size, column) == Spaces(n) + Expanded(b, size, column + n)
  {
    assert ([TAB] + b)[1..] == b;
  }

  lemma Associative(a: string, b: string, c: string)
    ensures (a + b) + c == a + (b + c)
  {
  }

  /** And leaves one tab less. */
  lemma FirstTabIsGone(line: string, pos: nat, count: nat)
    requires pos < |line| && line[pos] == TAB
    ensures CountTabs(Spaced(line, pos, count)) < CountTabs(line)
  {
    var a, b := line[..pos], line[pos + 1..];
    var tail := [TAB] + b;
    assert line == a + tail && tail[1..] == b;
    CountTabsConcat(a, tail);
    CountTabsConcat(a + Spaces(count), b);
    CountTabsConcat(a, Spaces(count));
    NoTabs(Spaces(count));
  }

  // ---------- where the characters end up ----------

  /** The column of character i, or of the end of the line. */
  function Column(line: string, size: nat, i: nat): nat
    requires size > 0 && i <= |line|
  {
    if i == 0 then 0
    else
      var before := Column(line, size, i - 1);
      if line[i - 1] == TAB then before + ToStop(before, size) else before + 1
  }

  lemma {:induction false} ExpandedConcat(a: string, b: string, size: nat, column: nat)
    requires size > 0
    ensures Expanded(a + b, size, column) ==
            Expanded(a, size, column) + Expanded(b, size, column + |Expanded(a, size, column)|)
    decreases a
  {
    if a == "" {
      assert a + b == b;
    } else {
      assert (a + b)[0] == a[0] && (a + b)[1..] == a[1..] + b;
      ExpandedConcat(a[1..], b, size, if a[0] == TAB then column + ToStop(column, size) else column + 1);
    }
  }

  lemma {:induction false} ColumnIsWidth(line: string, size: nat, i: nat)
    requires size > 0 && i <= |line|
    ensures Column(line, size, i) == |Expanded(line[..i], size, 0)|
    decreases i
  {
    if i > 0 {
      ColumnIsWidth(line, size, i - 1);
      assert line[..i] == line[..i - 1] + [line[i - 1]];
      ExpandedConcat(line[..i - 1], [line[i - 1]], size, 0);
      assert [line[i - 1]][1..] == "";
    }
  }

  /** Every character that is no tab stands at its column, everything from a tab to the next column is
      blank, and a tab ends at the next multiple of the tab size. */
  lemma CharactersAtTheirColumns(line: string, size: nat, i: nat)
    requires size > 0 && i < |line|
    ensures var (r, from, to) := (Expanded(line, size, 0), Column(line, size, i), Column(line, size, i + 1));
            && from < to <= |r| == Column(line, size, |line|)
            && (line[i] != TAB ==> to == from + 1 && r[from] == line[i])
            && (line[i] == TAB ==> to % size == 0 && to - from <= size && forall j | from <= j < to :: r[j] == ' ')
  {
    ColumnIsWidth(line, size, i);
    ColumnIsWidth(line, size, i + 1);
    ColumnIsWidth(line, size, |line|);
    assert line[..|line|] == line;
    ExpandedAround(line, size, i);
    if line[i] == TAB {
      StopIsMultiple(Column(line, size, i), size);
    }
  }

  /** The result before, at and after character i. */
  lemma ExpandedAround(line: string, size: nat, i: nat)
    requires size > 0 && i < |line|
    ensures var before := Expanded(line[..i], size, 0);
            var at := if line[i] == TAB then Spaces(ToStop(|before|, size)) else [line[i]];
            exists after :: Expanded(line, size, 0) == before + at + after
  {
    var before, rest := line[..i], line[i..];
    assert line == before + rest && rest[0] == line[i];
    ExpandedConcat(before, rest, size, 0);
    var column := |Expanded(before, size, 0)|;
    var after := Expanded(rest[1..], size, column + if line[i] == TAB then ToStop(column, size) else 1);
    assert Expanded(line, size, 0) ==
           Expanded(before, size, 0) + (if line[i] == TAB then Spaces(ToStop(column, size)) else [line[i]]) + after;
  }

  lemma {:induction false} StopIsMultiple(column: nat, size: nat)
    requires size > 0
    ensures (column + ToStop(column, size)) % size == 0
    decreases column
  {
    if column >= size {
      StopIsMultiple(column - size, size);
      AddDivisor(column - size + ToStop(column - size, size), size);
    } else {
      AddDivisor(0, size);
      SmallRemainder(0, size);
    }
  }

  /** Processing a processed line changes nothing. */
  lemma Idempotent(line: string, size: nat)
    requires size > 0
    ensures Expanded(Expanded(line, size, 0), size, 0) == Expanded(line, size, 0)
  {
    ExpandedHasNoTabs(line, size, 0);
    TabFree(Expanded(line, size, 0), size);
  }

  lemma {:induction false} ExpandedHasNoTabs(line: string, size: nat, column: nat)
    requires size > 0
    ensures TAB !in Expanded(line, size, column)
    ensures NEWLINE in Expanded(line, size, column) ==> NEWLINE in line
    decreases line
  {
    if line != "" {
      ExpandedHasNoTabs(line[1..], size, if line[0] == TAB then column + ToStop(column, size) else column + 1);
      assert line == [line[0]] + line[1..];
    }
  }

  // ---------- whole texts ----------

  /** `split("\n")`: never empty. */
  function Split(text: string): (lines: seq<string>)
    ensures |lines| > 0 && forall i | 0 <= i < |lines| :: NEWLINE !in lines[i]
  {
    if text == "" then [""]
    else
      var rest := Split(text[1..]);
      if text[0] == NEWLINE then [""] + rest else [[text[0]] + rest[0]] + rest[1..]
  }

  function ExpandedLines(lines: seq<string>): (r: seq<string>)
    ensures |r| == |lines| && forall i | 0 <= i < |lines| :: r[i] == Expanded(lines[i], TAB_SIZE, 0)
  {
    if lines == [] then [] else ExpandedLines(lines[..|lines| - 1]) + [Expanded(lines[|lines| - 1], TAB_SIZE, 0)]
  }

  /** Every line with a newline after it, the last one too. */
  function Terminated(lines: seq<string>): string {
    if lines == [] then "" else Terminated(lines[..|lines| - 1]) + lines[|lines| - 1] + [NEWLINE]
  }

  method ProcessSmartTabs(code: string) returns (r: string)
    ensures r == Terminated(ExpandedLines(Split(code)))
    ensures Split(r) == ExpandedLines(Split(code)) + [""]
  {
    var lines := Split(code);
    r := "";
    for i := 0 to |lines|
      invariant r == Terminated(ExpandedLines(lines[..i]))
    {
      var line := ProcessLine(lines[i], TAB_SIZE);
      assert lines[..i + 1][..i] == lines[..i];
      var done := ExpandedLines(lines[..i + 1]);
      assert done[..i] == ExpandedLines(lines[..i]);
      r := r + line + [NEWLINE];
    }
    assert lines[..|lines|] == lines;
    var expanded := ExpandedLines(lines);
    forall i | 0 <= i < |expanded| ensures NEWLINE !in expanded[i] {
      ExpandedHasNoTabs(lines[i], TAB_SIZE, 0);
    }
    SplitTerminated(expanded);
  }

  lemma {:induction false} SplitTerminated(lines: seq<string>)
    requires forall i | 0 <= i < |lines| :: NEWLINE !in lines[i]
    ensures Split(Terminated(lines)) == lines + [""]
    decreases |lines|
  {
    if lines != [] {
      var last := lines[|lines| - 1];
      SplitTerminated(lines[..|lines| - 1]);
      SplitAppend(Terminated(lines[..|lines| - 1]), last);
      assert lines == lines[..|lines| - 1] + [last];
      assert Terminated(lines) == Terminated(lines[..|lines| - 1]) + (last + [NEWLINE]);
    }
  }

  /** A terminated line after a text that ends in a newline, or is empty, adds that line. */
  lemma {:induction false} SplitAppend(text: string, line: string)
    requires NEWLINE !in line && Split(text)[|Split(text)| - 1] == ""
    ensures Split(text + (line + [NEWLINE])) == Split(text)[..|Split(text)| - 1] + [line, ""]
    decreases text
  {
    if text == "" {
      SplitLine(line);
      assert text + (line + [NEWLINE]) == line + [NEWLINE];
    } else {
      var all := text + (line + [NEWLINE]);
      assert all[0] == text[0] && all[1..] == text[1..] + (line + [NEWLINE]);
      var rest := Split(text[1..]);
      if text[0] == NEWLINE || |rest| > 1 {
        SplitAppend(text[1..], line);
      }
    }
  }

  lemma {:induction false} SplitLine(line: string)
    requires NEWLINE !in line
    ensures Split(line + [NEWLINE]) == [line, ""]
    decreases line
  {
    if line != "" {
      assert (line + [NEWLINE])[0] == line[0] && (line + [NEWLINE])[1..] == line[1..] + [NEWLINE];
      SplitLine(line[1..]);
      assert [line[0]] + line[1..] == line;
    } else {
      assert (line + [NEWLINE])[1..] == "";
    }
  }

  /** Tab stops are every four columns, and lines end at a newline. */
  lemma FourColumns()
    ensures Expanded("a\tb\t", TAB_SIZE, 0) == "a   b   "
    ensures Split("a\n") == ["a", ""]
  {
    var (line, rest) := ("a\tb\t", "\tb\t");
    assert line[1..] == rest && rest[1..] == "b\t" && "b\t"[1..] == "\t" && "\t"[1..] == "";
    assert Expanded("\t", 4, 5) == "   " && Expanded("b\t", 4, 4) == "b   ";
    assert Expanded(rest, 4, 1) == "   b   ";
    assert "a" + [NEWLINE] == "a\n";
    SplitLine("a");
  }
}
