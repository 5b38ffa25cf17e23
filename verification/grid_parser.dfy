/**
 The activity-grid parser (`AuroraMap.parseAuroraActivityData`). The raw
 text is a header, a `#`-prefixed comment block and then one text line per
 latitude band; each line starts with a label column followed by the
 activity values, separated by runs of whitespace. Cells stay strings: the
 parser does not convert them to numbers.
 */
module GridParser {
  import opened Numbers
  import opened Text

  /** Lines beyond this many are dropped without an error. */
  const MaxRows: nat := 512

  /** The text after the last `#` (all of `raw` when it has none): the
      last piece of `raw.split('#')`. */
  function Payload(raw: seq<char>): (p: seq<char>)
    ensures '#' !in p
    ensures |p| <= |raw| && raw[|raw| - |p|..] == p
    ensures '#' in raw ==> |p| < |raw| && raw[|raw| - |p| - 1] == '#'
    ensures '#' !in raw ==> p == raw
  {
    var segments := Split(raw, '#');
    SplitLastIsSuffix(raw, '#');
    segments[|segments| - 1]
  }

  /** The payload with its first line feed deleted, split on line feeds.
      No line holds a line feed or a `#`. */
  function Lines(raw: seq<char>): (lines: seq<seq<char>>)
    ensures |lines| >= 1
    ensures forall i :: 0 <= i < |lines| ==> '\n' !in lines[i] && '#' !in lines[i]
  {
    var body := DeleteFirst(Payload(raw), '\n');
    SplitPiecesChars(body, '\n');
    DeleteFirstKeepsAbsent(Payload(raw), '\n', '#');
    Split(body, '\n')
  }

  /** There are as many lines as the payload has line feeds, but at least
      one: deleting the first line feed and splitting on the rest leaves
      one piece per remaining line feed plus one. */
  lemma LineCount(raw: seq<char>)
    ensures |Lines(raw)| == MaxInt(multiset(Payload(raw))['\n'], 1)
  {
    DeleteFirstCount(Payload(raw), '\n');
    SplitCount(DeleteFirst(Payload(raw), '\n'), '\n');
  }

  /** `lines.splice(512, lines.length)`: keeps the first `MaxRows` lines. */
  function Truncate(lines: seq<seq<char>>): (kept: seq<seq<char>>)
    ensures |kept| == MinInt(|lines|, MaxRows)
    ensures forall i :: 0 <= i < |kept| ==> kept[i] == lines[i]
  {
    if |lines| <= MaxRows then lines else lines[..MaxRows]
  }

  /** One latitude line: whitespace runs become commas, the line is split
      on commas and the first field (the row label) is dropped. So a row
      has one cell fewer than the line has fields, and no cell holds a
      comma. */
  function ParseRow(line: seq<char>): (row: seq<seq<char>>)
    ensures forall j :: 0 <= j < |row| ==> ',' !in row[j]
  {
    Split(Collapse(line), ',')[1..]
  }

  /** A row has as many cells as the collapsed line has commas. */
  lemma RowWidth(line: seq<char>)
    ensures |ParseRow(line)| == multiset(Collapse(line))[',']
  {
    SplitCount(Collapse(line), ',');
  }

  /** No cell has two whitespace characters in a row, and every character
      of a cell is a character of its line. */
  lemma ParseRowCells(line: seq<char>)
    ensures forall j :: 0 <= j < |ParseRow(line)| ==> NoDoubleSpace(ParseRow(line)[j])
    ensures forall j, k :: 0 <= j < |ParseRow(line)| && 0 <= k < |ParseRow(line)[j]| ==> ParseRow(line)[j][k] in line
  {
    SplitPiecesNoDoubleSpace(Collapse(line), ',');
    SplitPiecesChars(Collapse(line), ',');
  }

  /** `a.reverse()`, built from the front as a recursive definition. */
  function Reverse<T>(s: seq<T>): (r: seq<T>)
    ensures |r| == |s|
    decreases |s|
  {
    if |s| == 0 then [] else Reverse(s[1..]) + [s[0]]
  }

  /** Element `i` of the reversal is element `|s| - 1 - i` of the input. */
  lemma {:induction false} ReverseIndex<T>(s: seq<T>, i: int)
    requires 0 <= i < |s|
    ensures Reverse(s)[i] == s[|s| - 1 - i]
    decreases |s|
  {
    if i < |s| - 1 {
      ReverseIndex(s[1..], i);
    }
  }

  lemma ReverseIndexAll<T>(s: seq<T>)
    ensures forall i :: 0 <= i < |s| ==> Reverse(s)[i] == s[|s| - 1 - i]
  {
    forall i | 0 <= i < |s|
      ensures Reverse(s)[i] == s[|s| - 1 - i]
    {
      ReverseIndex(s, i);
    }
  }

  /** Reversing twice gives the sequence back. */
  lemma ReverseReverse<T>(s: seq<T>)
    ensures Reverse(Reverse(s)) == s
  {
    ReverseIndexAll(s);
    ReverseIndexAll(Reverse(s));
  }

  /** `parseAuroraActivityData`: the kept lines, each parsed into a row,
      in reverse order. */
  function Parse(raw: seq<char>): (grid: seq<seq<seq<char>>>)
    ensures |grid| == MinInt(|Lines(raw)|, MaxRows)
  {
    var kept := Truncate(Lines(raw));
    Reverse(seq(|kept|, i requires 0 <= i < |kept| => ParseRow(kept[i])))
  }

  /** Row `i` of the grid is parsed from line `n - 1 - i`, where `n` is the
      number of kept lines: the last kept line becomes the first row. */
  lemma ParseReversesLines(raw: seq<char>)
    ensures forall i :: 0 <= i < |Parse(raw)| ==> Parse(raw)[i] == ParseRow(Lines(raw)[|Parse(raw)| - 1 - i])
  {
    var lines := Lines(raw);
    var kept := Truncate(lines);
    var rows := seq(|kept|, i requires 0 <= i < |kept| => ParseRow(kept[i]));
    ReverseIndexAll(rows);
  }

  /** The number of rows is the payload's line-feed count (at least one),
      capped at `MaxRows`: lines past the cap are dropped silently. */
  lemma ParseRowCount(raw: seq<char>)
    ensures |Parse(raw)| == MinInt(MaxInt(multiset(Payload(raw))['\n'], 1), MaxRows)
    ensures multiset(Payload(raw))['\n'] > MaxRows ==> |Parse(raw)| == MaxRows
  {
    LineCount(raw);
  }

  /** The cells of a line without `#` or line feed hold neither. */
  lemma RowCellsClean(line: seq<char>)
    requires '#' !in line && '\n' !in line
    ensures forall j :: 0 <= j < |ParseRow(line)| ==>
      '#' !in ParseRow(line)[j] && '\n' !in ParseRow(line)[j] && NoDoubleSpace(ParseRow(line)[j])
  {
    ParseRowCells(line);
  }

  /** No cell of the grid contains a `#`, a comma, a line feed or two
      consecutive whitespace characters. */
  lemma ParseCells(raw: seq<char>)
    ensures forall i, j :: 0 <= i < |Parse(raw)| && 0 <= j < |Parse(raw)[i]| ==>
      var cell := Parse(raw)[i][j];
      && '#' !in cell && ',' !in cell && '\n' !in cell && NoDoubleSpace(cell)
  {
    var grid := Parse(raw);
    var lines := Lines(raw);
    ParseReversesLines(raw);
    forall i | 0 <= i < |grid|
      ensures forall j :: 0 <= j < |grid[i]| ==>
        '#' !in grid[i][j] && ',' !in grid[i][j] && '\n' !in grid[i][j] && NoDoubleSpace(grid[i][j])
    {
      RowCellsClean(lines[|grid| - 1 - i]);
    }
  }

  /** A line with a single field (no whitespace run and no comma, such as
      the empty line after a trailing line feed) gives an empty row. */
  lemma SingleFieldLineIsEmptyRow(line: seq<char>)
    requires ',' !in line && NoDoubleSpace(line)
    ensures ParseRow(line) == []
  {
    CollapseFixpoint(line);
    RowWidth(line);
  }

  /** Parsing a row written as its label and cells joined by commas gives
      the cells back, provided the text has no double whitespace (so there
      is nothing to collapse). */
  lemma ParseRowJoined(tag: seq<char>, cells: seq<seq<char>>)
    requires ',' !in tag
    requires forall j :: 0 <= j < |cells| ==> ',' !in cells[j]
    requires NoDoubleSpace(Join([tag] + cells, ','))
    ensures ParseRow(Join([tag] + cells, ',')) == cells
  {
    var fields := [tag] + cells;
    var line := Join(fields, ',');
    assert forall i :: 0 <= i < |fields| ==> ',' !in fields[i] by {
      forall i | 0 <= i < |fields|
        ensures ',' !in fields[i]
      {
        if i > 0 {
          assert fields[i] == cells[i - 1];
        }
      }
    }
    CollapseFixpoint(line);
    SplitJoin(fields, ',');
    assert Split(Collapse(line), ',') == fields;
    assert fields[1..] == cells;
  }

  /** A line laid out as the forecast lays it out: a label and non-empty
      cells, none holding whitespace or a comma, separated by runs of two or
      more whitespace characters, parses to exactly its cells. So a line of
      `n` fields gives a row of `n - 1` cells. */
  lemma ParseRowSpaced(tag: seq<char>, cells: seq<seq<char>>, gaps: seq<seq<char>>)
    requires WellSpaced([tag] + cells, gaps)
    requires ',' !in tag
    requires forall j :: 0 <= j < |cells| ==> ',' !in cells[j]
    ensures ParseRow(Spaced([tag] + cells, gaps)) == cells
    ensures |ParseRow(Spaced([tag] + cells, gaps))| == |[tag] + cells| - 1
  {
    var fields := [tag] + cells;
    assert forall i :: 0 <= i < |fields| ==> ',' !in fields[i] by {
      forall i | 0 <= i < |fields|
        ensures ',' !in fields[i]
      {
        if i > 0 {
          assert fields[i] == cells[i - 1];
        }
      }
    }
    CollapseSpaced(fields, gaps);
    SplitJoin(fields, ',');
    assert fields[1..] == cells;
  }

  /** Rejoining a row behind its label gives back the collapsed line. */
  lemma RowRejoin(line: seq<char>)
    ensures Join([Split(Collapse(line), ',')[0]] + ParseRow(line), ',') == Collapse(line)
  {
    var fields := Split(Collapse(line), ',');
    assert [fields[0]] + fields[1..] == fields;
    JoinSplit(Collapse(line), ',');
  }
}
