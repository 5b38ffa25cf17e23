/**
 A worked input for the parser: a header line, the `#` line and two data
 lines, the second ending in a line feed. The trailing line feed leaves an
 empty last line, which becomes an empty FIRST row once the rows are
 reversed.
 */
module ParserExample {
  import opened Text
  import opened GridParser

  lemma Join3(a: seq<char>, b: seq<char>, c: seq<char>, d: char)
    ensures Join([a, b, c], d) == a + [d] + b + [d] + c
  {
    assert [a, b, c][1..] == [b, c];
    assert [b, c][1..] == [c];
    assert Join([c], d) == c;
    assert Join([b, c], d) == b + [d] + c;
  }

  /** The text after a leading `#` with no other `#` is the payload. */
  lemma PayloadAfterHash(x: seq<char>)
    requires '#' !in x
    ensures Payload(['#'] + x) == x
  {
    assert ['#'] + x == [] + ['#'] + x;
    SplitAfterPiece([], x, '#');
    SplitNoSeparator(x, '#');
  }

  /** Only the line feed right after the `#` is deleted. */
  lemma DeleteLeadingLineFeed(x: seq<char>)
    ensures DeleteFirst(['\n'] + x, '\n') == x
  {
    assert (['\n'] + x)[1..] == x;
  }

  /** A `#` line followed by three lines joined by line feeds yields
      exactly those three lines. */
  lemma ThreeLines(ls: seq<seq<char>>)
    requires |ls| == 3
    requires '\n' !in ls[0] && '\n' !in ls[1] && '\n' !in ls[2]
    requires '#' !in ls[0] && '#' !in ls[1] && '#' !in ls[2]
    ensures Lines(['#', '\n'] + Join(ls, '\n')) == ls
  {
    var body := Join(ls, '\n');
    Join3(ls[0], ls[1], ls[2], '\n');
    assert ls == [ls[0], ls[1], ls[2]];
    assert '#' !in body;
    PayloadAfterHash(['\n'] + body);
    assert ['#', '\n'] + body == ['#'] + (['\n'] + body);
    DeleteLeadingLineFeed(body);
    SplitJoin(ls, '\n');
  }

  /** `x␠␠y` collapses to `x,y`. */
  lemma CollapsePair(x: char, y: char)
    requires !IsJsSpace(x) && !IsJsSpace(y)
    ensures Collapse([x, ' ', ' ', y]) == [x, ',', y]
  {
    var s := [x, ' ', ' ', y];
    assert s[1..] == [' ', ' ', y];
    assert [' ', ' ', y][1..] == [' ', y];
    assert [' ', y][1..] == [y];
    assert SpaceRun([y]) == 0;
    assert SpaceRun([' ', y]) == 1;
    assert SpaceRun([' ', ' ', y]) == 2;
    assert [' ', ' ', y][2..] == [y];
    assert [y][1..] == [];
    assert Collapse([y]) == [y];
    assert Collapse(s[1..]) == [',', y];
  }

  /** `t␠␠a␠␠b` collapses to `t,a,b`. */
  lemma CollapseTriple(t: char, a: char, b: char)
    requires !IsJsSpace(t) && !IsJsSpace(a) && !IsJsSpace(b)
    ensures Collapse([t, ' ', ' ', a, ' ', ' ', b]) == [t, ',', a, ',', b]
  {
    var s := [t, ' ', ' ', a, ' ', ' ', b];
    var s1 := [' ', ' ', a, ' ', ' ', b];
    var s3 := [a, ' ', ' ', b];
    CollapsePair(a, b);
    assert s[1..] == s1;
    assert s1[1..] == [' ', a, ' ', ' ', b];
    assert [' ', a, ' ', ' ', b][1..] == s3;
    assert SpaceRun(s3) == 0;
    assert SpaceRun([' ', a, ' ', ' ', b]) == 1;
    assert SpaceRun(s1) == 2;
    assert s1[2..] == s3;
    assert Collapse(s1) == [','] + Collapse(s3);
    assert Collapse(s) == [t] + Collapse(s1);
  }

  /** A labelled line `t␠␠a␠␠b` is the row of cells `a` and `b`. */
  lemma LabelledLine(t: char, a: char, b: char)
    requires !IsJsSpace(t) && !IsJsSpace(a) && !IsJsSpace(b)
    requires t != ',' && a != ',' && b != ','
    ensures ParseRow([t, ' ', ' ', a, ' ', ' ', b]) == [[a], [b]]
  {
    var fields := [[t], [a], [b]];
    CollapseTriple(t, a, b);
    Join3([t], [a], [b], ',');
    assert [t] + [','] + [a] + [','] + [b] == [t, ',', a, ',', b];
    assert ',' !in fields[0] && ',' !in fields[1] && ',' !in fields[2];
    SplitJoin(fields, ',');
    assert Split(Collapse([t, ' ', ' ', a, ' ', ' ', b]), ',') == fields;
    assert fields[1..] == [[a], [b]];
  }

  /** Three lines give three rows, last line first. */
  lemma ThreeRows(raw: seq<char>, ls: seq<seq<char>>, a: seq<seq<char>>, b: seq<seq<char>>, c: seq<seq<char>>)
    requires Lines(raw) == ls && |ls| == 3
    requires ParseRow(ls[2]) == a && ParseRow(ls[1]) == b && ParseRow(ls[0]) == c
    ensures Parse(raw) == [a, b, c]
  {
    ParseReversesLines(raw);
    var g := Parse(raw);
    assert g[0] == a;
    assert g[1] == b;
    assert g[2] == c;
  }

  /** The payload of a header without `#`, a `#` and a tail without `#`
      is that tail. */
  lemma PayloadAfterHeader(header: seq<char>, x: seq<char>)
    requires '#' !in header && '#' !in x
    ensures Payload(header + ['#'] + x) == x
  {
    SplitAfterPiece(header, x, '#');
    SplitNoSeparator(x, '#');
  }

  /** After a header without `#` and a `#` line, two lines ending in line
      feeds give those two lines and an empty third. */
  lemma TwoLinesAfterHeader(header: seq<char>, line1: seq<char>, line2: seq<char>)
    requires '#' !in header
    requires '#' !in line1 && '#' !in line2 && '\n' !in line1 && '\n' !in line2
    ensures Lines(header + ['#', '\n'] + line1 + ['\n'] + line2 + ['\n']) == [line1, line2, []]
  {
    var ls := [line1, line2, []];
    var raw := header + ['#', '\n'] + line1 + ['\n'] + line2 + ['\n'];
    Join3(line1, line2, [], '\n');
    var tail := ['#', '\n'] + Join(ls, '\n');
    assert raw == header + ['#'] + tail[1..];
    PayloadAfterHeader(header, tail[1..]);
    PayloadAfterHash(tail[1..]);
    ThreeLines(ls);
  }

  /** The worked input: any header line without `#`, the `#` line, then two
      labelled lines of two cells each, each ending in a line feed. The grid
      is the empty row from the trailing line feed, then the second line's
      cells, then the first line's. */
  lemma Example(header: seq<char>, t1: char, a: char, b: char, t2: char, c: char, d: char)
    requires '#' !in header
    requires !IsJsSpace(t1) && !IsJsSpace(a) && !IsJsSpace(b)
    requires !IsJsSpace(t2) && !IsJsSpace(c) && !IsJsSpace(d)
    requires t1 !in ",#\n" && a !in ",#\n" && b !in ",#\n"
    requires t2 !in ",#\n" && c !in ",#\n" && d !in ",#\n"
    ensures var line1 := [t1, ' ', ' ', a, ' ', ' ', b];
      var line2 := [t2, ' ', ' ', c, ' ', ' ', d];
      Parse(header + ['#', '\n'] + line1 + ['\n'] + line2 + ['\n']) == [[], [[c], [d]], [[a], [b]]]
  {
    var line1 := [t1, ' ', ' ', a, ' ', ' ', b];
    var line2 := [t2, ' ', ' ', c, ' ', ' ', d];
    var raw := header + ['#', '\n'] + line1 + ['\n'] + line2 + ['\n'];
    TwoLinesAfterHeader(header, line1, line2);
    SingleFieldLineIsEmptyRow([]);
    LabelledLine(t2, c, d);
    LabelledLine(t1, a, b);
    ThreeRows(raw, [line1, line2, []], [], [[c], [d]], [[a], [b]]);
  }
}
