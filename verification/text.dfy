/**
 The string primitives the activity-grid parser is built from, with the
 behaviour of the JavaScript operations it uses: `String.prototype.split`
 with a one-character separator, `replace` of a regular expression without
 the global flag (first match only), and the global replacement of every
 run of two or more `\s` characters by a comma.
 */
module Text {

  /** The characters JavaScript's `\s` class matches: the WhiteSpace and
      LineTerminator productions of ECMAScript (tab, LF, VT, FF, CR, space,
      no-break space, the Unicode space separators, LS, PS and the byte
      order mark). The class holds the ASCII blanks and never a comma, a
      `#`, a digit, a sign or a decimal point, so it cannot split a number
      or a separator. */
  function IsJsSpace(c: char): (space: bool)
    ensures c == ' ' || c == '\t' || c == '\n' || c == '\r' ==> space
    ensures space ==> c != ',' && c != '#' && !('0' <= c <= '9') && c != '-' && c != '+' && c != '.'
  {
    var n := c as int;
    || n == 0x09 || n == 0x0A || n == 0x0B || n == 0x0C || n == 0x0D
    || n == 0x20 || n == 0xA0 || n == 0x1680
    || (0x2000 <= n <= 0x200A)
    || n == 0x2028 || n == 0x2029 || n == 0x202F || n == 0x205F
    || n == 0x3000 || n == 0xFEFF
  }

  /** No two adjacent characters of `s` are both whitespace. */
  predicate NoDoubleSpace(s: seq<char>) {
    forall i :: 0 < i < |s| ==> !(IsJsSpace(s[i - 1]) && IsJsSpace(s[i]))
  }

  // ---------------------------------------------------------------------
  // split / join on a single-character separator
  // ---------------------------------------------------------------------

  /** `s.split(d)`: the pieces between occurrences of `d`. There is one
      more piece than there are separators, so the empty string splits
      into one empty piece. */
  function Split(s: seq<char>, d: char): (r: seq<seq<char>>)
    ensures |r| >= 1
    ensures forall i :: 0 <= i < |r| ==> d !in r[i]
    decreases |s|
  {
    if |s| == 0 then [[]]
    else
      var rest := Split(s[1..], d);
      if s[0] == d then [[]] + rest
      else [[s[0]] + rest[0]] + rest[1..]
  }

  /** There is one piece more than there are separators. */
  lemma {:induction false} SplitCount(s: seq<char>, d: char)
    ensures |Split(s, d)| == multiset(s)[d] + 1
    decreases |s|
  {
    if |s| > 0 {
      assert s == [s[0]] + s[1..];
      SplitCount(s[1..], d);
    }
  }

  /** `ps.join(d)`: the pieces with one `d` between neighbours. */
  function Join(ps: seq<seq<char>>, d: char): seq<char>
    decreases |ps|
  {
    if |ps| == 0 then []
    else if |ps| == 1 then ps[0]
    else ps[0] + [d] + Join(ps[1..], d)
  }

  /** Joining the pieces of a split gives back the original string. */
  lemma {:induction false} JoinSplit(s: seq<char>, d: char)
    ensures Join(Split(s, d), d) == s
    decreases |s|
  {
    if |s| > 0 {
      var rest := Split(s[1..], d);
      var r := Split(s, d);
      JoinSplit(s[1..], d);
      assert s == [s[0]] + s[1..];
      if s[0] == d {
        assert r == [[]] + rest;
        assert r[1..] == rest;
      } else if |rest| == 1 {
        assert r == [[s[0]] + rest[0]];
      } else {
        assert r == [[s[0]] + rest[0]] + rest[1..];
        assert r[1..] == rest[1..];
        assert Join(rest, d) == rest[0] + [d] + Join(rest[1..], d);
      }
    }
  }

  /** A string without the separator is a single piece. */
  lemma {:induction false} SplitNoSeparator(p: seq<char>, d: char)
    requires d !in p
    ensures Split(p, d) == [p]
    decreases |p|
  {
    if |p| > 0 {
      SplitNoSeparator(p[1..], d);
      assert [p[0]] + p[1..] == p;
    }
  }

  /** Splitting `p + [d] + s` where `p` has no separator peels off `p`. */
  lemma {:induction false} SplitAfterPiece(p: seq<char>, s: seq<char>, d: char)
    requires d !in p
    ensures Split(p + [d] + s, d) == [p] + Split(s, d)
    decreases |p|
  {
    var t := p + [d] + s;
    if |p| == 0 {
      assert t[1..] == s;
    } else {
      assert t[1..] == p[1..] + [d] + s;
      SplitAfterPiece(p[1..], s, d);
      assert [p[0]] + p[1..] == p;
    }
  }

  /** Splitting a join of separator-free pieces gives the pieces back, so
      `Split` and `Join` are mutually inverse on such piece lists. */
  lemma {:induction false} SplitJoin(ps: seq<seq<char>>, d: char)
    requires |ps| >= 1
    requires forall i :: 0 <= i < |ps| ==> d !in ps[i]
    ensures Split(Join(ps, d), d) == ps
    decreases |ps|
  {
    if |ps| == 1 {
      SplitNoSeparator(ps[0], d);
    } else {
      SplitJoin(ps[1..], d);
      SplitAfterPiece(ps[0], Join(ps[1..], d), d);
      assert [ps[0]] + ps[1..] == ps;
    }
  }

  /** The first piece is a prefix of the string. */
  lemma {:induction false} SplitFirstIsPrefix(s: seq<char>, d: char)
    ensures Split(s, d)[0] <= s
    decreases |s|
  {
    if |s| > 0 && s[0] != d {
      SplitFirstIsPrefix(s[1..], d);
      assert [s[0]] + s[1..] == s;
    }
  }

  /** The last piece is the suffix of `s` after its last separator (all
      of `s` when there is none). */
  lemma {:induction false} SplitLastIsSuffix(s: seq<char>, d: char)
    ensures var r := Split(s, d); var last := r[|r| - 1];
      && |last| <= |s|
      && s[|s| - |last|..] == last
      && (d in s ==> |last| < |s| && s[|s| - |last| - 1] == d)
      && (d !in s ==> last == s)
    decreases |s|
  {
    if d !in s {
      SplitNoSeparator(s, d);
    } else {
      var t := s[1..];
      assert s == [s[0]] + t;
      var rest := Split(t, d);
      var r := Split(s, d);
      if d in t {
        SplitLastIsSuffix(t, d);
        SplitLastOfTail(s, d);
        var last := rest[|rest| - 1];
        assert t[|t| - |last|..] == s[|s| - |last|..];
      } else {
        assert s[0] == d;
        SplitNoSeparator(t, d);
        assert r == [[]] + [t];
        assert s[|s| - |t|..] == t;
      }
    }
  }

  /** When the tail still holds a separator, the first character does not
      reach the last piece. */
  lemma SplitLastOfTail(s: seq<char>, d: char)
    requires |s| > 0 && d in s[1..]
    ensures var r := Split(s, d); var rest := Split(s[1..], d);
      r[|r| - 1] == rest[|rest| - 1]
  {
    SplitSeveral(s[1..], d);
  }

  /** A string holding the separator splits into at least two pieces. */
  lemma {:induction false} SplitSeveral(s: seq<char>, d: char)
    requires d in s
    ensures |Split(s, d)| >= 2
    decreases |s|
  {
    var t := s[1..];
    assert s == [s[0]] + t;
    if s[0] != d {
      SplitSeveral(t, d);
    }
  }

  /** Every piece of a string without double whitespace is itself free of
      double whitespace. */
  lemma {:induction false} SplitPiecesNoDoubleSpace(s: seq<char>, d: char)
    requires NoDoubleSpace(s)
    ensures forall i :: 0 <= i < |Split(s, d)| ==> NoDoubleSpace(Split(s, d)[i])
    decreases |s|
  {
    if |s| > 0 {
      assert NoDoubleSpace(s[1..]) by {
        forall i | 0 < i < |s[1..]|
          ensures !(IsJsSpace(s[1..][i - 1]) && IsJsSpace(s[1..][i]))
        {
          assert s[1..][i - 1] == s[i] && s[1..][i] == s[i + 1];
        }
      }
      SplitPiecesNoDoubleSpace(s[1..], d);
      var rest := Split(s[1..], d);
      if s[0] != d {
        SplitFirstIsPrefix(s[1..], d);
        var p := [s[0]] + rest[0];
        assert forall i :: 0 <= i < |p| ==> p[i] == s[i];
      }
    }
  }

  /** Every character of a piece is a character of the string. */
  lemma {:induction false} SplitPiecesChars(s: seq<char>, d: char)
    ensures forall i, j :: 0 <= i < |Split(s, d)| && 0 <= j < |Split(s, d)[i]| ==> Split(s, d)[i][j] in s
    decreases |s|
  {
    if |s| > 0 {
      SplitPiecesChars(s[1..], d);
      var rest := Split(s[1..], d);
      assert forall c :: c in s[1..] ==> c in s;
    }
  }

  // ---------------------------------------------------------------------
  // replace(/c/, '') : delete the first occurrence only
  // ---------------------------------------------------------------------

  /** `s.replace(/c/, '')` for a one-character pattern: the first `c` is
      deleted and every later one is kept. */
  function DeleteFirst(s: seq<char>, c: char): (r: seq<char>)
    ensures c in s ==> |r| == |s| - 1
    ensures c !in s ==> r == s
    decreases |s|
  {
    if |s| == 0 then []
    else
      assert s == [s[0]] + s[1..];
      if s[0] == c then s[1..] else [s[0]] + DeleteFirst(s[1..], c)
  }

  /** Exactly one `c` goes, when there is one, and nothing else changes in
      the character counts. */
  lemma {:induction false} DeleteFirstCount(s: seq<char>, c: char)
    ensures multiset(DeleteFirst(s, c)) == multiset(s) - multiset{c}
    decreases |s|
  {
    if |s| > 0 {
      assert s == [s[0]] + s[1..];
      if s[0] != c {
        DeleteFirstCount(s[1..], c);
      }
    }
  }

  /** The character `DeleteFirst` removes is the first occurrence: what
      precedes it is kept as is, and so is everything after it. */
  lemma {:induction false} DeleteFirstAt(s: seq<char>, c: char, i: nat)
    requires i < |s| && s[i] == c
    requires forall j :: 0 <= j < i ==> s[j] != c
    ensures DeleteFirst(s, c) == s[..i] + s[i + 1..]
    decreases i
  {
    if i == 0 {
      assert s[..0] + s[1..] == s[1..];
    } else {
      var t := s[1..];
      assert forall j :: 0 <= j < i - 1 ==> t[j] == s[j + 1];
      DeleteFirstAt(t, c, i - 1);
      assert t[..i - 1] + t[i..] == s[1..i] + s[i + 1..];
      assert s[..i] + s[i + 1..] == [s[0]] + (s[1..i] + s[i + 1..]);
    }
  }

  /** Deleting a character adds no new character. */
  lemma {:induction false} DeleteFirstKeepsAbsent(s: seq<char>, c: char, x: char)
    requires x !in s
    ensures x !in DeleteFirst(s, c)
    decreases |s|
  {
    if |s| > 0 && s[0] != c {
      assert s[1..] <= s[1..] && forall k :: 0 <= k < |s[1..]| ==> s[1..][k] == s[k + 1];
      DeleteFirstKeepsAbsent(s[1..], c, x);
    }
  }

  // ---------------------------------------------------------------------
  // replace(/\s{2,}/g, ',')
  // ---------------------------------------------------------------------

  /** The length of the whitespace run at the start of `s`. */
  function SpaceRun(s: seq<char>): (k: nat)
    ensures k <= |s|
    ensures forall i :: 0 <= i < k ==> IsJsSpace(s[i])
    ensures k < |s| ==> !IsJsSpace(s[k])
    decreases |s|
  {
    if |s| == 0 || !IsJsSpace(s[0]) then 0 else 1 + SpaceRun(s[1..])
  }

  /** `s.replace(/\s{2,}/g, ',')`: every maximal run of two or more
      whitespace characters becomes one comma; a lone whitespace character
      is kept. The result never has two whitespace characters in a row,
      starts with the same character as `s` when that is not whitespace,
      and adds no character other than the comma. */
  function Collapse(s: seq<char>): (r: seq<char>)
    ensures NoDoubleSpace(r)
    ensures |s| > 0 && !IsJsSpace(s[0]) ==> |r| > 0 && r[0] == s[0]
    ensures forall i :: 0 <= i < |r| ==> r[i] == ',' || r[i] in s
    decreases |s|
  {
    if |s| == 0 then []
    else if !IsJsSpace(s[0]) then [s[0]] + Collapse(s[1..])
    else
      var k := SpaceRun(s);
      (if k >= 2 then [','] else [s[0]]) + Collapse(s[k..])
  }

  /** A string without double whitespace is left alone. */
  lemma {:induction false} CollapseFixpoint(s: seq<char>)
    requires NoDoubleSpace(s)
    ensures Collapse(s) == s
    decreases |s|
  {
    if |s| > 0 {
      assert NoDoubleSpace(s[1..]) by {
        forall i | 0 < i < |s[1..]|
          ensures !(IsJsSpace(s[1..][i - 1]) && IsJsSpace(s[1..][i]))
        {
          assert s[1..][i - 1] == s[i] && s[1..][i] == s[i + 1];
        }
      }
      CollapseFixpoint(s[1..]);
      if IsJsSpace(s[0]) {
        assert |s| > 1 ==> !IsJsSpace(s[1]);
        assert SpaceRun(s) == 1;
      }
      assert [s[0]] + s[1..] == s;
    }
  }

  /** The strings `Collapse` leaves unchanged are exactly those without
      double whitespace. */
  lemma CollapseFixedPoints(s: seq<char>)
    ensures Collapse(s) == s <==> NoDoubleSpace(s)
  {
    if NoDoubleSpace(s) {
      CollapseFixpoint(s);
    }
  }

  /** Collapsing twice is collapsing once. */
  lemma CollapseIdempotent(s: seq<char>)
    ensures Collapse(Collapse(s)) == Collapse(s)
  {
    CollapseFixpoint(Collapse(s));
  }

  /** The characters of `s` that are neither whitespace nor a comma, in
      order: the data a row's fields carry. */
  function DataChars(s: seq<char>): seq<char>
    decreases |s|
  {
    if |s| == 0 then []
    else (if IsJsSpace(s[0]) || s[0] == ',' then [] else [s[0]]) + DataChars(s[1..])
  }

  lemma {:induction false} DataCharsOfSpaces(s: seq<char>, k: nat)
    requires k <= |s|
    requires forall i :: 0 <= i < k ==> IsJsSpace(s[i])
    ensures DataChars(s) == DataChars(s[k..])
    decreases k
  {
    if k > 0 {
      DataCharsOfSpaces(s[1..], k - 1);
      assert s[1..][k - 1..] == s[k..];
    }
  }

  /** Collapsing whitespace never drops, adds or reorders a data character. */
  lemma {:induction false} CollapseKeepsData(s: seq<char>)
    ensures DataChars(Collapse(s)) == DataChars(s)
    decreases |s|
  {
    if |s| > 0 {
      if !IsJsSpace(s[0]) {
        CollapseKeepsData(s[1..]);
        var r := Collapse(s);
        assert r[1..] == Collapse(s[1..]);
      } else {
        var k := SpaceRun(s);
        CollapseKeepsData(s[k..]);
        var r := Collapse(s);
        assert r[1..] == Collapse(s[k..]);
        DataCharsOfSpaces(s, k);
      }
    }
  }

  /** The whitespace run at the front of `w + q`, when `w` is all
      whitespace and `q` does not start with whitespace, is exactly `w`. */
  lemma {:induction false} SpaceRunOf(w: seq<char>, q: seq<char>)
    requires forall i :: 0 <= i < |w| ==> IsJsSpace(w[i])
    requires q == [] || !IsJsSpace(q[0])
    ensures SpaceRun(w + q) == |w|
    decreases |w|
  {
    if |w| > 0 {
      assert (w + q)[1..] == w[1..] + q;
      SpaceRunOf(w[1..], q);
    } else {
      assert w + q == q;
    }
  }

  /** A run of two or more whitespace characters becomes one comma. */
  lemma CollapseRun(w: seq<char>, q: seq<char>)
    requires |w| >= 2
    requires forall i :: 0 <= i < |w| ==> IsJsSpace(w[i])
    requires q == [] || !IsJsSpace(q[0])
    ensures Collapse(w + q) == [','] + Collapse(q)
  {
    SpaceRunOf(w, q);
    assert (w + q)[0] == w[0];
    assert (w + q)[|w|..] == q;
  }

  /** A lone whitespace character is kept as it is. */
  lemma CollapseSingleSpace(c: char, q: seq<char>)
    requires IsJsSpace(c)
    requires q == [] || !IsJsSpace(q[0])
    ensures Collapse([c] + q) == [c] + Collapse(q)
  {
    SpaceRunOf([c], q);
    assert ([c] + q)[1..] == q;
  }

  /** A character that is not whitespace is kept as it is. */
  lemma CollapseKeeps(c: char, q: seq<char>)
    requires !IsJsSpace(c)
    ensures Collapse([c] + q) == [c] + Collapse(q)
  {
    assert ([c] + q)[1..] == q;
  }

  /** A prefix without whitespace is kept as it is. */
  lemma {:induction false} CollapseKeepsWord(p: seq<char>, q: seq<char>)
    requires forall i :: 0 <= i < |p| ==> !IsJsSpace(p[i])
    ensures Collapse(p + q) == p + Collapse(q)
    decreases |p|
  {
    if |p| > 0 {
      var t := p[1..];
      assert forall i :: 0 <= i < |t| ==> t[i] == p[i + 1];
      calc {
        Collapse(p + q);
        { assert p + q == [p[0]] + (t + q); }
        Collapse([p[0]] + (t + q));
        { CollapseKeeps(p[0], t + q); }
        [p[0]] + Collapse(t + q);
        { CollapseKeepsWord(t, q); }
        [p[0]] + (t + Collapse(q));
        { assert [p[0]] + t == p; }
        p + Collapse(q);
      }
    } else {
      assert p + q == q;
    }
  }

  /** Whitespace-free words separated by runs of two or more whitespace
      characters: `words[0] + gaps[0] + words[1] + ... + words[n - 1]`. */
  function Spaced(words: seq<seq<char>>, gaps: seq<seq<char>>): seq<char>
    requires |words| >= 1 && |gaps| == |words| - 1
    decreases |words|
  {
    if |words| == 1 then words[0]
    else words[0] + gaps[0] + Spaced(words[1..], gaps[1..])
  }

  /** The words are whitespace-free, all but the first non-empty, and every
      gap is a run of at least two whitespace characters. */
  ghost predicate WellSpaced(words: seq<seq<char>>, gaps: seq<seq<char>>) {
    && |words| >= 1 && |gaps| == |words| - 1
    && (forall j, i :: 0 <= j < |words| && 0 <= i < |words[j]| ==> !IsJsSpace(words[j][i]))
    && (forall j :: 0 < j < |words| ==> |words[j]| > 0)
    && (forall j :: 0 <= j < |gaps| ==> |gaps[j]| >= 2)
    && (forall j, i :: 0 <= j < |gaps| && 0 <= i < |gaps[j]| ==> IsJsSpace(gaps[j][i]))
  }

  /** Collapsing a well-spaced line puts exactly one comma where each gap
      was and keeps the words: the result is the words joined by commas. */
  lemma {:induction false} CollapseSpaced(words: seq<seq<char>>, gaps: seq<seq<char>>)
    requires WellSpaced(words, gaps)
    ensures Collapse(Spaced(words, gaps)) == Join(words, ',')
    decreases |words|
  {
    if |words| == 1 {
      CollapseKeepsWord(words[0], []);
      assert words[0] + [] == words[0];
      assert Collapse([]) == [];
    } else {
      var rest := Spaced(words[1..], gaps[1..]);
      assert WellSpaced(words[1..], gaps[1..]) by {
        assert forall j :: 0 <= j < |words[1..]| ==> words[1..][j] == words[j + 1];
        assert forall j :: 0 <= j < |gaps[1..]| ==> gaps[1..][j] == gaps[j + 1];
      }
      CollapseSpaced(words[1..], gaps[1..]);
      SpacedStartsWithWord(words[1..], gaps[1..]);
      CollapseRun(gaps[0], rest);
      CollapseKeepsWord(words[0], gaps[0] + rest);
      assert words[0] + gaps[0] + rest == words[0] + (gaps[0] + rest);
    }
  }

  /** A well-spaced line starts with its first word. */
  lemma SpacedStartsWithWord(words: seq<seq<char>>, gaps: seq<seq<char>>)
    requires WellSpaced(words, gaps) && |words[0]| > 0
    ensures |Spaced(words, gaps)| > 0 && Spaced(words, gaps)[0] == words[0][0]
  {
  }
}
