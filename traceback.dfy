/** The single-path traceback: from a start cell, follow only the first tag of
    each cell's direction list back to a boundary or a reset cell, building the
    three alignment rows and the list of visited cells. */
module TracebackPath {
  import opened Scoring
  import opened ScoreMatrix

  /** The traceback's four lists: the two aligned rows, the marker row between
      them ('|' match, 'X' mismatch, ' ' gap) and the cells visited, start
      first, ending with the cell where the walk stopped. */
  datatype Alignment = Alignment(alignA: seq<char>, matches: seq<char>, alignB: seq<char>, color: seq<Cell>)

  /** `list.reverse()`: the same elements in the opposite order. */
  function Reverse<T>(s: seq<T>): (r: seq<T>)
    ensures |r| == |s|
    ensures forall k :: 0 <= k < |s| ==> r[k] == s[|s| - 1 - k]
  {
    if s == [] then [] else [s[|s| - 1]] + Reverse(s[..|s| - 1])
  }

  /** A direction matrix the traceback can walk: the shape of the fill's, and a
      non-empty tag list at every interior cell (the fill always records one). */
  predicate Traceable(s1: seq<char>, s2: seq<char>, dirs: seq<seq<seq<Tag>>>)
  {
    Shaped(s1, s2, dirs) && forall a, b :: 1 <= a <= |s1| && 1 <= b <= |s2| ==> |dirs[a][b]| > 0
  }

  lemma FilledIsTraceable(s1: seq<char>, s2: seq<char>, sc: Scheme)
    ensures Traceable(s1, s2, TagTable(s1, s2, sc))
  {
    var dirs := TagTable(s1, s2, sc);
    forall a, b | 1 <= a <= |s1| && 1 <= b <= |s2|
      ensures |dirs[a][b]| > 0
    {
      assert dirs[a][b] == Tags(s1, s2, sc, a, b);
    }
  }

  /** The loop guard fails at this cell of the matrix: a boundary cell, or one
      whose first tag is 'n'. */
  predicate Stops(s1: seq<char>, s2: seq<char>, dirs: seq<seq<seq<Tag>>>, c: Cell)
    requires Traceable(s1, s2, dirs)
  {
    c.row <= |s1| && c.col <= |s2| && (c.row == 0 || c.col == 0 || dirs[c.row][c.col][0] == N)
  }

  /** What one iteration of the loop at a cell emits and where it moves. */
  datatype Column = Column(next: Cell, a: char, m: char, b: char)

  /** The specification of `Move`, stated as a relation between cells and
      columns so that lemmas can speak of a whole chain of iterations.
      One iteration of the loop from cell c to cell d, appending a to alignA,
      m to matches and b to alignB: c is interior, its first tag is not 'n', and the tag decides
      the move and the column. An 'u' step consumes s1 but writes it in the second
      row, an 'l' step consumes s2 but writes it in the first row. */
  predicate Step(s1: seq<char>, s2: seq<char>, dirs: seq<seq<seq<Tag>>>, c: Cell, d: Cell, a: char, m: char, b: char)
    requires Traceable(s1, s2, dirs)
  {
    && Interior(s1, s2, c)
    && match dirs[c.row][c.col][0]
       case N => false
       case D =>
         && d == Cell(c.row - 1, c.col - 1)
         && a == s1[c.row - 1] && b == s2[c.col - 1]
         && m == (if a == b then '|' else 'X')
       case U => d == Cell(c.row - 1, c.col) && a == '-' && m == ' ' && b == s1[c.row - 1]
       case L => d == Cell(c.row, c.col - 1) && a == s2[c.col - 1] && m == ' ' && b == '-'
  }

  /** The body of the loop at an interior cell (x, y) whose first tag is not 'n'. */
  function Move(s1: seq<char>, s2: seq<char>, dirs: seq<seq<seq<Tag>>>, x: nat, y: nat): (col: Column)
    requires Traceable(s1, s2, dirs)
    requires 1 <= x <= |s1| && 1 <= y <= |s2| && dirs[x][y][0] != N
    ensures Step(s1, s2, dirs, Cell(x, y), col.next, col.a, col.m, col.b)
    ensures col.next.row <= x && col.next.col <= y && col.next.row + col.next.col < x + y
  {
    match dirs[x][y][0]
    case D => Column(Cell(x - 1, y - 1), s1[x - 1], if s1[x - 1] == s2[y - 1] then '|' else 'X', s2[y - 1])
    case U => Column(Cell(x - 1, y), '-', ' ', s1[x - 1])
    case L => Column(Cell(x, y - 1), s2[y - 1], ' ', '-')
  }

  /** The four lists as the loop leaves them, before the three rows are
      reversed: one column per iteration, in the order the loop visits cells. */
  function Path(s1: seq<char>, s2: seq<char>, dirs: seq<seq<seq<Tag>>>, x: nat, y: nat): (p: Alignment)
    requires Traceable(s1, s2, dirs)
    requires x <= |s1| && y <= |s2|
    ensures |p.alignA| == |p.matches| == |p.alignB|
    ensures |p.color| == |p.matches| + 1
    ensures p.color[0] == Cell(x, y)
    decreases x + y
  {
    if x == 0 || y == 0 || dirs[x][y][0] == N then Alignment([], [], [], [Cell(x, y)])
    else
      var col := Move(s1, s2, dirs, x, y);
      var t := Path(s1, s2, dirs, col.next.row, col.next.col);
      Alignment([col.a] + t.alignA, [col.m] + t.matches, [col.b] + t.alignB, [Cell(x, y)] + t.color)
  }

  /** The printed alignment: the three rows reversed into reading order, the
      visited cells left as they are. */
  function Reversed(p: Alignment): (r: Alignment)
    ensures r.color == p.color
    ensures |r.alignA| == |p.alignA| && |r.matches| == |p.matches| && |r.alignB| == |p.alignB|
  {
    Alignment(Reverse(p.alignA), Reverse(p.matches), Reverse(p.alignB), p.color)
  }

  /** `p` is a chain of loop iterations: cell k steps to cell k + 1 appending
      column k. */
  ghost predicate Chain(s1: seq<char>, s2: seq<char>, dirs: seq<seq<seq<Tag>>>, p: Alignment)
    requires Traceable(s1, s2, dirs)
  {
    && |p.alignA| == |p.matches| == |p.alignB|
    && |p.color| == |p.matches| + 1
    && forall k :: 0 <= k < |p.matches| ==>
         Step(s1, s2, dirs, p.color[k], p.color[k + 1], p.alignA[k], p.matches[k], p.alignB[k])
  }

  /** An iteration in front of a chain, ending where the chain starts, gives a chain. */
  lemma ChainExtend(s1: seq<char>, s2: seq<char>, dirs: seq<seq<seq<Tag>>>, t: Alignment,
                    c: Cell, a: char, m: char, b: char)
    requires Traceable(s1, s2, dirs)
    requires Chain(s1, s2, dirs, t)
    requires Step(s1, s2, dirs, c, t.color[0], a, m, b)
    ensures Chain(s1, s2, dirs, Alignment([a] + t.alignA, [m] + t.matches, [b] + t.alignB, [c] + t.color))
  {
    var p := Alignment([a] + t.alignA, [m] + t.matches, [b] + t.alignB, [c] + t.color);
    forall k | 0 <= k < |p.matches|
      ensures Step(s1, s2, dirs, p.color[k], p.color[k + 1], p.alignA[k], p.matches[k], p.alignB[k])
    {
      if k > 0 {
        assert p.color[k] == t.color[k - 1] && p.color[k + 1] == t.color[k];
        assert p.alignA[k] == t.alignA[k - 1] && p.matches[k] == t.matches[k - 1] && p.alignB[k] == t.alignB[k - 1];
      }
    }
  }

  /** The traceback follows the first tag of every cell it passes and stops at
      the first cell, no later than its start, where the loop guard fails. */
  lemma {:induction false} PathFollowsFirstTags(s1: seq<char>, s2: seq<char>, dirs: seq<seq<seq<Tag>>>, x: nat, y: nat)
    requires Traceable(s1, s2, dirs)
    requires x <= |s1| && y <= |s2|
    ensures var p := Path(s1, s2, dirs, x, y);
            var e := p.color[|p.color| - 1];
            Chain(s1, s2, dirs, p) && e.row <= x && e.col <= y && Stops(s1, s2, dirs, e)
    decreases x + y
  {
    var p := Path(s1, s2, dirs, x, y);
    if x == 0 || y == 0 || dirs[x][y][0] == N {
    } else {
      var col := Move(s1, s2, dirs, x, y);
      var t := Path(s1, s2, dirs, col.next.row, col.next.col);
      PathFollowsFirstTags(s1, s2, dirs, col.next.row, col.next.col);
      ChainExtend(s1, s2, dirs, t, Cell(x, y), col.a, col.m, col.b);
      assert p.color[|p.color| - 1] == t.color[|t.color| - 1];
    }
  }

  /** Rows `ra`, `rm`, `rb` that hold the rows of the chain `p` back to front:
      column k of them is the iteration from the (n-1-k)-th recorded cell. */
  lemma ReversedChain(s1: seq<char>, s2: seq<char>, dirs: seq<seq<seq<Tag>>>, p: Alignment,
                      ra: seq<char>, rm: seq<char>, rb: seq<char>)
    requires Traceable(s1, s2, dirs)
    requires Chain(s1, s2, dirs, p)
    requires |ra| == |rm| == |rb| == |p.matches|
    requires forall k :: 0 <= k < |ra| ==> ra[k] == p.alignA[|ra| - 1 - k]
    requires forall k :: 0 <= k < |rm| ==> rm[k] == p.matches[|rm| - 1 - k]
    requires forall k :: 0 <= k < |rb| ==> rb[k] == p.alignB[|rb| - 1 - k]
    ensures var n := |p.matches|;
            forall k :: 0 <= k < n ==> Step(s1, s2, dirs, p.color[n - 1 - k], p.color[n - k], ra[k], rm[k], rb[k])
  {
    var n := |p.matches|;
    forall k | 0 <= k < n
      ensures Step(s1, s2, dirs, p.color[n - 1 - k], p.color[n - k], ra[k], rm[k], rb[k])
    {
      var i := n - 1 - k;
      assert ra[k] == p.alignA[i] && rm[k] == p.matches[i] && rb[k] == p.alignB[i];
      assert Step(s1, s2, dirs, p.color[i], p.color[i + 1], p.alignA[i], p.matches[i], p.alignB[i]);
    }
  }

  /** Column k of the printed alignment is the iteration from the (n-1-k)-th
      recorded cell: by its first tag, a 'd' column holds seq1[x-1], '|' or 'X'
      and seq2[y-1]; an 'u' column '-', ' ' and seq1[x-1]; an 'l' column
      seq2[y-1], ' ' and '-'. */
  lemma Markers(s1: seq<char>, s2: seq<char>, dirs: seq<seq<seq<Tag>>>, x: nat, y: nat)
    requires Traceable(s1, s2, dirs)
    requires x <= |s1| && y <= |s2|
    ensures var p := Path(s1, s2, dirs, x, y);
            var r := Reversed(p);
            var n := |p.matches|;
            forall k :: 0 <= k < n ==> Step(s1, s2, dirs, p.color[n - 1 - k], p.color[n - k], r.alignA[k], r.matches[k], r.alignB[k])
  {
    var p := Path(s1, s2, dirs, x, y);
    PathFollowsFirstTags(s1, s2, dirs, x, y);
    ReversedChain(s1, s2, dirs, p, Reverse(p.alignA), Reverse(p.matches), Reverse(p.alignB));
  }

  /** Number of occurrences of `ch` in `s`. */
  function Count(s: seq<char>, ch: char): (r: nat)
    ensures r <= |s|
  {
    if s == [] then 0 else (if s[0] == ch then 1 else 0) + Count(s[1..], ch)
  }

  lemma {:induction false} CountAppend(s: seq<char>, t: seq<char>, ch: char)
    ensures Count(s + t, ch) == Count(s, ch) + Count(t, ch)
  {
    if s == [] {
      assert s + t == t;
    } else {
      assert (s + t)[1..] == s[1..] + t;
      CountAppend(s[1..], t, ch);
    }
  }

  /** Reversing a row does not change how often a character occurs in it. */
  lemma {:induction false} CountReverse(s: seq<char>, ch: char)
    ensures Count(Reverse(s), ch) == Count(s, ch)
  {
    if s != [] {
      var init := s[..|s| - 1];
      CountReverse(init, ch);
      assert s == init + [s[|s| - 1]];
      CountAppend(init, [s[|s| - 1]], ch);
      CountAppend([s[|s| - 1]], Reverse(init), ch);
    }
  }

  /** At an interior cell of tables that obey the recurrence, the tag list is
      non-empty and its first tag names a candidate that equals the cell's value
      ('n': the value is 0). */
  lemma FirstTagScore(s1: seq<char>, s2: seq<char>, sc: Scheme,
                      scores: seq<seq<int>>, tags: seq<seq<seq<Tag>>>, i: nat, j: nat)
    requires Shaped(s1, s2, scores) && Shaped(s1, s2, tags)
    requires 1 <= i <= |s1| && 1 <= j <= |s2|
    requires RecurrenceAt(s1, s2, sc, scores, tags, i, j)
    ensures |tags[i][j]| > 0
    ensures var t := tags[i][j][0];
            && (t == D ==> scores[i][j] == scores[i - 1][j - 1] + PairScore(sc, s1[i - 1], s2[j - 1]))
            && (t == U ==> scores[i][j] == scores[i - 1][j] + sc.gap)
            && (t == L ==> scores[i][j] == scores[i][j - 1] + sc.gap)
            && (t == N ==> scores[i][j] == 0)
  {
    assert tags[i][j] != [] by {
      var v := scores[i][j];
      if v != 0 && v != scores[i - 1][j - 1] + PairScore(sc, s1[i - 1], s2[j - 1]) && v != scores[i - 1][j] + sc.gap {
        assert L in tags[i][j];
      }
    }
    assert tags[i][j][0] in tags[i][j];
  }

  /** The score a column of the alignment contributes. */
  function ColumnScore(sc: Scheme, m: char): int
  {
    if m == '|' then sc.matchValue else if m == 'X' then sc.mismatchValue else sc.gap
  }

  /** On tables that obey the recurrence, an iteration loses exactly the score
      of the column it appends. */
  lemma StepScore(s1: seq<char>, s2: seq<char>, sc: Scheme, scores: seq<seq<int>>, dirs: seq<seq<seq<Tag>>>,
                  c: Cell, d: Cell, a: char, m: char, b: char)
    requires Traceable(s1, s2, dirs) && Shaped(s1, s2, scores)
    requires Step(s1, s2, dirs, c, d, a, m, b)
    requires RecurrenceAt(s1, s2, sc, scores, dirs, c.row, c.col)
    ensures d.row <= |s1| && d.col <= |s2|
    ensures scores[c.row][c.col] == scores[d.row][d.col] + ColumnScore(sc, m)
  {
    FirstTagScore(s1, s2, sc, scores, dirs, c.row, c.col);
    var i, j := c.row, c.col;
    match dirs[i][j][0]
    case D =>
      assert d == Cell(i - 1, j - 1) && m == (if s1[i - 1] == s2[j - 1] then '|' else 'X');
      assert ColumnScore(sc, m) == PairScore(sc, s1[i - 1], s2[j - 1]);
    case U =>
      assert d == Cell(i - 1, j) && m == ' ';
    case L =>
      assert d == Cell(i, j - 1) && m == ' ';
  }

  /** The total score of a marker row. */
  function MarkerScore(sc: Scheme, ms: seq<char>): int
  {
    if ms == [] then 0 else ColumnScore(sc, ms[0]) + MarkerScore(sc, ms[1..])
  }

  /** On tables that obey the recurrence, the alignment accounts for the value
      of its start cell, column by column. */
  lemma {:induction false} PathScore(s1: seq<char>, s2: seq<char>, sc: Scheme,
                                     scores: seq<seq<int>>, dirs: seq<seq<seq<Tag>>>, x: nat, y: nat)
    requires Recurrence(s1, s2, sc, scores, dirs) && Traceable(s1, s2, dirs)
    requires x <= |s1| && y <= |s2|
    ensures scores[x][y] == MarkerScore(sc, Path(s1, s2, dirs, x, y).matches)
    decreases x + y
  {
    var p := Path(s1, s2, dirs, x, y);
    assert RecurrenceAt(s1, s2, sc, scores, dirs, x, y);
    if x == 0 || y == 0 {
    } else if dirs[x][y][0] == N {
      FirstTagScore(s1, s2, sc, scores, dirs, x, y);
    } else {
      var col := Move(s1, s2, dirs, x, y);
      var t := Path(s1, s2, dirs, col.next.row, col.next.col);
      PathScore(s1, s2, sc, scores, dirs, col.next.row, col.next.col);
      StepScore(s1, s2, sc, scores, dirs, Cell(x, y), col.next, col.a, col.m, col.b);
      assert p.matches[1..] == t.matches;
    }
  }

  /** A marker row made of '|', 'X' and ' ' scores a match per '|', a mismatch
      per 'X' and a gap per ' '. */
  lemma {:induction false} MarkerScoreCounts(sc: Scheme, ms: seq<char>)
    requires forall k :: 0 <= k < |ms| ==> ms[k] == '|' || ms[k] == 'X' || ms[k] == ' '
    ensures MarkerScore(sc, ms)
            == Count(ms, '|') * sc.matchValue + Count(ms, 'X') * sc.mismatchValue + Count(ms, ' ') * sc.gap
  {
    if ms != [] {
      MarkerScoreCounts(sc, ms[1..]);
      var rest := ms[1..];
      assert MarkerScore(sc, ms) == ColumnScore(sc, ms[0]) + MarkerScore(sc, rest);
      if ms[0] == '|' {
        assert Count(ms, '|') == Count(rest, '|') + 1 && Count(ms, 'X') == Count(rest, 'X') && Count(ms, ' ') == Count(rest, ' ');
        OneMore(Count(rest, '|'), sc.matchValue);
      } else if ms[0] == 'X' {
        assert Count(ms, '|') == Count(rest, '|') && Count(ms, 'X') == Count(rest, 'X') + 1 && Count(ms, ' ') == Count(rest, ' ');
        OneMore(Count(rest, 'X'), sc.mismatchValue);
      } else {
        assert Count(ms, '|') == Count(rest, '|') && Count(ms, 'X') == Count(rest, 'X') && Count(ms, ' ') == Count(rest, ' ') + 1;
        OneMore(Count(rest, ' '), sc.gap);
      }
    }
  }

  /** Proof hint: one more occurrence adds one more unit, kept apart so that
      the solver meets this product outside the larger context. */
  lemma OneMore(c: int, v: int)
    ensures (c + 1) * v == c * v + v
  {
  }

  /** On tables that obey the recurrence, the traceback ends on a cell holding
      0: a boundary cell, or a reset cell. */
  lemma PathEndsOnZero(s1: seq<char>, s2: seq<char>, sc: Scheme,
                       scores: seq<seq<int>>, dirs: seq<seq<seq<Tag>>>, x: nat, y: nat)
    requires Recurrence(s1, s2, sc, scores, dirs) && Traceable(s1, s2, dirs)
    requires x <= |s1| && y <= |s2|
    ensures var p := Path(s1, s2, dirs, x, y);
            var e := p.color[|p.color| - 1];
            e.row <= x && e.col <= y && scores[e.row][e.col] == 0
  {
    var p := Path(s1, s2, dirs, x, y);
    var e := p.color[|p.color| - 1];
    PathFollowsFirstTags(s1, s2, dirs, x, y);
    assert RecurrenceAt(s1, s2, sc, scores, dirs, e.row, e.col);
    if e.row > 0 && e.col > 0 {
      FirstTagScore(s1, s2, sc, scores, dirs, e.row, e.col);
    }
  }

  /** Proof hint: one unfolding of the path at a cell where the loop runs,
      kept apart so that `PrefixStep` does not unfold `Path` itself. */
  lemma PathUnfold(s1: seq<char>, s2: seq<char>, dirs: seq<seq<seq<Tag>>>, x: nat, y: nat)
    requires Traceable(s1, s2, dirs)
    requires 1 <= x <= |s1| && 1 <= y <= |s2| && dirs[x][y][0] != N
    ensures var col := Move(s1, s2, dirs, x, y);
            var t := Path(s1, s2, dirs, col.next.row, col.next.col);
            Path(s1, s2, dirs, x, y) == Alignment([col.a] + t.alignA, [col.m] + t.matches, [col.b] + t.alignB, [Cell(x, y)] + t.color)
  {
  }

  /** Proof hint: appending then continuing is continuing with one more
      element, kept apart so that `PrefixStep` meets it on plain sequences. */
  lemma Shift<T>(acc: seq<T>, e: T, rest: seq<T>)
    ensures acc + ([e] + rest) == (acc + [e]) + rest
  {
  }

  /** The lists `acc` built so far, each followed by the matching list of `rest`. */
  function Glue(acc: Alignment, rest: Alignment): (r: Alignment)
    ensures |r.matches| == |acc.matches| + |rest.matches| && |r.color| == |acc.color| + |rest.color|
  {
    Alignment(acc.alignA + rest.alignA, acc.matches + rest.matches, acc.alignB + rest.alignB, acc.color + rest.color)
  }

  /** Appending the column that one iteration at (x, y) emits, and moving to
      the cell it names, keeps the lists a prefix of `p`. */
  lemma PrefixStep(s1: seq<char>, s2: seq<char>, dirs: seq<seq<seq<Tag>>>, p: Alignment,
                   alignA: seq<char>, matches: seq<char>, alignB: seq<char>, color: seq<Cell>, x: nat, y: nat)
    requires Traceable(s1, s2, dirs)
    requires 1 <= x <= |s1| && 1 <= y <= |s2| && dirs[x][y][0] != N
    requires p == Glue(Alignment(alignA, matches, alignB, color), Path(s1, s2, dirs, x, y))
    ensures var col := Move(s1, s2, dirs, x, y);
            p == Glue(Alignment(alignA + [col.a], matches + [col.m], alignB + [col.b], color + [Cell(x, y)]),
                      Path(s1, s2, dirs, col.next.row, col.next.col))
  {
    var col := Move(s1, s2, dirs, x, y);
    var t := Path(s1, s2, dirs, col.next.row, col.next.col);
    PathUnfold(s1, s2, dirs, x, y);
    Shift(alignA, col.a, t.alignA);
    Shift(matches, col.m, t.matches);
    Shift(alignB, col.b, t.alignB);
    Shift(color, Cell(x, y), t.color);
  }

  /** One pass of the loop body at an interior cell whose first tag is not 'n':
      it records the cell, appends the column its first tag names and moves on. */
  method TraceStep(s1: seq<char>, s2: seq<char>, direction: seq<seq<seq<Tag>>>,
                   alignA: seq<char>, matches: seq<char>, alignB: seq<char>, color: seq<Cell>, x: nat, y: nat)
    returns (alignA': seq<char>, matches': seq<char>, alignB': seq<char>, color': seq<Cell>, x': nat, y': nat)
    requires Traceable(s1, s2, direction)
    requires 1 <= x <= |s1| && 1 <= y <= |s2| && direction[x][y][0] != N
    ensures var col := Move(s1, s2, direction, x, y);
            && Step(s1, s2, direction, Cell(x, y), Cell(x', y'), col.a, col.m, col.b)
            && Cell(x', y') == col.next
            && alignA' == alignA + [col.a] && matches' == matches + [col.m] && alignB' == alignB + [col.b]
            && color' == color + [Cell(x, y)]
  {
    alignA', matches', alignB', x', y' := alignA, matches, alignB, x, y;
    color' := color + [Cell(x, y)];
    if direction[x][y][0] == D {
      alignA' := alignA' + [s1[x - 1]];
      alignB' := alignB' + [s2[y - 1]];
      if s1[x - 1] == s2[y - 1] {
        matches' := matches' + ['|'];
      } else {
        matches' := matches' + ['X'];
      }
      x', y' := x - 1, y - 1;
    } else if direction[x][y][0] == U {
      alignA' := alignA' + ['-'];
      alignB' := alignB' + [s1[x - 1]];
      matches' := matches' + [' '];
      x' := x - 1;
    } else if direction[x][y][0] == L {
      alignA' := alignA' + [s2[y - 1]];
      alignB' := alignB' + ['-'];
      matches' := matches' + [' '];
      y' := y - 1;
    }
  }

  /** Where the loop guard fails, the lists so far with the stop cell are `p`. */
  lemma PrefixDone(s1: seq<char>, s2: seq<char>, dirs: seq<seq<seq<Tag>>>, p: Alignment,
                   alignA: seq<char>, matches: seq<char>, alignB: seq<char>, color: seq<Cell>, x: nat, y: nat)
    requires Traceable(s1, s2, dirs)
    requires x <= |s1| && y <= |s2| && (x == 0 || y == 0 || dirs[x][y][0] == N)
    requires p == Glue(Alignment(alignA, matches, alignB, color), Path(s1, s2, dirs, x, y))
    ensures p == Alignment(alignA, matches, alignB, color + [Cell(x, y)])
  {
    assert Path(s1, s2, dirs, x, y) == Alignment([], [], [], [Cell(x, y)]);
    assert alignA + [] == alignA && matches + [] == matches && alignB + [] == alignB;
  }

  /** The loop of the traceback over the filled direction matrix, then the
      reversal of the three rows. */
  method Traceback(s1: seq<char>, s2: seq<char>, direction: seq<seq<seq<Tag>>>, start: Cell)
    returns (alignA: seq<char>, matches: seq<char>, alignB: seq<char>, color: seq<Cell>)
    requires Traceable(s1, s2, direction)
    requires start.row <= |s1| && start.col <= |s2|
    ensures Alignment(alignA, matches, alignB, color) == Reversed(Path(s1, s2, direction, start.row, start.col))
  {
    ghost var p := Path(s1, s2, direction, start.row, start.col);
    var x: nat, y: nat := start.row, start.col;
    alignA, matches, alignB, color := [], [], [], [];
    while x > 0 && y > 0 && direction[x][y][0] != N
      invariant x <= |s1| && y <= |s2|
      invariant p == Glue(Alignment(alignA, matches, alignB, color), Path(s1, s2, direction, x, y))
      decreases x + y
    {
      PrefixStep(s1, s2, direction, p, alignA, matches, alignB, color, x, y);
      alignA, matches, alignB, color, x, y := TraceStep(s1, s2, direction, alignA, matches, alignB, color, x, y);
    }
    PrefixDone(s1, s2, direction, p, alignA, matches, alignB, color, x, y);
    color := color + [Cell(x, y)];

    alignA := Reverse(alignA);
    matches := Reverse(matches);
    alignB := Reverse(alignB);
  }
}
