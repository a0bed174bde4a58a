/** Worked inputs that pin down behaviour the general lemmas leave implicit:
    a traceback through a cell of value 0, and where the gap character goes. */
module Scenarios {
  import opened Scoring
  import opened ScoreMatrix
  import opened TracebackPath
  import SmithWaterman

  /** The score matrix of "ACT" against "AGT" under match 3, mismatch -3, gap -2. */
  lemma ActAgtScores()
    ensures var s1, s2, sc := "ACT", "AGT", Scheme(3, -3, -2);
            && Score(s1, s2, sc, 1, 1) == 3 && Score(s1, s2, sc, 1, 2) == 1 && Score(s1, s2, sc, 1, 3) == 0
            && Score(s1, s2, sc, 2, 1) == 1 && Score(s1, s2, sc, 2, 2) == 0 && Score(s1, s2, sc, 2, 3) == 0
            && Score(s1, s2, sc, 3, 1) == 0 && Score(s1, s2, sc, 3, 2) == 0 && Score(s1, s2, sc, 3, 3) == 3
  {
    var s1, s2, sc := "ACT", "AGT", Scheme(3, -3, -2);
    assert Score(s1, s2, sc, 1, 1) == 3;
    assert Score(s1, s2, sc, 1, 2) == 1;
    assert Score(s1, s2, sc, 2, 1) == 1;
    assert Score(s1, s2, sc, 1, 3) == 0;
    assert Score(s1, s2, sc, 2, 2) == 0;
    assert Score(s1, s2, sc, 3, 1) == 0;
    assert Score(s1, s2, sc, 2, 3) == 0;
    assert Score(s1, s2, sc, 3, 2) == 0;
  }

  /** In "ACT" against "AGT" the interior cells holding 3 are exactly (1, 1)
      and (3, 3), and no cell holds more. */
  lemma ActAgtMaxCells(c: Cell)
    requires Interior("ACT", "AGT", c)
    ensures var v := Score("ACT", "AGT", Scheme(3, -3, -2), c.row, c.col);
            v <= 3 && (v == 3 <==> c == Cell(1, 1) || c == Cell(3, 3))
  {
    ActAgtScores();
    assert c.row == 1 || c.row == 2 || c.row == 3;
    assert c.col == 1 || c.col == 2 || c.col == 3;
  }

  /** The interior cells of "ACT" against "AGT" holding 3 are (1, 1) and (3, 3). */
  lemma ActAgtMaxPositions()
    ensures forall c :: c in [Cell(1, 1), Cell(3, 3)]
                        <==> Interior("ACT", "AGT", c) && Score("ACT", "AGT", Scheme(3, -3, -2), c.row, c.col) == 3
  {
    forall c | Interior("ACT", "AGT", c)
      ensures c in [Cell(1, 1), Cell(3, 3)] <==> Score("ACT", "AGT", Scheme(3, -3, -2), c.row, c.col) == 3
    {
      ActAgtMaxCells(c);
    }
  }

  /** No entry of "ACT" against "AGT" exceeds 3. */
  lemma ActAgtMaxBound()
    ensures forall a, b :: 1 <= a <= 3 && 1 <= b <= 3 ==> Score("ACT", "AGT", Scheme(3, -3, -2), a, b) <= 3
  {
    forall a, b | 1 <= a <= 3 && 1 <= b <= 3
      ensures Score("ACT", "AGT", Scheme(3, -3, -2), a, b) <= 3
    {
      ActAgtMaxCells(Cell(a, b));
    }
  }

  /** The sweep over "ACT" against "AGT" tracks the maximum 3 at (1, 1) and at
      (3, 3), in that order. */
  lemma ActAgtMaxTracked()
    ensures MaxTracked("ACT", "AGT", Scheme(3, -3, -2), 3, [Cell(1, 1), Cell(3, 3)])
  {
    ActAgtMaxPositions();
    ActAgtMaxBound();
  }

  /** Whatever the sweep leaves for "ACT" against "AGT", the best score is 3
      and the traceback starts from (3, 3), the later of the two tied cells. */
  lemma ActAgtStartsAtLastTie(best: int, pos: seq<Cell>)
    requires MaxTracked("ACT", "AGT", Scheme(3, -3, -2), best, pos)
    ensures best == 3 && pos != [] && pos[|pos| - 1] == Cell(3, 3)
  {
    var s1, s2, sc := "ACT", "AGT", Scheme(3, -3, -2);
    var start, last := pos[|pos| - 1], Cell(3, 3);
    assert Score(s1, s2, sc, start.row, start.col) == best && Interior(s1, s2, start)
           && (Score(s1, s2, sc, last.row, last.col) == best ==> !Before(start, last)) by {
      SmithWaterman.LastMaxIsLatest(s1, s2, sc, best, pos);
    }
    assert Score(s1, s2, sc, last.row, last.col) <= best;
    ActAgtMaxCells(start);
    ActAgtMaxCells(last);
    // (1, 1) is the only other cell holding 3, and (3, 3) comes after it
    assert start == Cell(1, 1) ==> Before(start, last);
  }

  /** The direction lists on the traceback of "ACT" against "AGT". */
  lemma ActAgtTags()
    ensures var s1, s2, sc := "ACT", "AGT", Scheme(3, -3, -2);
            && Tags(s1, s2, sc, 1, 1) == [D]
            && Tags(s1, s2, sc, 2, 2) == [D, N]
            && Tags(s1, s2, sc, 3, 3) == [D]
  {
    ActAgtScores();
  }

  /** The loop's lists for "ACT" against "AGT", started from (3, 3). */
  lemma ActAgtPath()
    ensures var s1, s2, sc := "ACT", "AGT", Scheme(3, -3, -2);
            && Traceable(s1, s2, TagTable(s1, s2, sc))
            && Path(s1, s2, TagTable(s1, s2, sc), 3, 3)
               == Alignment("TCA", "|X|", "TGA", [Cell(3, 3), Cell(2, 2), Cell(1, 1), Cell(0, 0)])
  {
    var s1, s2, sc := "ACT", "AGT", Scheme(3, -3, -2);
    var dirs := TagTable(s1, s2, sc);
    FilledIsTraceable(s1, s2, sc);
    ActAgtTags();
    assert dirs[1][1] == [D] && dirs[2][2] == [D, N] && dirs[3][3] == [D];
    assert Path(s1, s2, dirs, 1, 1) == Alignment("A", "|", "A", [Cell(1, 1), Cell(0, 0)]);
    assert Path(s1, s2, dirs, 2, 2) == Alignment("CA", "X|", "GA", [Cell(2, 2), Cell(1, 1), Cell(0, 0)]);
  }

  /** "ACT" against "AGT" with match 3, mismatch -3, gap -2: the traceback from
      (3, 3) passes through (2, 2), whose value is 0 but whose first tag is 'd',
      so the mismatch in the middle stays in the printed alignment. */
  lemma TracebackThroughZero()
    ensures var s1, s2, sc := "ACT", "AGT", Scheme(3, -3, -2);
            && Traceable(s1, s2, TagTable(s1, s2, sc))
            && Score(s1, s2, sc, 2, 2) == 0
            && Reversed(Path(s1, s2, TagTable(s1, s2, sc), 3, 3))
               == Alignment("ACT", "|X|", "AGT", [Cell(3, 3), Cell(2, 2), Cell(1, 1), Cell(0, 0)])
  {
    ActAgtScores();
    ActAgtPath();
    ReverseThree('T', 'C', 'A');
    ReverseThree('|', 'X', '|');
    ReverseThree('T', 'G', 'A');
  }

  lemma ReverseThree(a: char, b: char, c: char)
    ensures Reverse([a, b, c]) == [c, b, a]
  {
    assert [a, b, c][..2] == [a, b];
    assert [a, b][..1] == [a];
  }

  /** The score matrix entries of "ACA" against "AA" under match 5, mismatch -5,
      gap -1 that the traceback from (3, 2) reads. */
  lemma AcaAaScores()
    ensures var s1, s2, sc := "ACA", "AA", Scheme(5, -5, -1);
            && Score(s1, s2, sc, 1, 1) == 5 && Score(s1, s2, sc, 1, 2) == 5
            && Score(s1, s2, sc, 2, 1) == 4 && Score(s1, s2, sc, 2, 2) == 4
            && Score(s1, s2, sc, 3, 1) == 5 && Score(s1, s2, sc, 3, 2) == 9
  {
    var s1, s2, sc := "ACA", "AA", Scheme(5, -5, -1);
    assert Score(s1, s2, sc, 1, 1) == 5;
    assert Score(s1, s2, sc, 1, 2) == 5;
    assert Score(s1, s2, sc, 2, 1) == 4;
    assert Score(s1, s2, sc, 2, 2) == 4;
    assert Score(s1, s2, sc, 3, 1) == 5;
  }

  /** "ACA" against "AA" with match 5, mismatch -5, gap -1: the best path skips
      the 'C' of the first sequence by an 'u' step, and that 'C' is printed in the
      second row while the first row gets the gap. */
  lemma GapRowsSwapped()
    ensures var s1, s2, sc := "ACA", "AA", Scheme(5, -5, -1);
            && Traceable(s1, s2, TagTable(s1, s2, sc))
            && Reversed(Path(s1, s2, TagTable(s1, s2, sc), 3, 2))
               == Alignment("A-A", "| |", "ACA", [Cell(3, 2), Cell(2, 1), Cell(1, 1), Cell(0, 0)])
  {
    var s1, s2, sc := "ACA", "AA", Scheme(5, -5, -1);
    var dirs := TagTable(s1, s2, sc);
    FilledIsTraceable(s1, s2, sc);
    AcaAaScores();
    assert dirs[1][1] == Tags(s1, s2, sc, 1, 1) == [D];
    assert dirs[2][1] == Tags(s1, s2, sc, 2, 1) == [U];
    assert dirs[3][2] == Tags(s1, s2, sc, 3, 2) == [D];
    assert Path(s1, s2, dirs, 1, 1) == Alignment("A", "|", "A", [Cell(1, 1), Cell(0, 0)]);
    assert Path(s1, s2, dirs, 2, 1) == Alignment("-A", " |", "CA", [Cell(2, 1), Cell(1, 1), Cell(0, 0)]);
    assert Path(s1, s2, dirs, 3, 2) == Alignment("A-A", "| |", "ACA", [Cell(3, 2), Cell(2, 1), Cell(1, 1), Cell(0, 0)]);
    ReverseThree('A', '-', 'A');
    ReverseThree('|', ' ', '|');
    ReverseThree('A', 'C', 'A');
  }
}
