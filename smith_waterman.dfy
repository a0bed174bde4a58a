/** The program's main flow: fill the matrices, then trace back a single
    alignment from the last cell, in sweep order, that attains the best score. */
module SmithWaterman {
  import opened Scoring
  import opened ScoreMatrix
  import opened TracebackPath

  datatype Option<T> = None | Some(value: T)

  /** The cell the traceback starts from: the last entry of `current_max_pos`. */
  lemma LastMaxIsLatest(s1: seq<char>, s2: seq<char>, sc: Scheme, best: int, pos: seq<Cell>)
    requires MaxTracked(s1, s2, sc, best, pos)
    requires pos != []
    ensures var start := pos[|pos| - 1];
            && Interior(s1, s2, start) && Score(s1, s2, sc, start.row, start.col) == best
            && forall c :: Interior(s1, s2, c) && Score(s1, s2, sc, c.row, c.col) == best ==> !Before(start, c)
  {
    var start := pos[|pos| - 1];
    assert start in pos;
    forall c | Interior(s1, s2, c) && Score(s1, s2, sc, c.row, c.col) == best
      ensures !Before(start, c)
    {
      assert c in pos;
      var k :| 0 <= k < |pos| && pos[k] == c;
      if k < |pos| - 1 {
        assert Before(c, start);
      }
    }
  }

  /** Scores s1 against s2 and reports the best local alignment score
      (`current_max`) and, when there is an interior cell, the alignment traced
      back from the last cell attaining it. */
  method Align(s1: seq<char>, s2: seq<char>, sc: Scheme) returns (score: int, result: Option<Alignment>)
    ensures |s1| == 0 || |s2| == 0 ==> score == -1 && result == None
    ensures |s1| > 0 && |s2| > 0 ==>
              && score >= 0
              && (forall a, b :: 1 <= a <= |s1| && 1 <= b <= |s2| ==> Score(s1, s2, sc, a, b) <= score)
              && result.Some? && |result.value.color| > 0
              && var r := result.value;
                 var start := r.color[0];
                 && Interior(s1, s2, start)
                 && Score(s1, s2, sc, start.row, start.col) == score
                 && (forall c :: Interior(s1, s2, c) && Score(s1, s2, sc, c.row, c.col) == score ==> !Before(start, c))
                 && Traceable(s1, s2, TagTable(s1, s2, sc))
                 && r == Reversed(Path(s1, s2, TagTable(s1, s2, sc), start.row, start.col))
                 && score == Count(r.matches, '|') * sc.matchValue + Count(r.matches, 'X') * sc.mismatchValue
                            + Count(r.matches, ' ') * sc.gap
  {
    var matrix, direction, currentMax, currentMaxPos := Fill(s1, s2, sc);
    score := currentMax;
    result := None;
    if |currentMaxPos| > 0 {
      // only current_max_pos[-1:] is traced back
      var pair := currentMaxPos[|currentMaxPos| - 1];
      LastMaxIsLatest(s1, s2, sc, currentMax, currentMaxPos);
      FilledIsTraceable(s1, s2, sc);
      var alignA, matches, alignB, color := Traceback(s1, s2, direction, pair);
      result := Some(Alignment(alignA, matches, alignB, color));
      ScoreOfAlignment(s1, s2, sc, pair);
    }
  }

  /** The printed marker row accounts for the score of the start cell. */
  lemma ScoreOfAlignment(s1: seq<char>, s2: seq<char>, sc: Scheme, start: Cell)
    requires Traceable(s1, s2, TagTable(s1, s2, sc))
    requires start.row <= |s1| && start.col <= |s2|
    ensures var r := Reversed(Path(s1, s2, TagTable(s1, s2, sc), start.row, start.col));
            Score(s1, s2, sc, start.row, start.col)
            == Count(r.matches, '|') * sc.matchValue + Count(r.matches, 'X') * sc.mismatchValue
               + Count(r.matches, ' ') * sc.gap
  {
    var scores, dirs := ScoreTable(s1, s2, sc), TagTable(s1, s2, sc);
    var p := Path(s1, s2, dirs, start.row, start.col);
    TablesObeyRecurrence(s1, s2, sc);
    PathScore(s1, s2, sc, scores, dirs, start.row, start.col);
    assert scores[start.row][start.col] == Score(s1, s2, sc, start.row, start.col);
    PathFollowsFirstTags(s1, s2, dirs, start.row, start.col);
    forall k | 0 <= k < |p.matches|
      ensures p.matches[k] == '|' || p.matches[k] == 'X' || p.matches[k] == ' '
    {
      assert Step(s1, s2, dirs, p.color[k], p.color[k + 1], p.alignA[k], p.matches[k], p.alignB[k]);
    }
    MarkerScoreCounts(sc, p.matches);
    CountReverse(p.matches, '|');
    CountReverse(p.matches, 'X');
    CountReverse(p.matches, ' ');
  }
}
