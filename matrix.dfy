/** The matrix engine: the Smith-Waterman recurrence as a specification,
    and the row-major fill of the score and direction matrices that also
    tracks the running maximum and every cell attaining it. */
module ScoreMatrix {
  import opened Scoring

  /** A direction tag: diagonal, up, left, or reset-to-zero ('d', 'u', 'l', 'n'). */
  datatype Tag = D | U | L | N

  /** A matrix coordinate; row i stands for seq1[i-1], column j for seq2[j-1]. */
  datatype Cell = Cell(row: nat, col: nat)

  /** Position of a tag in the fixed order in which the fill records them. */
  function Rank(t: Tag): nat
  {
    match t
    case D => 0
    case U => 1
    case L => 2
    case N => 3
  }

  /** Tags listed in strictly increasing d, u, l, n order (hence without repeats). */
  predicate Ordered(ts: seq<Tag>)
  {
    forall a, b :: 0 <= a < b < |ts| ==> Rank(ts[a]) < Rank(ts[b])
  }

  function Max4(a: int, b: int, c: int, d: int): (r: int)
    ensures r >= a && r >= b && r >= c && r >= d
    ensures r == a || r == b || r == c || r == d
  {
    var ab := if a >= b then a else b;
    var abc := if ab >= c then ab else c;
    if abc >= d then abc else d
  }

  predicate Interior(s1: seq<char>, s2: seq<char>, c: Cell)
  {
    1 <= c.row <= |s1| && 1 <= c.col <= |s2|
  }

  /** `c` comes strictly before `d` in the row-major sweep. */
  predicate Before(c: Cell, d: Cell)
  {
    c.row < d.row || (c.row == d.row && c.col < d.col)
  }

  predicate RowMajorSorted(ps: seq<Cell>)
  {
    forall a, b :: 0 <= a < b < |ps| ==> Before(ps[a], ps[b])
  }

  /** The value of cell (i, j) of the score matrix: zero on row 0 and column 0,
      elsewhere the best of the diagonal, up, left and reset candidates. */
  function Score(s1: seq<char>, s2: seq<char>, sc: Scheme, i: nat, j: nat): (r: int)
    requires i <= |s1| && j <= |s2|
    ensures r >= 0
    decreases i + j
  {
    if i == 0 || j == 0 then 0
    else
      Max4(Score(s1, s2, sc, i - 1, j - 1) + PairScore(sc, s1[i - 1], s2[j - 1]),
           Score(s1, s2, sc, i - 1, j) + sc.gap,
           Score(s1, s2, sc, i, j - 1) + sc.gap,
           0)
  }

  /** The candidate value a tag stands for at an interior cell. */
  function Candidate(s1: seq<char>, s2: seq<char>, sc: Scheme, i: nat, j: nat, t: Tag): int
    requires 1 <= i <= |s1| && 1 <= j <= |s2|
  {
    match t
    case D => Score(s1, s2, sc, i - 1, j - 1) + PairScore(sc, s1[i - 1], s2[j - 1])
    case U => Score(s1, s2, sc, i - 1, j) + sc.gap
    case L => Score(s1, s2, sc, i, j - 1) + sc.gap
    case N => 0
  }

  /** The tags whose candidate among `diag`, `up`, `left` and the reset value 0
      equals `v`, in d, u, l, n order. */
  function TiedTags(v: int, diag: int, up: int, left: int): (r: seq<Tag>)
    ensures D in r <==> diag == v
    ensures U in r <==> up == v
    ensures L in r <==> left == v
    ensures N in r <==> v == 0
  {
    var n := if v == 0 then [N] else [];
    var l := if left == v then [L] + n else n;
    var u := if up == v then [U] + l else l;
    if diag == v then [D] + u else u
  }

  /** The same list, built the way the fill builds it: appending in d, u, l, n order. */
  lemma TiedTagsByAppending(v: int, diag: int, up: int, left: int)
    ensures TiedTags(v, diag, up, left)
            == (if diag == v then [D] else []) + (if up == v then [U] else [])
               + (if left == v then [L] else []) + (if v == 0 then [N] else [])
  {
  }

  /** Putting a tag of lower rank in front keeps a tag list ordered. */
  lemma OrderedPrepend(t: Tag, ts: seq<Tag>)
    requires Ordered(ts)
    requires forall x :: x in ts ==> Rank(t) < Rank(x)
    ensures Ordered([t] + ts)
  {
    forall a, b | 0 <= a < b < |[t] + ts|
      ensures Rank(([t] + ts)[a]) < Rank(([t] + ts)[b])
    {
      if a > 0 {
        assert ([t] + ts)[a] == ts[a - 1];
      }
      assert ([t] + ts)[b] == ts[b - 1];
    }
  }

  lemma TiedTagsOrdered(v: int, diag: int, up: int, left: int)
    ensures Ordered(TiedTags(v, diag, up, left))
  {
    var n: seq<Tag> := if v == 0 then [N] else [];
    var l := if left == v then [L] + n else n;
    if left == v { OrderedPrepend(L, n); }
    var u := if up == v then [U] + l else l;
    if up == v { OrderedPrepend(U, l); }
    var d := if diag == v then [D] + u else u;
    if diag == v { OrderedPrepend(D, u); }
  }

  /** The direction list of cell (i, j): empty on the boundary, elsewhere every
      tag whose candidate ties the cell value, in d, u, l, n order. */
  function Tags(s1: seq<char>, s2: seq<char>, sc: Scheme, i: nat, j: nat): (r: seq<Tag>)
    requires i <= |s1| && j <= |s2|
    ensures i == 0 || j == 0 ==> r == []
    ensures i > 0 && j > 0 ==>
              && |r| > 0
              && Ordered(r)
              && (D in r <==> Candidate(s1, s2, sc, i, j, D) == Score(s1, s2, sc, i, j))
              && (U in r <==> Candidate(s1, s2, sc, i, j, U) == Score(s1, s2, sc, i, j))
              && (L in r <==> Candidate(s1, s2, sc, i, j, L) == Score(s1, s2, sc, i, j))
              && (N in r <==> Score(s1, s2, sc, i, j) == 0)
  {
    if i == 0 || j == 0 then []
    else
      TiedTagsOrdered(Score(s1, s2, sc, i, j), Candidate(s1, s2, sc, i, j, D),
                      Candidate(s1, s2, sc, i, j, U), Candidate(s1, s2, sc, i, j, L));
      TiedTags(Score(s1, s2, sc, i, j), Candidate(s1, s2, sc, i, j, D),
               Candidate(s1, s2, sc, i, j, U), Candidate(s1, s2, sc, i, j, L))
  }

  /** What the sweep leaves in `current_max` and `current_max_pos`: -1 and no
      position when a sequence is empty; otherwise the largest interior value and,
      in sweep order, every interior cell holding it. */
  ghost predicate MaxTracked(s1: seq<char>, s2: seq<char>, sc: Scheme, best: int, pos: seq<Cell>)
  {
    if |s1| == 0 || |s2| == 0 then best == -1 && pos == []
    else
      && pos != []
      && RowMajorSorted(pos)
      && (forall c :: c in pos <==> Interior(s1, s2, c) && Score(s1, s2, sc, c.row, c.col) == best)
      && (forall a, b :: 1 <= a <= |s1| && 1 <= b <= |s2| ==> Score(s1, s2, sc, a, b) <= best)
  }

  /** Both matrices have (|s1|+1) rows of (|s2|+1) entries. */
  predicate Shaped<T>(s1: seq<char>, s2: seq<char>, m: seq<seq<T>>)
  {
    |m| == |s1| + 1 && forall a :: 0 <= a < |m| ==> |m[a]| == |s2| + 1
  }

  /** The whole score matrix as the recurrence defines it. */
  function ScoreTable(s1: seq<char>, s2: seq<char>, sc: Scheme): (t: seq<seq<int>>)
    ensures Shaped(s1, s2, t)
    ensures forall a, b :: 0 <= a <= |s1| && 0 <= b <= |s2| ==> t[a][b] == Score(s1, s2, sc, a, b)
  {
    seq(|s1| + 1, a requires 0 <= a <= |s1| =>
      seq(|s2| + 1, b requires 0 <= b <= |s2| => Score(s1, s2, sc, a, b)))
  }

  /** The whole direction matrix as the recurrence defines it. */
  function TagTable(s1: seq<char>, s2: seq<char>, sc: Scheme): (t: seq<seq<seq<Tag>>>)
    ensures Shaped(s1, s2, t)
    ensures forall a, b :: 0 <= a <= |s1| && 0 <= b <= |s2| ==> t[a][b] == Tags(s1, s2, sc, a, b)
  {
    seq(|s1| + 1, a requires 0 <= a <= |s1| =>
      seq(|s2| + 1, b requires 0 <= b <= |s2| => Tags(s1, s2, sc, a, b)))
  }

  /** Cell (a, b) of the tables `scores` and `tags` obeys the recurrence: a
      boundary cell holds 0 and no tag; an interior cell holds the largest of its
      three candidates and 0, and the tags of the candidates that tie it. */
  ghost predicate RecurrenceAt(s1: seq<char>, s2: seq<char>, sc: Scheme,
                               scores: seq<seq<int>>, tags: seq<seq<seq<Tag>>>, a: nat, b: nat)
    requires Shaped(s1, s2, scores) && Shaped(s1, s2, tags) && a <= |s1| && b <= |s2|
  {
    if a == 0 || b == 0 then scores[a][b] == 0 && tags[a][b] == []
    else
      var diag := scores[a - 1][b - 1] + PairScore(sc, s1[a - 1], s2[b - 1]);
      var up := scores[a - 1][b] + sc.gap;
      var left := scores[a][b - 1] + sc.gap;
      scores[a][b] == Max4(diag, up, left, 0) && tags[a][b] == TiedTags(scores[a][b], diag, up, left)
  }

  /** Every cell of the tables obeys the recurrence. */
  ghost predicate Recurrence(s1: seq<char>, s2: seq<char>, sc: Scheme,
                             scores: seq<seq<int>>, tags: seq<seq<seq<Tag>>>)
  {
    && Shaped(s1, s2, scores) && Shaped(s1, s2, tags)
    && forall a: nat, b: nat :: a <= |s1| && b <= |s2| ==> RecurrenceAt(s1, s2, sc, scores, tags, a, b)
  }

  /** Cell (a, b) has been reached by a sweep that is about to visit (i, j);
      boundary cells count as done from the start. */
  predicate Done(a: nat, b: nat, i: nat, j: nat)
  {
    a < i || (a == i && b < j) || a == 0 || b == 0
  }

  /** The matrices as the sweep leaves them just before cell (i, j): every done
      cell holds its final entry (from `scores` and `tags`); the tag lists ahead
      are still empty. */
  ghost predicate FilledBefore(s1: seq<char>, s2: seq<char>,
                               matrix: seq<seq<int>>, direction: seq<seq<seq<Tag>>>,
                               scores: seq<seq<int>>, tags: seq<seq<seq<Tag>>>, i: nat, j: nat)
  {
    && Shaped(s1, s2, matrix) && Shaped(s1, s2, direction)
    && Shaped(s1, s2, scores) && Shaped(s1, s2, tags)
    && (forall a, b :: 0 <= a <= |s1| && 0 <= b <= |s2| && Done(a, b, i, j) ==>
          matrix[a][b] == scores[a][b] && direction[a][b] == tags[a][b])
    && (forall a, b :: 0 <= a <= |s1| && 0 <= b <= |s2| && !Done(a, b, i, j) ==>
          direction[a][b] == [])
  }

  /** Before the sweep, the zero matrix and the empty tag lists already hold the
      boundary entries of tables that obey the recurrence. */
  lemma FilledInitially(s1: seq<char>, s2: seq<char>, sc: Scheme,
                        scores: seq<seq<int>>, tags: seq<seq<seq<Tag>>>)
    requires Recurrence(s1, s2, sc, scores, tags)
    ensures FilledBefore(s1, s2, seq(|s1| + 1, _ => seq(|s2| + 1, _ => 0)),
                         seq(|s1| + 1, _ => seq(|s2| + 1, _ => [])), scores, tags, 1, 1)
  {
    forall a: nat, b: nat | a <= |s1| && b <= |s2| && Done(a, b, 1, 1)
      ensures scores[a][b] == 0 && tags[a][b] == []
    {
      assert RecurrenceAt(s1, s2, sc, scores, tags, a, b);
    }
  }

  /** Storing the final value and tags of (i, j) moves the sweep one cell on. */
  lemma FilledStep(s1: seq<char>, s2: seq<char>,
                   matrix: seq<seq<int>>, direction: seq<seq<seq<Tag>>>,
                   scores: seq<seq<int>>, tags: seq<seq<seq<Tag>>>, i: nat, j: nat)
    requires 1 <= i <= |s1| && 1 <= j <= |s2|
    requires FilledBefore(s1, s2, matrix, direction, scores, tags, i, j)
    ensures FilledBefore(s1, s2, matrix[i := matrix[i][j := scores[i][j]]],
                         direction[i := direction[i][j := tags[i][j]]], scores, tags, i, j + 1)
  {
  }

  /** Passing the end of a row is reaching the start of the next. */
  lemma FilledNextRow(s1: seq<char>, s2: seq<char>,
                      matrix: seq<seq<int>>, direction: seq<seq<seq<Tag>>>,
                      scores: seq<seq<int>>, tags: seq<seq<seq<Tag>>>, i: nat)
    requires FilledBefore(s1, s2, matrix, direction, scores, tags, i, |s2| + 1)
    ensures FilledBefore(s1, s2, matrix, direction, scores, tags, i + 1, 1)
  {
  }

  /** What the body for (i, j) reads has already been filled in, and its own
      tag list is still empty. */
  lemma FilledNeighbours(s1: seq<char>, s2: seq<char>,
                         matrix: seq<seq<int>>, direction: seq<seq<seq<Tag>>>,
                         scores: seq<seq<int>>, tags: seq<seq<seq<Tag>>>, i: nat, j: nat)
    requires 1 <= i <= |s1| && 1 <= j <= |s2|
    requires FilledBefore(s1, s2, matrix, direction, scores, tags, i, j)
    ensures matrix[i - 1][j - 1] == scores[i - 1][j - 1]
    ensures matrix[i - 1][j] == scores[i - 1][j]
    ensures matrix[i][j - 1] == scores[i][j - 1]
    ensures direction[i][j] == []
  {
    assert Done(i - 1, j - 1, i, j) && Done(i - 1, j, i, j) && Done(i, j - 1, i, j);
    assert !Done(i, j, i, j);
  }

  /** After the last row, the matrices are the tables. */
  lemma FilledAll(s1: seq<char>, s2: seq<char>,
                  matrix: seq<seq<int>>, direction: seq<seq<seq<Tag>>>,
                  scores: seq<seq<int>>, tags: seq<seq<seq<Tag>>>)
    requires FilledBefore(s1, s2, matrix, direction, scores, tags, |s1| + 1, 1)
    ensures matrix == scores && direction == tags
  {
    forall a | 0 <= a <= |s1|
      ensures matrix[a] == scores[a] && direction[a] == tags[a]
    {
    }
  }

  /** The running maximum after the sweep has passed every interior cell before
      `next`: `best` is their largest entry in `scores` (-1 while there is none)
      and `pos` lists, in sweep order, exactly those of them that attain it. */
  ghost predicate TrackedBefore(s1: seq<char>, s2: seq<char>, scores: seq<seq<int>>,
                                best: int, pos: seq<Cell>, next: Cell)
    requires Shaped(s1, s2, scores)
  {
    && (pos == [] <==> best == -1)
    && RowMajorSorted(pos)
    && (forall c :: c in pos <==> Interior(s1, s2, c) && Before(c, next) && scores[c.row][c.col] == best)
    && (forall c :: Interior(s1, s2, c) && Before(c, next) ==> scores[c.row][c.col] <= best)
  }

  /** One update of `current_max` / `current_max_pos` with the value `v` of cell (i, j). */
  method TrackMax(ghost s1: seq<char>, ghost s2: seq<char>, ghost scores: seq<seq<int>>,
                  currentMax: int, currentMaxPos: seq<Cell>, i: nat, j: nat, v: int)
    returns (newMax: int, newPos: seq<Cell>)
    requires Shaped(s1, s2, scores)
    requires 1 <= i <= |s1| && 1 <= j <= |s2| && v == scores[i][j] && v >= 0
    requires TrackedBefore(s1, s2, scores, currentMax, currentMaxPos, Cell(i, j))
    ensures TrackedBefore(s1, s2, scores, newMax, newPos, Cell(i, j + 1))
  {
    newMax, newPos := currentMax, currentMaxPos;
    if v > newMax {
      newMax := v;
      newPos := [Cell(i, j)];
    } else if v == newMax {
      newPos := newPos + [Cell(i, j)];
    }
  }

  /** Passing the end of a row is the same as reaching the start of the next. */
  lemma NextRow(s1: seq<char>, s2: seq<char>, scores: seq<seq<int>>, best: int, pos: seq<Cell>, i: nat)
    requires Shaped(s1, s2, scores)
    requires TrackedBefore(s1, s2, scores, best, pos, Cell(i, |s2| + 1))
    ensures TrackedBefore(s1, s2, scores, best, pos, Cell(i + 1, 1))
  {
    forall c | Interior(s1, s2, c)
      ensures Before(c, Cell(i, |s2| + 1)) <==> Before(c, Cell(i + 1, 1))
    {
    }
  }

  /** Once the sweep has passed every row, the tracked maximum is the one of the whole matrix. */
  lemma FillDone(s1: seq<char>, s2: seq<char>, sc: Scheme, best: int, pos: seq<Cell>)
    requires TrackedBefore(s1, s2, ScoreTable(s1, s2, sc), best, pos, Cell(|s1| + 1, 1))
    requires |s1| == 0 || |s2| == 0 ==> best == -1 && pos == []
    ensures MaxTracked(s1, s2, sc, best, pos)
  {
    var scores := ScoreTable(s1, s2, sc);
    if |s1| > 0 && |s2| > 0 {
      assert Interior(s1, s2, Cell(1, 1));
      forall a, b | 1 <= a <= |s1| && 1 <= b <= |s2|
        ensures Score(s1, s2, sc, a, b) <= best
      {
        assert Interior(s1, s2, Cell(a, b));
      }
    }
  }

  /** The recurrence at an interior cell, given the candidate values computed
      from the entries diagonally before, above and to the left of it. */
  lemma CellRecurrence(s1: seq<char>, s2: seq<char>, sc: Scheme, i: nat, j: nat, diag: int, up: int, left: int)
    requires 1 <= i <= |s1| && 1 <= j <= |s2|
    requires diag == Score(s1, s2, sc, i - 1, j - 1) + PairScore(sc, s1[i - 1], s2[j - 1])
    requires up == Score(s1, s2, sc, i - 1, j) + sc.gap
    requires left == Score(s1, s2, sc, i, j - 1) + sc.gap
    ensures Score(s1, s2, sc, i, j) == Max4(diag, up, left, 0)
    ensures Tags(s1, s2, sc, i, j) == TiedTags(Max4(diag, up, left, 0), diag, up, left)
  {
  }

  /** Tables that hold `Score` and `Tags` at an interior cell and at the three
      cells it reads obey the recurrence there. */
  lemma InteriorCellObeysRecurrence(s1: seq<char>, s2: seq<char>, sc: Scheme,
                                    scores: seq<seq<int>>, tags: seq<seq<seq<Tag>>>, a: nat, b: nat)
    requires Shaped(s1, s2, scores) && Shaped(s1, s2, tags)
    requires 1 <= a <= |s1| && 1 <= b <= |s2|
    requires scores[a - 1][b - 1] == Score(s1, s2, sc, a - 1, b - 1)
    requires scores[a - 1][b] == Score(s1, s2, sc, a - 1, b)
    requires scores[a][b - 1] == Score(s1, s2, sc, a, b - 1)
    requires scores[a][b] == Score(s1, s2, sc, a, b) && tags[a][b] == Tags(s1, s2, sc, a, b)
    ensures RecurrenceAt(s1, s2, sc, scores, tags, a, b)
  {
    var diag := scores[a - 1][b - 1] + PairScore(sc, s1[a - 1], s2[b - 1]);
    var up := scores[a - 1][b] + sc.gap;
    var left := scores[a][b - 1] + sc.gap;
    CellRecurrence(s1, s2, sc, a, b, diag, up, left);
  }

  /** Cell (a, b) of the tables of `Score` and `Tags` obeys the recurrence. */
  lemma TableCellObeysRecurrence(s1: seq<char>, s2: seq<char>, sc: Scheme, a: nat, b: nat)
    requires a <= |s1| && b <= |s2|
    ensures RecurrenceAt(s1, s2, sc, ScoreTable(s1, s2, sc), TagTable(s1, s2, sc), a, b)
  {
    var scores, tags := ScoreTable(s1, s2, sc), TagTable(s1, s2, sc);
    assert scores[a][b] == Score(s1, s2, sc, a, b) && tags[a][b] == Tags(s1, s2, sc, a, b);
    if a > 0 && b > 0 {
      assert scores[a - 1][b - 1] == Score(s1, s2, sc, a - 1, b - 1);
      assert scores[a - 1][b] == Score(s1, s2, sc, a - 1, b);
      assert scores[a][b - 1] == Score(s1, s2, sc, a, b - 1);
      InteriorCellObeysRecurrence(s1, s2, sc, scores, tags, a, b);
    }
  }

  /** The tables of `Score` and `Tags` obey the recurrence cell by cell. */
  lemma TablesObeyRecurrence(s1: seq<char>, s2: seq<char>, sc: Scheme)
    ensures Recurrence(s1, s2, sc, ScoreTable(s1, s2, sc), TagTable(s1, s2, sc))
  {
    forall a: nat, b: nat | a <= |s1| && b <= |s2|
      ensures RecurrenceAt(s1, s2, sc, ScoreTable(s1, s2, sc), TagTable(s1, s2, sc), a, b)
    {
      TableCellObeysRecurrence(s1, s2, sc, a, b);
    }
  }

  /** The four conditional appends to the (still empty) list of a cell. */
  method AppendTies(v: int, diag: int, up: int, left: int) returns (cell: seq<Tag>)
    ensures cell == TiedTags(v, diag, up, left)
  {
    var reset := 0;
    cell := [];
    if v == diag {
      cell := cell + [D];
    }
    assert cell == if v == diag then [D] else [];
    if v == up {
      cell := cell + [U];
    }
    if v == left {
      cell := cell + [L];
    }
    if v == reset {
      cell := cell + [N];
    }
    TiedTagsByAppending(v, diag, up, left);
  }

  /** One pass of the inner loop body: the entry of (i, j) and its tags, given
      that the neighbours it reads already hold their table entries. */
  method FillCell(s1: seq<char>, s2: seq<char>, sc: Scheme,
                  matrix: seq<seq<int>>, direction: seq<seq<seq<Tag>>>,
                  ghost scores: seq<seq<int>>, ghost tags: seq<seq<seq<Tag>>>, i: nat, j: nat)
    returns (matrix': seq<seq<int>>, direction': seq<seq<seq<Tag>>>)
    requires 1 <= i <= |s1| && 1 <= j <= |s2|
    requires Shaped(s1, s2, matrix) && Shaped(s1, s2, direction)
    requires Shaped(s1, s2, scores) && Shaped(s1, s2, tags) && RecurrenceAt(s1, s2, sc, scores, tags, i, j)
    requires matrix[i - 1][j - 1] == scores[i - 1][j - 1]
    requires matrix[i - 1][j] == scores[i - 1][j]
    requires matrix[i][j - 1] == scores[i][j - 1]
    requires direction[i][j] == []
    ensures matrix' == matrix[i := matrix[i][j := scores[i][j]]]
    ensures direction' == direction[i := direction[i][j := tags[i][j]]]
  {
    var diag := matrix[i - 1][j - 1] + CMatch(s1[i - 1], s2[j - 1], sc.matchValue, sc.mismatchValue);
    var up := matrix[i - 1][j] + sc.gap;
    var left := matrix[i][j - 1] + sc.gap;
    var reset := 0;
    matrix' := matrix[i := matrix[i][j := Max4(diag, up, left, reset)]];
    // direction[i][j] starts empty and gets one tag per tying candidate
    var cell := AppendTies(matrix'[i][j], diag, up, left);
    assert direction[i][j] + cell == cell;
    direction' := direction[i := direction[i][j := direction[i][j] + cell]];
  }

  /** The row-major sweep over any tables that obey the recurrence: it stores
      them in full and tracks their interior maximum. */
  method Sweep(s1: seq<char>, s2: seq<char>, sc: Scheme, ghost scores: seq<seq<int>>, ghost tags: seq<seq<seq<Tag>>>)
    returns (matrix: seq<seq<int>>, direction: seq<seq<seq<Tag>>>, currentMax: int, currentMaxPos: seq<Cell>)
    requires Recurrence(s1, s2, sc, scores, tags)
    ensures matrix == scores && direction == tags
    ensures TrackedBefore(s1, s2, scores, currentMax, currentMaxPos, Cell(|s1| + 1, 1))
    ensures |s1| == 0 || |s2| == 0 ==> currentMax == -1 && currentMaxPos == []
  {
    matrix := seq(|s1| + 1, _ => seq(|s2| + 1, _ => 0));
    direction := seq(|s1| + 1, _ => seq(|s2| + 1, _ => []));
    currentMax := -1;
    currentMaxPos := [];
    FilledInitially(s1, s2, sc, scores, tags);
    for i := 1 to |s1| + 1
      invariant FilledBefore(s1, s2, matrix, direction, scores, tags, i, 1)
      invariant TrackedBefore(s1, s2, scores, currentMax, currentMaxPos, Cell(i, 1))
      invariant |s1| == 0 || |s2| == 0 ==> currentMax == -1 && currentMaxPos == []
    {
      for j := 1 to |s2| + 1
        invariant FilledBefore(s1, s2, matrix, direction, scores, tags, i, j)
        invariant TrackedBefore(s1, s2, scores, currentMax, currentMaxPos, Cell(i, j))
        invariant |s1| == 0 || |s2| == 0 ==> currentMax == -1 && currentMaxPos == []
      {
        FilledStep(s1, s2, matrix, direction, scores, tags, i, j);
        FilledNeighbours(s1, s2, matrix, direction, scores, tags, i, j);
        assert RecurrenceAt(s1, s2, sc, scores, tags, i, j);
        matrix, direction := FillCell(s1, s2, sc, matrix, direction, scores, tags, i, j);
        currentMax, currentMaxPos := TrackMax(s1, s2, scores, currentMax, currentMaxPos, i, j, matrix[i][j]);
      }
      FilledNextRow(s1, s2, matrix, direction, scores, tags, i);
      NextRow(s1, s2, scores, currentMax, currentMaxPos, i);
    }
    FilledAll(s1, s2, matrix, direction, scores, tags);
  }

  /** The fill: an (|s1|+1) x (|s2|+1) score matrix and direction matrix swept
      row-major, with the running maximum and all cells attaining it. */
  method Fill(s1: seq<char>, s2: seq<char>, sc: Scheme)
    returns (matrix: seq<seq<int>>, direction: seq<seq<seq<Tag>>>, currentMax: int, currentMaxPos: seq<Cell>)
    ensures matrix == ScoreTable(s1, s2, sc)
    ensures direction == TagTable(s1, s2, sc)
    ensures MaxTracked(s1, s2, sc, currentMax, currentMaxPos)
  {
    TablesObeyRecurrence(s1, s2, sc);
    matrix, direction, currentMax, currentMaxPos := Sweep(s1, s2, sc, ScoreTable(s1, s2, sc), TagTable(s1, s2, sc));
    FillDone(s1, s2, sc, currentMax, currentMaxPos);
  }
}
