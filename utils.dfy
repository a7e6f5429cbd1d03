/** Grid helpers of the mine-sweeper board (app/helpers/utils.ts): the bounds
    test, the Moore-neighbourhood enumeration and the rejection-sampled mine
    placement. Coordinates are [row, col] pairs of unbounded integers. */
module Utils {

  datatype Option<T> = None | Some(value: T)

  /** A board coordinate [row, col]. */
  type Coord = (int, int)

  /** isInLimits: the coordinate lies on a rows-by-cols board. */
  predicate IsInLimits(c: Coord, rows: int, cols: int) {
    0 <= c.0 < rows && 0 <= c.1 < cols
  }

  /** Moore adjacency: two different coordinates at most one step apart on
      each axis. */
  predicate Touching(a: Coord, b: Coord) {
    a != b && -1 <= a.0 - b.0 <= 1 && -1 <= a.1 - b.1 <= 1
  }

  /** Row-major order on coordinates: by row, then by column. */
  predicate Before(a: Coord, b: Coord) {
    a.0 < b.0 || (a.0 == b.0 && a.1 < b.1)
  }

  predicate Distinct<T(==)>(s: seq<T>) {
    forall p, q :: 0 <= p < q < |s| ==> s[p] != s[q]
  }

  // ---------------------------------------------------------------------
  // getNeighbors
  // ---------------------------------------------------------------------

  /** The offset [i, j] that iteration m (0..8) of the nested loop of
      getNeighbors visits: i runs over -1..1 in the outer loop, j in the
      inner one. */
  function Offset(m: int): (int, int) {
    (m / 3 - 1, m % 3 - 1)
  }

  /** What iteration m pushes: the shifted coordinate, unless the offset is
      [0, 0] (the `continue`) or the shifted coordinate is off the board. */
  function Candidate(c: Coord, rows: int, cols: int, m: int): seq<Coord> {
    var (i, j) := Offset(m);
    var n := (c.0 + i, c.1 + j);
    if (i == 0 && j == 0) || !IsInLimits(n, rows, cols) then [] else [n]
  }

  /** The array after the first m iterations of the nested loop. */
  function Scanned(c: Coord, rows: int, cols: int, m: nat): seq<Coord>
    requires m <= 9
  {
    if m == 0 then [] else Scanned(c, rows, cols, m - 1) + Candidate(c, rows, cols, m - 1)
  }

  /** getNeighbors as a value: the array after all nine iterations. */
  function Neighbors(c: Coord, rows: int, cols: int): seq<Coord> {
    Scanned(c, rows, cols, 9)
  }

  /** The loop iteration in which a neighbour n of c is visited. */
  function Key(c: Coord, n: Coord): int {
    (n.0 - c.0 + 1) * 3 + (n.1 - c.1 + 1)
  }

  /** Iteration m = 3 * (i + 1) + (j + 1) of the nested loop visits offset
      [i, j]. */
  lemma StepAt(c: Coord, rows: int, cols: int, i: int, j: int, m: nat)
    requires -1 <= i <= 1 && -1 <= j <= 1 && m == 3 * (i + 1) + (j + 1)
    ensures Scanned(c, rows, cols, m + 1) == Scanned(c, rows, cols, m) + Candidate(c, rows, cols, m)
    ensures Candidate(c, rows, cols, m) ==
      if (i == 0 && j == 0) || !IsInLimits((c.0 + i, c.1 + j), rows, cols) then []
      else [(c.0 + i, c.1 + j)]
  {
    assert Offset(m) == (i, j);
  }

  /** getNeighbors: two nested loops over the offsets, skipping [0, 0] and
      pushing every shifted coordinate that is in limits. */
  method GetNeighbors(c: Coord, rows: int, cols: int) returns (ns: seq<Coord>)
    ensures ns == Neighbors(c, rows, cols)
  {
    ns := [];
    ghost var m: nat := 0;
    for i := -1 to 2
      invariant m == 3 * (i + 1) && ns == Scanned(c, rows, cols, m)
    {
      for j := -1 to 2
        invariant m == 3 * (i + 1) + (j + 1) && ns == Scanned(c, rows, cols, m)
      {
        StepAt(c, rows, cols, i, j, m);
        m := m + 1;
        if i == 0 && j == 0 {
          continue;
        }
        var n := (c.0 + i, c.1 + j);
        if IsInLimits(n, rows, cols) {
          ns := ns + [n];
        }
      }
    }
  }

  /** The first m iterations push exactly the in-limits Moore neighbours of c
      whose offset comes before iteration m. */
  lemma {:induction false} ScannedMembers(c: Coord, rows: int, cols: int, m: nat)
    requires m <= 9
    ensures forall n :: n in Scanned(c, rows, cols, m) <==>
      IsInLimits(n, rows, cols) && Touching(c, n) && Key(c, n) < m
  {
    if m > 0 {
      ScannedMembers(c, rows, cols, m - 1);
      var (i, j) := Offset(m - 1);
      assert Key(c, (c.0 + i, c.1 + j)) == m - 1;
      forall n | IsInLimits(n, rows, cols) && Touching(c, n) && Key(c, n) == m - 1
        ensures n == (c.0 + i, c.1 + j)
      {
      }
    }
  }

  /** The first m iterations push coordinates in strictly increasing
      iteration order. */
  lemma {:induction false} ScannedKeysIncrease(c: Coord, rows: int, cols: int, m: nat)
    requires m <= 9
    ensures forall p, q :: 0 <= p < q < |Scanned(c, rows, cols, m)| ==>
      Key(c, Scanned(c, rows, cols, m)[p]) < Key(c, Scanned(c, rows, cols, m)[q])
  {
    if m > 0 {
      ScannedKeysIncrease(c, rows, cols, m - 1);
      ScannedMembers(c, rows, cols, m - 1);
      var s := Scanned(c, rows, cols, m - 1);
      assert forall p :: 0 <= p < |s| ==> s[p] in s;
    }
  }

  /** Every in-limits Moore neighbour of c, and nothing else, is returned. */
  lemma NeighborsExactly(c: Coord, rows: int, cols: int, n: Coord)
    ensures n in Neighbors(c, rows, cols) <==> IsInLimits(n, rows, cols) && Touching(c, n)
  {
    ScannedMembers(c, rows, cols, 9);
  }

  /** The result is ordered row-offset-major, column-offset-minor, which is
      row-major order on the coordinates themselves; in particular no
      coordinate is returned twice. */
  lemma NeighborsOrdered(c: Coord, rows: int, cols: int)
    ensures forall p, q :: 0 <= p < q < |Neighbors(c, rows, cols)| ==>
      Before(Neighbors(c, rows, cols)[p], Neighbors(c, rows, cols)[q])
    ensures Distinct(Neighbors(c, rows, cols))
  {
    var ns := Neighbors(c, rows, cols);
    ScannedKeysIncrease(c, rows, cols, 9);
    ScannedMembers(c, rows, cols, 9);
    forall p, q | 0 <= p < q < |ns| ensures Before(ns[p], ns[q]) {
      assert ns[p] in ns && ns[q] in ns;
    }
  }

  /** The first m iterations push at most one coordinate each, none in
      iteration 4 (offset [0, 0]), and exactly one in each other iteration
      when c is away from the border. */
  lemma {:induction false} ScannedLength(c: Coord, rows: int, cols: int, m: nat)
    requires m <= 9
    ensures |Scanned(c, rows, cols, m)| <= if m > 4 then m - 1 else m
    ensures 1 <= c.0 < rows - 1 && 1 <= c.1 < cols - 1 ==>
      |Scanned(c, rows, cols, m)| == if m > 4 then m - 1 else m
  {
    if m > 0 {
      ScannedLength(c, rows, cols, m - 1);
      assert m - 1 == 4 <==> Offset(m - 1) == (0, 0);
    }
  }

  /** At most eight neighbours; exactly eight away from the border. */
  lemma NeighborsCount(c: Coord, rows: int, cols: int)
    ensures |Neighbors(c, rows, cols)| <= 8
    ensures 1 <= c.0 < rows - 1 && 1 <= c.1 < cols - 1 ==> |Neighbors(c, rows, cols)| == 8
  {
    ScannedLength(c, rows, cols, 9);
  }

  /** Neighbourhood is symmetric for on-board coordinates. */
  lemma NeighborsSymmetric(a: Coord, b: Coord, rows: int, cols: int)
    requires IsInLimits(a, rows, cols) && IsInLimits(b, rows, cols)
    ensures b in Neighbors(a, rows, cols) <==> a in Neighbors(b, rows, cols)
  {
    NeighborsExactly(a, rows, cols, b);
    NeighborsExactly(b, rows, cols, a);
  }

  // ---------------------------------------------------------------------
  // getNRandomCoords
  // ---------------------------------------------------------------------

  /** The elements of s in the order of their first occurrence. */
  function Dedup<T(==)>(s: seq<T>): seq<T> {
    if s == [] then []
    else
      var init := s[..|s| - 1];
      if s[|s| - 1] in init then Dedup(init) else Dedup(init) + [s[|s| - 1]]
  }

  /** Dedup keeps every element of s, adds none and repeats none. */
  lemma {:induction false} DedupElements<T>(s: seq<T>)
    ensures forall x :: x in Dedup(s) <==> x in s
    ensures Distinct(Dedup(s))
  {
    if s != [] {
      var init := s[..|s| - 1];
      DedupElements(init);
      assert s == init + [s[|s| - 1]];
    }
  }

  /** Dedup of a prefix is a prefix of Dedup. */
  lemma {:induction false} DedupPrefix<T>(s: seq<T>, k: nat)
    requires k <= |s|
    ensures |Dedup(s[..k])| <= |Dedup(s)|
    ensures Dedup(s[..k]) == Dedup(s)[..|Dedup(s[..k])|]
    decreases |s| - k
  {
    if k < |s| {
      DedupPrefix(s, k + 1);
      assert s[..k + 1][..k] == s[..k];
    } else {
      assert s[..k] == s;
    }
  }

  /** getNRandomCoords as a value: the first n different draws, in the order
      they were drawn, or None when the draws hold fewer than n different
      coordinates. */
  function RandomCoords(n: int, draws: seq<Coord>): Option<seq<Coord>> {
    if n <= 0 then Some([])
    else if n <= |Dedup(draws)| then Some(Dedup(draws)[..n])
    else None
  }

  /** getNRandomCoords: rejection sampling. Each iteration draws a
      coordinate; a draw already in coords is rejected and the counter is
      stepped back (`i--`), so the loop runs until n different coordinates
      have been pushed. Math.random is replaced by the oracle `draws`, whose
      entries are the in-range results of the source's two Math.floor calls;
      when the oracle is used up before n different draws, the model answers
      None where the source would keep on drawing. */
  method GetNRandomCoords(n: int, rows: int, cols: int, draws: seq<Coord>)
    returns (r: Option<seq<Coord>>)
    requires forall d <- draws :: IsInLimits(d, rows, cols)
    ensures r == RandomCoords(n, draws)
  {
    var coords: seq<Coord> := [];
    var k := 0;
    var i := 0;
    while i < n
      invariant 0 <= k <= |draws|
      invariant i == |coords| <= if n > 0 then n else 0
      invariant coords == Dedup(draws[..k])
      decreases |draws| - k
    {
      if k == |draws| {
        assert draws[..k] == draws;
        return None;
      }
      var (x, y) := draws[k];
      assert draws[..k + 1] == draws[..k] + [(x, y)];
      DedupElements(draws[..k]);
      k := k + 1;
      if (x, y) in coords {
        i := i - 1;
      } else {
        coords := coords + [(x, y)];
      }
      i := i + 1;
    }
    DedupPrefix(draws, k);
    return Some(coords);
  }

  /** A successful placement is n different coordinates, all on the board,
      all taken from the draws. */
  lemma RandomCoordsValid(n: int, rows: int, cols: int, draws: seq<Coord>)
    requires forall d <- draws :: IsInLimits(d, rows, cols)
    requires RandomCoords(n, draws).Some?
    ensures |RandomCoords(n, draws).value| == if n > 0 then n else 0
    ensures Distinct(RandomCoords(n, draws).value)
    ensures forall x <- RandomCoords(n, draws).value :: x in draws && IsInLimits(x, rows, cols)
  {
    DedupElements(draws);
    var d := Dedup(draws);
    if n > 0 {
      forall x | x in d[..n] ensures x in draws {
        var p :| 0 <= p < n && d[..n][p] == x;
        assert d[p] == x;
        assert x in Dedup(draws);
      }
    }
  }

  /** The placement comes back (the source's loop ends) as soon as the draws
      contain n different coordinates. */
  lemma RandomCoordsSucceeds(n: int, draws: seq<Coord>, distinct: seq<Coord>)
    requires Distinct(distinct) && |distinct| >= n
    requires forall x <- distinct :: x in draws
    ensures RandomCoords(n, draws).Some?
  {
    DedupElements(draws);
    var d := Dedup(draws);
    if n > |d| {
      assert forall x <- distinct :: x in d;
      Pigeonhole(distinct, d);
    }
  }

  /** The set of coordinates of a rows-by-cols board. */
  function Board(rows: nat, cols: nat): set<Coord> {
    set x, y | 0 <= x < rows && 0 <= y < cols :: (x, y)
  }

  /** isInLimits accepts exactly the coordinates of the board, so a board
      with no row or no column has none. */
  lemma InLimitsOnBoard(c: Coord, rows: nat, cols: nat)
    ensures IsInLimits(c, rows, cols) <==> c in Board(rows, cols)
    ensures rows == 0 || cols == 0 ==> !IsInLimits(c, rows, cols)
  {
    if IsInLimits(c, rows, cols) {
      assert c == (c.0, c.1);
    }
  }

  /** The coordinates of row x of a board with cols columns. */
  function Row(x: int, cols: nat): set<Coord> {
    set y | 0 <= y < cols :: (x, y)
  }

  lemma {:induction false} RowCard(x: int, cols: nat)
    ensures |Row(x, cols)| == cols
  {
    if cols > 0 {
      RowCard(x, cols - 1);
      assert Row(x, cols) == Row(x, cols - 1) + {(x, cols - 1)};
    }
  }

  lemma {:induction false} BoardCard(rows: nat, cols: nat)
    ensures |Board(rows, cols)| == rows * cols
  {
    if rows > 0 {
      BoardCard(rows - 1, cols);
      RowCard(rows - 1, cols);
      BoardSplit(rows, cols);
      assert rows * cols == (rows - 1) * cols + cols;
    }
  }

  /** A board is the board one row shorter plus its last row. */
  lemma BoardSplit(rows: nat, cols: nat)
    requires rows > 0
    ensures Board(rows, cols) == Board(rows - 1, cols) + Row(rows - 1, cols)
    ensures Board(rows - 1, cols) !! Row(rows - 1, cols)
  {
    forall c | c in Board(rows, cols) ensures c in Board(rows - 1, cols) + Row(rows - 1, cols) {
      if c.0 < rows - 1 {
        assert c in Board(rows - 1, cols);
      } else {
        assert c in Row(rows - 1, cols);
      }
    }
  }

  function Elements<T>(s: seq<T>): set<T> {
    set x | x in s
  }

  /** A subset is no larger than its superset. */
  lemma {:induction false} SubsetCard<T>(a: set<T>, b: set<T>)
    requires a <= b
    ensures |a| <= |b|
  {
    if a != {} {
      var x :| x in a;
      SubsetCard(a - {x}, b - {x});
    }
  }

  /** Taking the last element off a repetition-free sequence. */
  lemma DistinctSnoc<T>(s: seq<T>)
    requires Distinct(s) && s != []
    ensures Distinct(s[..|s| - 1])
    ensures Elements(s) == Elements(s[..|s| - 1]) + {s[|s| - 1]}
    ensures s[|s| - 1] !in Elements(s[..|s| - 1])
  {
    var init := s[..|s| - 1];
    assert s == init + [s[|s| - 1]];
  }

  /** A repetition-free sequence has as many elements as its set. */
  lemma {:induction false} DistinctCard<T>(s: seq<T>)
    requires Distinct(s)
    ensures |Elements(s)| == |s|
  {
    if s != [] {
      DistinctSnoc(s);
      DistinctCard(s[..|s| - 1]);
    }
  }

  /** A repetition-free sequence fits in any sequence holding all its
      elements. */
  lemma Pigeonhole<T>(small: seq<T>, big: seq<T>)
    requires Distinct(small) && Distinct(big)
    requires forall x <- small :: x in big
    ensures |small| <= |big|
  {
    DistinctCard(small);
    DistinctCard(big);
    var a, b := Elements(small), Elements(big);
    assert a <= b;
    assert b == a + (b - a);
  }

  /** getNRandomCoords can only come back when n <= rows * cols: n different
      on-board coordinates do not exist otherwise. */
  lemma RandomCoordsNeedsRoom(n: int, rows: nat, cols: nat, draws: seq<Coord>)
    requires forall d <- draws :: IsInLimits(d, rows, cols)
    requires RandomCoords(n, draws).Some?
    ensures n <= rows * cols
  {
    if n > 0 {
      RandomCoordsValid(n, rows, cols, draws);
      var s := RandomCoords(n, draws).value;
      DistinctCard(s);
      BoardCard(rows, cols);
      forall x | x in Elements(s) ensures x in Board(rows, cols) {
        assert IsInLimits(x, rows, cols);
      }
      SubsetCard(Elements(s), Board(rows, cols));
    }
  }
}
