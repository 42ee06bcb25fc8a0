/** The reveal flood fill: opening a cell, and from a zero-count cell the
    recursive opening of its up, down, left and right neighbours. The
    recursion only ever steps into a cell it opens first, so the set of
    closed cells shrinks along every chain of calls. */
module Reveal {
  import opened Grid

  /** The indices of the cells still closed. */
  function Closed(f: seq<Cell>): set<int> {
    set k | 0 <= k < |f| && !f[k].isOpened
  }

  /** `r` differs from `f` only in cells that were closed non-mines in `f`
      and are revealed in `r`. */
  predicate Grows(f: seq<Cell>, r: seq<Cell>) {
    && |r| == |f|
    && forall k :: 0 <= k < |f| ==>
      r[k] == f[k] || (!f[k].isOpened && f[k].meta >= 0 && r[k] == Revealed(f[k]))
  }

  lemma GrowsTrans(f: seq<Cell>, g: seq<Cell>, h: seq<Cell>)
    requires Grows(f, g) && Grows(g, h)
    ensures Grows(f, h)
  {
  }

  lemma GrowsClosed(f: seq<Cell>, g: seq<Cell>)
    requires Grows(f, g)
    ensures Closed(g) <= Closed(f)
  {
  }

  /** `markCellAsOpened`: the step every recursive call of the fill takes
      first. On a closed cell it removes exactly that cell from the closed
      set, which is what makes the fill terminate; on a closed non-mine it
      is a step of growth. */
  function MarkOpened(f: seq<Cell>, i: int): (r: seq<Cell>)
    requires 0 <= i < |f|
    ensures |r| == |f| && r[i] == Revealed(f[i])
    ensures forall k :: 0 <= k < |f| && k != i ==> r[k] == f[k]
    ensures !f[i].isOpened ==> i in Closed(f) && Closed(r) == Closed(f) - {i}
    ensures !f[i].isOpened && f[i].meta >= 0 ==> Grows(f, r)
  {
    f[i := Revealed(f[i])]
  }

  /** `markCellAsOpenedIfEligible`: a closed non-mine cell the guard admits
      is revealed, and a zero among them spreads to its neighbours. A cell
      the guard refuses, an opened (or flagged) cell and a mine are left
      alone, and nothing else changes then. */
  function OpenIfEligible(f: seq<Cell>, index: int, base: int): (r: seq<Cell>)
    requires |f| == Size
    ensures Grows(f, r)
    ensures InNeighbourRange(index, base) && f[index].meta >= 0 ==> r[index].isOpened
    ensures !InNeighbourRange(index, base) || f[index].isOpened || f[index].meta < 0 ==> r == f
    decreases Closed(f), 0
  {
    if !InNeighbourRange(index, base) then f
    else if f[index].isOpened || f[index].meta < 0 then f
    else
      var g := MarkOpened(f, index);
      if g[index].meta == 0 then
        var r := OpenNeighbours(g, index);
        GrowsTrans(f, g, r);
        r
      else g
  }

  /** `openNeighbourOpenCells`: the cell above (any board cell), the cells to
      the left and right (same row only) and the cell below. */
  function OpenNeighbours(f: seq<Cell>, i: int): (r: seq<Cell>)
    requires |f| == Size && OnBoard(i)
    ensures Grows(f, r)
    decreases Closed(f), 1
  {
    var f1 := OpenIfEligible(f, i - Width, -1);
    GrowsClosed(f, f1);
    var f2 := OpenIfEligible(f1, i - 1, i);
    GrowsTrans(f, f1, f2);
    GrowsClosed(f, f2);
    var f3 := OpenIfEligible(f2, i + 1, i);
    GrowsTrans(f, f2, f3);
    GrowsClosed(f, f3);
    var f4 := OpenIfEligible(f3, i + Width, -1);
    GrowsTrans(f, f3, f4);
    f4
  }

  /** `openCell`: reveal the clicked cell and, if it shows zero, spread.
      Every other cell is unchanged or a closed non-mine now revealed. */
  function OpenCell(f: seq<Cell>, i: int): (r: seq<Cell>)
    requires |f| == Size && OnBoard(i)
    ensures |r| == Size && r[i] == Revealed(f[i])
    ensures forall k :: 0 <= k < Size && k != i ==>
      r[k] == f[k] || (!f[k].isOpened && f[k].meta >= 0 && r[k] == Revealed(f[k]))
  {
    var g := MarkOpened(f, i);
    if g[i].meta == 0 then OpenNeighbours(g, i) else g
  }

  // Shape of a flood fill

  /** Cell `k` was closed in `f` and is open in `r`. */
  predicate Fresh(f: seq<Cell>, r: seq<Cell>, k: int)
    requires |f| == |r| == Size && OnBoard(k)
  {
    !f[k].isOpened && r[k].isOpened
  }

  /** Every orthogonal neighbour of `i` is open (revealed or flagged) or a
      mine. */
  predicate Settled(r: seq<Cell>, i: int)
    requires |r| == Size
  {
    forall n :: 0 <= n < Size && Adjacent4(i, n) ==> r[n].isOpened || r[n].meta < 0
  }

  /** A cell that is open or a mine stays so while the fill grows. */
  predicate Blocked(f: seq<Cell>, n: int)
    requires 0 <= n < |f|
  {
    f[n].isOpened || f[n].meta < 0
  }

  /** Every freshly opened zero cell has its orthogonal neighbours settled. */
  predicate FloodClosed(f: seq<Cell>, r: seq<Cell>)
    requires |f| == |r| == Size
  {
    forall k :: 0 <= k < Size && Fresh(f, r, k) && r[k].meta == 0 ==> Settled(r, k)
  }

  /** Cell `k` has an orthogonal neighbour that was freshly opened and shows
      zero, from which the fill could have reached it. */
  predicate Supported(f: seq<Cell>, r: seq<Cell>, k: int)
    requires |f| == |r| == Size
  {
    exists n :: 0 <= n < Size && Adjacent4(n, k) && Fresh(f, r, n) && r[n].meta == 0
  }

  /** Every freshly opened cell is next to `i` or supported. */
  predicate SpreadFrom(f: seq<Cell>, r: seq<Cell>, i: int)
    requires |f| == |r| == Size
  {
    forall k :: 0 <= k < Size && Fresh(f, r, k) ==> Adjacent4(i, k) || Supported(f, r, k)
  }

  /** Nothing is fresh between a field and itself. */
  lemma Unchanged(f: seq<Cell>, i: int)
    requires |f| == Size
    ensures Grows(f, f) && FloodClosed(f, f) && SpreadFrom(f, f, i)
  {
  }

  /** Revealing a closed zero cell and spreading from it: the fill is
      closed, and every cell it opens other than the start is supported. */
  lemma {:induction false} MarkThenSpread(f: seq<Cell>, index: int)
    requires |f| == Size && OnBoard(index)
    requires !f[index].isOpened && f[index].meta == 0
    ensures var r := OpenNeighbours(MarkOpened(f, index), index);
      && FloodClosed(f, r)
      && forall k :: 0 <= k < Size && Fresh(f, r, k) && k != index ==> Supported(f, r, k)
    decreases Closed(f), 0
  {
    var g := MarkOpened(f, index);
    assert index in Closed(f) && Closed(g) == Closed(f) - {index};
    var r := OpenNeighbours(g, index);
    NeighboursFlood(g, index);
    assert Fresh(f, r, index) && r[index].meta == 0;
    forall k | 0 <= k < Size && Fresh(f, r, k) && k != index ensures Supported(f, r, k) {
      assert Fresh(g, r, k);
      if !Adjacent4(index, k) {
        var m :| 0 <= m < Size && Adjacent4(m, k) && Fresh(g, r, m) && r[m].meta == 0;
        assert Fresh(f, r, m);
      }
    }
    forall k | 0 <= k < Size && Fresh(f, r, k) && r[k].meta == 0 ensures Settled(r, k) {
      if k != index {
        assert Fresh(g, r, k);
      }
    }
  }

  /** The fill started by one eligible cell is closed, and every cell it
      opens other than the start is supported. */
  lemma {:induction false} EligibleFlood(f: seq<Cell>, index: int, base: int)
    requires |f| == Size
    ensures var r := OpenIfEligible(f, index, base);
      && FloodClosed(f, r)
      && forall k :: 0 <= k < Size && Fresh(f, r, k) && k != index ==> Supported(f, r, k)
    decreases Closed(f), 1
  {
    if InNeighbourRange(index, base) && !f[index].isOpened && f[index].meta >= 0 {
      if f[index].meta == 0 {
        MarkThenSpread(f, index);
      }
    }
  }

  lemma ClosedCompose(f: seq<Cell>, g: seq<Cell>, h: seq<Cell>)
    requires |f| == Size
    requires Grows(f, g) && Grows(g, h) && FloodClosed(f, g) && FloodClosed(g, h)
    ensures FloodClosed(f, h)
  {
    forall k | 0 <= k < Size && Fresh(f, h, k) && h[k].meta == 0 ensures Settled(h, k) {
      if !Fresh(g, h, k) {
        assert Settled(g, k);
        forall n | 0 <= n < Size && Adjacent4(k, n) ensures h[n].isOpened || h[n].meta < 0 {
          assert g[n].isOpened || g[n].meta < 0;
        }
      }
    }
  }

  lemma SpreadCompose(f: seq<Cell>, g: seq<Cell>, h: seq<Cell>, i: int, n: int)
    requires |f| == Size
    requires Grows(f, g) && Grows(g, h) && SpreadFrom(f, g, i)
    requires forall k :: 0 <= k < Size && Fresh(g, h, k) && k != n ==> Supported(g, h, k)
    requires OnBoard(n) && Fresh(g, h, n) ==> Adjacent4(i, n)
    ensures SpreadFrom(f, h, i)
  {
    forall k | 0 <= k < Size && Fresh(f, h, k) ensures Adjacent4(i, k) || Supported(f, h, k) {
      if Fresh(f, g, k) {
        if !Adjacent4(i, k) {
          var m :| 0 <= m < Size && Adjacent4(m, k) && Fresh(f, g, m) && g[m].meta == 0;
          assert Fresh(f, h, m) && h[m].meta == 0;
        }
      } else if k != n {
        assert Fresh(g, h, k);
        var m :| 0 <= m < Size && Adjacent4(m, k) && Fresh(g, h, m) && h[m].meta == 0;
        assert Fresh(f, h, m);
      }
    }
  }

  /** One of the four calls of `OpenNeighbours` from `i`, after the calls
      before it turned `f` into `g`: the fill so far stays closed and
      spread from `i`, and the called cell ends up open or a mine. */
  lemma {:induction false} ComposeStep(f: seq<Cell>, g: seq<Cell>, i: int, n: int, base: int)
    requires |f| == Size && OnBoard(i)
    requires InNeighbourRange(n, base) ==> Adjacent4(i, n)
    requires Grows(f, g) && FloodClosed(f, g) && SpreadFrom(f, g, i)
    ensures var h := OpenIfEligible(g, n, base);
      && Grows(f, h) && FloodClosed(f, h) && SpreadFrom(f, h, i)
      && (InNeighbourRange(n, base) ==> Blocked(h, n))
    decreases Closed(g), 2
  {
    var h := OpenIfEligible(g, n, base);
    EligibleFlood(g, n, base);
    GrowsTrans(f, g, h);
    ClosedCompose(f, g, h);
    SpreadCompose(f, g, h, i, n);
  }

  /** After the four neighbour calls every orthogonal neighbour of `i` is
      settled, the fill is closed, and every cell it opened is next to `i`
      or supported. */
  lemma {:induction false} NeighboursFlood(f: seq<Cell>, i: int)
    requires |f| == Size && OnBoard(i)
    ensures var r := OpenNeighbours(f, i);
      && Settled(r, i)
      && FloodClosed(f, r)
      && SpreadFrom(f, r, i)
    decreases Closed(f), 3
  {
    FourNeighbours(i, i - Width);
    FourNeighbours(i, i - 1);
    FourNeighbours(i, i + 1);
    FourNeighbours(i, i + Width);
    Unchanged(f, i);
    var f1 := OpenIfEligible(f, i - Width, -1);
    ComposeStep(f, f, i, i - Width, -1);
    GrowsClosed(f, f1);
    var f2 := OpenIfEligible(f1, i - 1, i);
    ComposeStep(f, f1, i, i - 1, i);
    GrowsClosed(f, f2);
    var f3 := OpenIfEligible(f2, i + 1, i);
    ComposeStep(f, f2, i, i + 1, i);
    GrowsClosed(f, f3);
    var r := OpenIfEligible(f3, i + Width, -1);
    ComposeStep(f, f3, i, i + Width, -1);
    SettledAfter(i, f1, f2, f3, r);
  }

  /** The four calls block the four neighbours one after the other, and
      blocked cells stay blocked, so at the end all four are blocked. */
  lemma SettledAfter(i: int, f1: seq<Cell>, f2: seq<Cell>, f3: seq<Cell>, r: seq<Cell>)
    requires OnBoard(i) && |f1| == Size
    requires Grows(f1, f2) && Grows(f2, f3) && Grows(f3, r)
    requires InNeighbourRange(i - Width, -1) ==> Blocked(f1, i - Width)
    requires InNeighbourRange(i - 1, i) ==> Blocked(f2, i - 1)
    requires InNeighbourRange(i + 1, i) ==> Blocked(f3, i + 1)
    requires InNeighbourRange(i + Width, -1) ==> Blocked(r, i + Width)
    ensures Settled(r, i)
  {
    GrowsTrans(f1, f2, f3);
    GrowsTrans(f1, f3, r);
    GrowsTrans(f2, f3, r);
    forall n | 0 <= n < Size && Adjacent4(i, n) ensures Blocked(r, n) {
      FourNeighbours(i, n);
    }
  }

  /** Opening a closed non-mine cell: no mine is opened and no open or
      flagged cell is touched, every freshly opened cell shows its count,
      every freshly opened zero cell has all its orthogonal neighbours open
      or mines, and every freshly opened cell other than the clicked one is
      next to a freshly opened zero. */
  lemma OpenCellFlood(f: seq<Cell>, i: int)
    requires |f| == Size && OnBoard(i)
    requires !f[i].isOpened && f[i].meta >= 0
    ensures var r := OpenCell(f, i);
      && Grows(f, r)
      && Fresh(f, r, i)
      && FloodClosed(f, r)
      && forall k :: 0 <= k < Size && Fresh(f, r, k) && k != i ==> Supported(f, r, k)
  {
    if f[i].meta == 0 {
      MarkThenSpread(f, i);
    }
  }
}
