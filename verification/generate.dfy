/** Field generation: place the mines, then let every mine bump the count of
    its in-range non-mine neighbours. The random draw of the mine positions
    is replaced by an input list of ten distinct board indices, in the order
    they were drawn.

    `fixed` selects the guard of the count step: `false` is the guard the
    component uses, `true` the corrected guard of the finding about a mine
    at index 8 (see README). */
module Generate {
  import opened Grid

  datatype Option<T> = None | Some(value: T)

  predicate Distinct(s: seq<int>) {
    forall i, j :: 0 <= i < j < |s| ==> s[i] != s[j]
  }

  /** What the generator demands of the drawn positions. */
  predicate ValidMines(mines: seq<int>) {
    && |mines| == Mines
    && (forall i :: 0 <= i < |mines| ==> OnBoard(mines[i]))
    && Distinct(mines)
  }

  /** Every mine has meta -1 and an empty text; every other cell's text is
      its count as a revealed cell would show it. */
  predicate WellCounted(f: seq<Cell>) {
    forall k :: 0 <= k < |f| ==>
      if f[k].meta < 0 then f[k].meta == -1 && f[k].content == Blank
      else f[k].content == Shown(f[k].meta)
  }

  /** The indices of the mines of a field. */
  function MineSet(f: seq<Cell>): set<int> {
    set k | 0 <= k < |f| && f[k].meta < 0
  }

  /** The guard of one count step. `anchor` is the base index the call
      passes (`None` when it relies on the default argument -1). The
      component uses `InNeighbourRange`; the corrected guard treats a
      missing anchor as "no row constraint" and otherwise compares rows by
      floor division, so that the base -1 is the row above row 0. */
  predicate Guard(index: int, anchor: Option<int>, fixed: bool) {
    if fixed then OnBoard(index) && (anchor.Some? ==> index / Width == anchor.value / Width)
    else InNeighbourRange(index, if anchor.Some? then anchor.value else -1)
  }

  /** One count step on `index`: a guarded, non-mine cell gains one and its
      text becomes the new count. */
  function Bump(f: seq<Cell>, index: int, anchor: Option<int>, fixed: bool): (r: seq<Cell>)
    requires |f| == Size
    ensures |r| == Size
    ensures forall k :: 0 <= k < Size ==>
      && r[k].isOpened == f[k].isOpened
      && (r[k].meta < 0 <==> f[k].meta < 0)
    ensures forall k :: 0 <= k < Size ==>
      r[k].meta == f[k].meta + (if k == index && f[k].meta >= 0 && Guard(index, anchor, fixed) then 1 else 0)
    ensures forall k :: 0 <= k < Size && f[k].meta < 0 ==> r[k] == f[k]
    ensures WellCounted(f) ==> WellCounted(r)
  {
    if !Guard(index, anchor, fixed) || f[index].meta < 0 then f
    else f[index := Cell(f[index].meta + 1, Digits(f[index].meta + 1), f[index].isOpened)]
  }

  /** One call of the count step: the index it targets and the base index
      it passes (`None` when it relies on the default argument -1). */
  datatype Step = Step(index: int, anchor: Option<int>)

  /** The eight calls around a mine at `m`, in the component's order. */
  function StepsAround(m: int): seq<Step> {
    [ Step(m - Width - 1, Some(m - Width)),
      Step(m - Width, None),
      Step(m - Width + 1, Some(m - Width)),
      Step(m - 1, Some(m)),
      Step(m + 1, Some(m)),
      Step(m + Width - 1, Some(m + Width)),
      Step(m + Width, None),
      Step(m + Width + 1, Some(m + Width)) ]
  }

  /** How many of `steps` target `k` and pass their guard. */
  function Hits(steps: seq<Step>, k: int, fixed: bool): nat {
    if steps == [] then 0 else Hit(steps[0], k, fixed) + Hits(steps[1..], k, fixed)
  }

  function Hit(step: Step, k: int, fixed: bool): nat {
    if step.index == k && Guard(k, step.anchor, fixed) then 1 else 0
  }

  function ApplySteps(f: seq<Cell>, steps: seq<Step>, fixed: bool): (r: seq<Cell>)
    requires |f| == Size
    ensures |r| == Size
    ensures forall k :: 0 <= k < Size ==>
      && r[k].isOpened == f[k].isOpened
      && (r[k].meta < 0 <==> f[k].meta < 0)
      && r[k].meta == f[k].meta + (if f[k].meta >= 0 then Hits(steps, k, fixed) else 0)
    ensures forall k :: 0 <= k < Size && f[k].meta < 0 ==> r[k] == f[k]
    ensures WellCounted(f) ==> WellCounted(r)
    decreases |steps|
  {
    if steps == [] then f
    else ApplySteps(Bump(f, steps[0].index, steps[0].anchor, fixed), steps[1..], fixed)
  }

  /** Whether the mine at `m` bumps cell `k`: one of its eight calls targets
      `k` and passes the guard. */
  predicate Touches(m: int, k: int, fixed: bool) {
    || (k == m - Width - 1 && Guard(k, Some(m - Width), fixed))
    || (k == m - Width && Guard(k, None, fixed))
    || (k == m - Width + 1 && Guard(k, Some(m - Width), fixed))
    || (k == m - 1 && Guard(k, Some(m), fixed))
    || (k == m + 1 && Guard(k, Some(m), fixed))
    || (k == m + Width - 1 && Guard(k, Some(m + Width), fixed))
    || (k == m + Width && Guard(k, None, fixed))
    || (k == m + Width + 1 && Guard(k, Some(m + Width), fixed))
  }

  /** The eight calls target distinct cells, so a mine bumps a cell at most
      once. */
  lemma HitsAround(m: int, k: int, fixed: bool)
    ensures Hits(StepsAround(m), k, fixed) == if Touches(m, k, fixed) then 1 else 0
  {
    HitsSum(m, k, fixed);
  }

  /** The hits of the eight calls, one term per call. */
  lemma HitsSum(m: int, k: int, fixed: bool)
    ensures var s := StepsAround(m);
      Hits(s, k, fixed) == Hit(s[0], k, fixed) + Hit(s[1], k, fixed) + Hit(s[2], k, fixed)
        + Hit(s[3], k, fixed) + Hit(s[4], k, fixed) + Hit(s[5], k, fixed) + Hit(s[6], k, fixed)
        + Hit(s[7], k, fixed)
  {
    var s := StepsAround(m);
    forall j | 0 <= j < 8
      ensures Hits(s[j..], k, fixed) == Hit(s[j], k, fixed) + Hits(s[j + 1..], k, fixed)
    {
      assert s[j..][1..] == s[j + 1..];
    }
    assert s[8..] == [];
    assert s[0..] == s;
  }

  /** The count propagation of one mine. */
  function AroundMine(f: seq<Cell>, m: int, fixed: bool): (r: seq<Cell>)
    requires |f| == Size
    ensures |r| == Size
    ensures forall k :: 0 <= k < Size ==>
      && r[k].isOpened == f[k].isOpened
      && (r[k].meta < 0 <==> f[k].meta < 0)
      && r[k].meta == f[k].meta + (if f[k].meta >= 0 && Touches(m, k, fixed) then 1 else 0)
    ensures forall k :: 0 <= k < Size && f[k].meta < 0 ==> r[k] == f[k]
    ensures WellCounted(f) ==> WellCounted(r)
  {
    var r := ApplySteps(f, StepsAround(m), fixed);
    assert forall k :: 0 <= k < Size ==> Hits(StepsAround(m), k, fixed) == if Touches(m, k, fixed) then 1 else 0 by {
      forall k | 0 <= k < Size { HitsAround(m, k, fixed); }
    }
    r
  }

  /** How many of `ms` touch cell `k`. */
  function Contacts(ms: seq<int>, k: int, fixed: bool): nat {
    if ms == [] then 0
    else (if Touches(ms[0], k, fixed) then 1 else 0) + Contacts(ms[1..], k, fixed)
  }

  /** The count propagation of all mines, in the order they were drawn. */
  function Propagate(f: seq<Cell>, ms: seq<int>, fixed: bool): (r: seq<Cell>)
    requires |f| == Size
    ensures |r| == Size
    ensures forall k :: 0 <= k < Size ==>
      && r[k].isOpened == f[k].isOpened
      && (r[k].meta < 0 <==> f[k].meta < 0)
      && r[k].meta == f[k].meta + (if f[k].meta >= 0 then Contacts(ms, k, fixed) else 0)
    ensures forall k :: 0 <= k < Size && f[k].meta < 0 ==> r[k] == f[k]
    ensures WellCounted(f) ==> WellCounted(r)
    decreases |ms|
  {
    if ms == [] then f
    else Propagate(AroundMine(f, ms[0], fixed), ms[1..], fixed)
  }

  /** The field before counting: every cell closed with empty text, the ten
      drawn positions mines and every other cell at count 0. */
  function PlaceMines(mines: seq<int>): (r: seq<Cell>)
    requires ValidMines(mines)
    ensures |r| == Size && WellCounted(r)
    ensures forall k :: 0 <= k < Size ==> !r[k].isOpened && (r[k].meta == -1 <==> k in mines)
    ensures forall k :: 0 <= k < Size && k !in mines ==> r[k].meta == 0
    ensures MineSet(r) == (set m | m in mines) && |MineSet(r)| == Mines
  {
    var r := seq(Size, k => if k in mines then Cell(-1, Blank, false) else Cell(0, Blank, false));
    assert MineSet(r) == (set m | m in mines);
    DistinctCard(mines);
    r
  }

  /** The component's eight calls reach exactly the grid neighbours of the
      mine, except that a mine at index 8 (top-right corner) also reaches
      index 0: its base index 8 - 9 is the sentinel -1. */
  lemma TouchesAsWritten(m: int, k: int)
    requires OnBoard(m)
    ensures Touches(m, k, false) <==> Adjacent8(m, k) || (m == 8 && k == 0)
  {
  }

  /** With the corrected guard the eight calls reach exactly the grid
      neighbours of the mine. */
  lemma TouchesFixed(m: int, k: int)
    requires OnBoard(m)
    ensures Touches(m, k, true) <==> Adjacent8(m, k)
  {
  }

  /** A list of distinct elements has as many elements as its set. */
  lemma {:induction false} DistinctCard(s: seq<int>)
    requires Distinct(s)
    ensures |set x | x in s| == |s|
    decreases |s|
  {
    if s != [] {
      var rest := s[1..];
      assert Distinct(rest);
      DistinctCard(rest);
      assert s[0] !in rest;
      assert (set x | x in s) == (set x | x in rest) + {s[0]};
    }
  }

  /** For distinct mines, `Contacts` counts the set of mines touching `k`. */
  lemma {:induction false} ContactsCount(ms: seq<int>, k: int, fixed: bool)
    requires Distinct(ms)
    ensures Contacts(ms, k, fixed) == |set m | m in ms && Touches(m, k, fixed)|
    decreases |ms|
  {
    if ms != [] {
      var rest := ms[1..];
      assert Distinct(rest);
      ContactsCount(rest, k, fixed);
      assert ms[0] !in rest;
      var all := set m | m in ms && Touches(m, k, fixed);
      var later := set m | m in rest && Touches(m, k, fixed);
      if Touches(ms[0], k, fixed) {
        assert all == later + {ms[0]};
      } else {
        assert all == later;
      }
    }
  }

  // Set sizes, shared by the count proofs here and the victory proofs.

  lemma SubsetCard(a: set<int>, b: set<int>)
    requires a <= b
    ensures |a| <= |b|
  {
    assert b == a + (b - a);
  }

  lemma SubsetSameSize(a: set<int>, b: set<int>)
    requires a <= b && |a| == |b|
    ensures a == b
  {
    assert b == a + (b - a);
    assert |b - a| == 0;
  }

  /** A cell is touched by at most eight mines: only the cells at the eight
      offsets of the count step can touch it. */
  lemma ContactsBound(ms: seq<int>, k: int, fixed: bool)
    requires Distinct(ms)
    ensures Contacts(ms, k, fixed) <= 8
  {
    ContactsCount(ms, k, fixed);
    var touching := set m | m in ms && Touches(m, k, fixed);
    var around := {k + Width + 1, k + Width, k + Width - 1, k + 1, k - 1, k - Width + 1, k - Width, k - Width - 1};
    assert touching <= around;
    SubsetCard(touching, around);
  }

  /** The number of mines among the grid neighbours of `k`. */
  function MinesAround(f: seq<Cell>, k: int): nat {
    |set n | 0 <= n < |f| && Adjacent8(n, k) && f[n].meta < 0|
  }

  /** The component's field generator: an unopened field with a mine at
      each drawn position and nowhere else, every text matching its count,
      and every count in 0..8. */
  function GenerateField(mines: seq<int>): (r: seq<Cell>)
    requires ValidMines(mines)
    ensures |r| == Size && WellCounted(r)
    ensures forall k :: 0 <= k < Size ==> !r[k].isOpened
    ensures forall k :: 0 <= k < Size ==> (r[k].meta == -1 <==> k in mines)
    ensures forall k :: 0 <= k < Size && k !in mines ==> 0 <= r[k].meta <= 8
    ensures MineSet(r) == (set m | m in mines) && |MineSet(r)| == Mines
  {
    Generated(mines, false)
  }

  /** The corrected generator; the same field properties hold of it. */
  function GenerateFieldFixed(mines: seq<int>): (r: seq<Cell>)
    requires ValidMines(mines)
    ensures |r| == Size && WellCounted(r)
    ensures forall k :: 0 <= k < Size ==> !r[k].isOpened
    ensures forall k :: 0 <= k < Size ==> (r[k].meta == -1 <==> k in mines)
    ensures forall k :: 0 <= k < Size && k !in mines ==> 0 <= r[k].meta <= 8
    ensures MineSet(r) == (set m | m in mines) && |MineSet(r)| == Mines
  {
    Generated(mines, true)
  }

  function Generated(mines: seq<int>, fixed: bool): (r: seq<Cell>)
    requires ValidMines(mines)
    ensures |r| == Size && WellCounted(r)
    ensures forall k :: 0 <= k < Size ==> !r[k].isOpened
    ensures forall k :: 0 <= k < Size ==> (r[k].meta == -1 <==> k in mines)
    ensures forall k :: 0 <= k < Size && k !in mines ==> r[k].meta == Contacts(mines, k, fixed) <= 8
    ensures MineSet(r) == (set m | m in mines) && |MineSet(r)| == Mines
  {
    var placed := PlaceMines(mines);
    var r := Propagate(placed, mines, fixed);
    assert forall k :: 0 <= k < Size ==> Contacts(mines, k, fixed) <= 8 by {
      forall k | 0 <= k < Size { ContactsBound(mines, k, fixed); }
    }
    assert MineSet(r) == MineSet(placed);
    r
  }

  /** The count of every non-mine cell of a generated field is the number
      of mines among its grid neighbours, except that cell 0 counts one
      more when the top-right corner (index 8) holds a mine. */
  lemma GeneratedCounts(mines: seq<int>, k: int)
    requires ValidMines(mines) && OnBoard(k)
    ensures var f := GenerateField(mines);
      f[k].meta >= 0 ==> f[k].meta == MinesAround(f, k) + (if k == 0 && f[8].meta < 0 then 1 else 0)
  {
    var f := GenerateField(mines);
    if f[k].meta >= 0 {
      ContactsCount(mines, k, false);
      TouchingAsWritten(mines, f, k);
    }
  }

  /** The mines that reach `k` under the component's guard are the mines
      among its grid neighbours, plus the mine at 8 when `k` is 0. The two
      parts are disjoint, since 8 is not a grid neighbour of 0. */
  lemma TouchingAsWritten(mines: seq<int>, f: seq<Cell>, k: int)
    requires ValidMines(mines) && OnBoard(k) && |f| == Size
    requires forall n :: 0 <= n < Size ==> (f[n].meta < 0 <==> n in mines)
    ensures |set m | m in mines && Touches(m, k, false)| ==
      MinesAround(f, k) + (if k == 0 && f[8].meta < 0 then 1 else 0)
  {
    var touching := set m | m in mines && Touches(m, k, false);
    var around := set n | 0 <= n < |f| && Adjacent8(n, k) && f[n].meta < 0;
    forall m | OnBoard(m) ensures Touches(m, k, false) <==> Adjacent8(m, k) || (m == 8 && k == 0) {
      TouchesAsWritten(m, k);
    }
    var quirk := if k == 0 && f[8].meta < 0 then {8} else {};
    forall m ensures m in touching <==> m in around + quirk {
      if m in mines {
        assert OnBoard(m);
      }
    }
    assert touching == around + quirk;
    assert !Adjacent8(8, 0);
    assert around * quirk == {};
  }

  /** With the corrected guard every non-mine count is exactly the number of
      mines among the cell's grid neighbours. */
  lemma GeneratedCountsFixed(mines: seq<int>, k: int)
    requires ValidMines(mines) && OnBoard(k)
    ensures var f := GenerateFieldFixed(mines);
      f[k].meta >= 0 ==> f[k].meta == MinesAround(f, k)
  {
    var f := GenerateFieldFixed(mines);
    if f[k].meta >= 0 {
      ContactsCount(mines, k, true);
      var touching := set m | m in mines && Touches(m, k, true);
      var around := set n | 0 <= n < |f| && Adjacent8(n, k) && f[n].meta < 0;
      forall m | OnBoard(m) ensures Touches(m, k, true) <==> Adjacent8(m, k) {
        TouchesFixed(m, k);
      }
      assert touching == around;
    }
  }

  lemma NeighboursOfCorner(n: int)
    requires Adjacent8(n, 0)
    ensures n == 1 || n == Width || n == Width + 1
  {
  }

  lemma NoMineNearCorner(f: seq<Cell>)
    requires |f| == Size && f[1].meta >= 0 && f[Width].meta >= 0 && f[Width + 1].meta >= 0
    ensures MinesAround(f, 0) == 0
  {
    forall n | 0 <= n < Size && Adjacent8(n, 0) ensures f[n].meta >= 0 {
      NeighboursOfCorner(n);
    }
    assert (set n | 0 <= n < |f| && Adjacent8(n, 0) && f[n].meta < 0) == {};
  }

  /** For any draw with a mine in the top-right corner and none on cell 0
      or next to it, the component's generator gives cell 0 a count of 1
      although none of its grid neighbours holds a mine; the corrected
      generator gives 0. */
  lemma CornerQuirk(mines: seq<int>)
    requires ValidMines(mines)
    requires 8 in mines && 0 !in mines && 1 !in mines && 9 !in mines && 10 !in mines
    ensures MinesAround(GenerateField(mines), 0) == 0
    ensures GenerateField(mines)[0].meta == 1
    ensures GenerateFieldFixed(mines)[0].meta == 0
  {
    NoMineNearCorner(GenerateField(mines));
    NoMineNearCorner(GenerateFieldFixed(mines));
    GeneratedCounts(mines, 0);
    GeneratedCountsFixed(mines, 0);
  }
}
