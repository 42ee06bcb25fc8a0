/** The component's state and its event handlers: a new game, and a click
    on a cell (plain click to open, shift-click to toggle a flag), with the
    loss and victory transitions they trigger. The countdown timer is not
    part of this model. */
module Game {
  import opened Grid
  import opened Generate
  import opened Reveal

  const StartSeconds := 100

  datatype Resolution = Unresolved | GameOver | Victory

  /** The component's five pieces of state. */
  datatype State = State(
    field: seq<Cell>,
    bombsLeft: int,
    secondsLeft: int,
    isGamePlayed: bool,
    resolution: Resolution)

  /** A plain click opens, a shift-click toggles a flag. */
  datatype Click = Plain | ShiftClick

  /** `Crashed` is the TypeError the handler raises when a shift-click names
      no cell; it leaves the state as it was. */
  datatype Outcome = Handled(state: State) | Crashed

  /** The state before the first game. */
  const Initial := State([], 0, 0, false, Unresolved)

  /** The indices of the cells carrying a flag. */
  function FlagSet(f: seq<Cell>): set<int> {
    set k | 0 <= k < |f| && f[k].content == Flag
  }

  /** The indices of the mines carrying a flag. */
  function FlaggedMines(f: seq<Cell>): set<int> {
    set k | 0 <= k < |f| && f[k].meta < 0 && f[k].content == Flag
  }

  /** What holds in every state the handlers produce: while a game is
      played the field has 81 cells, ten of them mines, and no resolution
      has been reached. */
  predicate Inv(s: State) {
    s.isGamePlayed ==> |s.field| == Size && |MineSet(s.field)| == Mines && s.resolution == Unresolved
  }

  /** `newGameHander`: a fresh field, ten bombs to find, 100 seconds, and a
      game in play with no resolution. */
  function NewGame(mines: seq<int>): (s: State)
    requires ValidMines(mines)
    ensures Inv(s) && s.isGamePlayed && s.resolution == Unresolved
    ensures |s.field| == Size && forall k :: 0 <= k < Size ==> !s.field[k].isOpened
    ensures forall k :: 0 <= k < Size ==> (s.field[k].meta == -1 <==> k in mines)
    ensures s.bombsLeft == |MineSet(s.field)| == Mines
    ensures s.secondsLeft == StartSeconds
  {
    State(GenerateField(mines), Mines, StartSeconds, true, Unresolved)
  }

  /** `stopGame`. */
  function Stop(s: State): State {
    s.(isGamePlayed := false, secondsLeft := 0)
  }

  /** `terminateGame`: the game stops and the clicked cell shows the bomb. */
  function Terminate(s: State, index: int): State
    requires 0 <= index < |s.field|
  {
    var c := s.field[index];
    Stop(s).(field := s.field[index := Cell(c.meta, Bomb, true)], resolution := GameOver)
  }

  /** `checkForWictory`: ten flagged mines win and stop the game. */
  function CheckForVictory(s: State): State {
    if |FlaggedMines(s.field)| == Mines then Stop(s.(resolution := Victory)) else s
  }

  /** `toggleBombCell`: flip the cell's `isOpened`, show or clear the flag,
      move `bombsLeft` by one, and check for victory when it reaches zero.
      There is no guard against toggling a revealed cell. */
  function Toggle(s: State, index: int): (r: State)
    requires 0 <= index < |s.field|
    ensures |r.field| == |s.field|
    ensures r.field[index].isOpened == !s.field[index].isOpened
    ensures r.field[index].content == if r.field[index].isOpened then Flag else Blank
    ensures r.bombsLeft == s.bombsLeft + if r.field[index].isOpened then -1 else 1
    ensures forall k :: 0 <= k < |s.field| ==> r.field[k].meta == s.field[k].meta
    ensures forall k :: 0 <= k < |s.field| && k != index ==> r.field[k] == s.field[k]
    ensures r.resolution == Victory <==>
      s.resolution == Victory || (r.bombsLeft == 0 && |FlaggedMines(r.field)| == Mines)
    ensures r.isGamePlayed <==> s.isGamePlayed && !(r.bombsLeft == 0 && |FlaggedMines(r.field)| == Mines)
    ensures if r.bombsLeft == 0 && |FlaggedMines(r.field)| == Mines
      then r.resolution == Victory && !r.isGamePlayed && r.secondsLeft == 0
      else r.resolution == s.resolution && r.isGamePlayed == s.isGamePlayed && r.secondsLeft == s.secondsLeft
  {
    var c := s.field[index];
    var flagged := !c.isOpened;
    var field := s.field[index := Cell(c.meta, if flagged then Flag else Blank, flagged)];
    var bombs := s.bombsLeft + if flagged then -1 else 1;
    var t := s.(field := field, bombsLeft := bombs);
    if bombs == 0 then CheckForVictory(t) else t
  }

  /** `fieldClickHandler`. */
  function HandleClick(s: State, index: int, kind: Click): (o: Outcome)
    requires Inv(s)
    ensures !s.isGamePlayed ==> o == Handled(s)
    ensures o.Crashed? <==> s.isGamePlayed && kind == ShiftClick && !(0 <= index < |s.field|)
    ensures o.Handled? ==> Inv(o.state)
  {
    if !s.isGamePlayed then Handled(s)
    else match kind
      case Plain =>
        if !(0 <= index < |s.field|) || s.field[index].isOpened then Handled(s)
        else if s.field[index].meta == -1 then Handled(Terminate(s, index))
        else
          var field := OpenCell(s.field, index);
          assert MineSet(field) == MineSet(s.field);
          Handled(s.(field := field))
      case ShiftClick =>
        if !(0 <= index < |s.field|) then Crashed
        else
          var r := Toggle(s, index);
          assert MineSet(r.field) == MineSet(s.field);
          Handled(r)
  }

  lemma InitialInv()
    ensures Inv(Initial) && !Initial.isGamePlayed
  {
  }

  /** Once a game is lost or won every click is ignored. */
  lemma ResolvedIgnoresClicks(s: State, index: int, kind: Click)
    requires Inv(s) && s.resolution != Unresolved
    ensures HandleClick(s, index, kind) == Handled(s)
  {
  }

  /** A plain click on a closed mine loses: the mine is shown as a bomb,
      the game stops with no seconds left and the resolution 'Game over';
      no other cell and not the bomb counter changes. */
  lemma PlainClickOnMine(s: State, index: int)
    requires Inv(s) && s.isGamePlayed && OnBoard(index)
    requires !s.field[index].isOpened && s.field[index].meta == -1
    ensures HandleClick(s, index, Plain).Handled?
    ensures var r := HandleClick(s, index, Plain).state;
      && r.resolution == GameOver && !r.isGamePlayed && r.secondsLeft == 0
      && r.bombsLeft == s.bombsLeft
      && |r.field| == Size
      && r.field[index].isOpened && r.field[index].content == Bomb && r.field[index].meta == -1
      && forall k :: 0 <= k < Size && k != index ==> r.field[k] == s.field[k]
  {
  }

  /** A plain click on a closed non-mine reveals it with the flood fill and
      changes nothing but the field: no mine is opened, no open or flagged
      cell is touched, every freshly opened cell shows its count, every
      freshly opened zero has its orthogonal neighbours open or mines, and
      every freshly opened cell other than the clicked one is next to a
      freshly opened zero. */
  lemma PlainClickReveals(s: State, index: int)
    requires Inv(s) && s.isGamePlayed && OnBoard(index)
    requires !s.field[index].isOpened && s.field[index].meta >= 0
    ensures HandleClick(s, index, Plain).Handled?
    ensures var r := HandleClick(s, index, Plain).state;
      && r == s.(field := r.field)
      && Grows(s.field, r.field)
      && Fresh(s.field, r.field, index)
      && FloodClosed(s.field, r.field)
      && forall k :: 0 <= k < Size && Fresh(s.field, r.field, k) && k != index ==> Supported(s.field, r.field, k)
  {
    OpenCellFlood(s.field, index);
  }

  /** A plain click outside the field or on an open (or flagged) cell is
      ignored. */
  lemma PlainClickIgnored(s: State, index: int)
    requires Inv(s)
    requires !(0 <= index < |s.field|) || s.field[index].isOpened
    ensures HandleClick(s, index, Plain) == Handled(s)
  {
  }

  /** On a field with ten mines, ten flagged mines means every mine is
      flagged. */
  lemma TenFlaggedMines(f: seq<Cell>)
    requires |MineSet(f)| == Mines
    ensures |FlaggedMines(f)| == Mines <==>
      forall k :: 0 <= k < |f| && f[k].meta < 0 ==> f[k].content == Flag
  {
    assert FlaggedMines(f) <= MineSet(f);
    if forall k :: 0 <= k < |f| && f[k].meta < 0 ==> f[k].content == Flag {
      assert FlaggedMines(f) == MineSet(f);
    }
    if |FlaggedMines(f)| == Mines {
      SubsetSameSize(FlaggedMines(f), MineSet(f));
      forall k | 0 <= k < |f| && f[k].meta < 0 ensures f[k].content == Flag {
        assert k in MineSet(f);
      }
    }
  }

  /** A shift-click wins exactly when it brings the bomb counter to zero
      and leaves every mine flagged. */
  lemma ShiftClickVictory(s: State, index: int)
    requires Inv(s) && s.isGamePlayed && OnBoard(index)
    ensures HandleClick(s, index, ShiftClick).Handled?
    ensures var r := HandleClick(s, index, ShiftClick).state;
      r.resolution == Victory <==>
        && r.bombsLeft == 0
        && forall k :: 0 <= k < Size && r.field[k].meta < 0 ==> r.field[k].content == Flag
  {
    var r := HandleClick(s, index, ShiftClick).state;
    assert MineSet(r.field) == MineSet(s.field);
    TenFlaggedMines(r.field);
  }

  // Flag accounting

  /** The bomb counter is ten minus the number of flags, and only open
      cells carry a flag. */
  predicate Accounted(s: State) {
    && s.bombsLeft + |FlagSet(s.field)| == Mines
    && forall k :: 0 <= k < |s.field| && s.field[k].content == Flag ==> s.field[k].isOpened
  }

  /** A shift-click on a revealed cell (open, no flag) closes it again,
      clears its text and raises the bomb counter although no flag was
      removed, so the counter no longer matches the flags. */
  lemma ToggleRevealedDrifts(s: State, index: int)
    requires Inv(s) && s.isGamePlayed && OnBoard(index) && Accounted(s)
    requires s.field[index].isOpened && s.field[index].content != Flag
    ensures HandleClick(s, index, ShiftClick).Handled?
    ensures var r := HandleClick(s, index, ShiftClick).state;
      && !r.field[index].isOpened && r.field[index].content == Blank
      && r.bombsLeft + |FlagSet(r.field)| == Mines + 1
  {
    var r := HandleClick(s, index, ShiftClick).state;
    assert FlagSet(r.field) == FlagSet(s.field);
  }

  /** The drift lets a wrong flag win: with every mine flagged plus one
      flag on a non-mine the counter stands at -1, and a shift-click on a
      revealed cell brings it to 0 and declares victory although the flags
      are not exactly the mines. */
  lemma WrongFlagVictory(s: State, index: int)
    requires Inv(s) && s.isGamePlayed && OnBoard(index) && Accounted(s)
    requires s.bombsLeft == -1
    requires forall k :: 0 <= k < Size && s.field[k].meta < 0 ==> s.field[k].content == Flag
    requires s.field[index].isOpened && s.field[index].content != Flag
    ensures HandleClick(s, index, ShiftClick).Handled?
    ensures var r := HandleClick(s, index, ShiftClick).state;
      r.resolution == Victory && FlagSet(r.field) != MineSet(r.field)
  {
    var r := HandleClick(s, index, ShiftClick).state;
    assert FlagSet(r.field) == FlagSet(s.field);
    assert MineSet(r.field) == MineSet(s.field);
    TenFlaggedMines(r.field);
  }

  /** The corrected click handler: a shift-click on a revealed cell is
      ignored; everything else goes to the component's handler. */
  function HandleClickFixed(s: State, index: int, kind: Click): (o: Outcome)
    requires Inv(s)
    ensures !s.isGamePlayed ==> o == Handled(s)
    ensures o.Crashed? <==> s.isGamePlayed && kind == ShiftClick && !(0 <= index < |s.field|)
    ensures o.Handled? ==> Inv(o.state)
  {
    if kind == ShiftClick && s.isGamePlayed && 0 <= index < |s.field|
      && s.field[index].isOpened && s.field[index].content != Flag
    then Handled(s)
    else HandleClick(s, index, kind)
  }

  /** A new game starts accounted. */
  lemma NewGameAccounted(mines: seq<int>)
    requires ValidMines(mines)
    ensures Accounted(NewGame(mines))
  {
    var f := NewGame(mines).field;
    assert FlagSet(f) == {};
  }

  /** Losing on a closed mine and revealing a closed non-mine leave the
      flags where they were, provided only open cells carry a flag. */
  lemma PlainClickKeepsFlags(s: State, index: int)
    requires Inv(s) && s.isGamePlayed && OnBoard(index) && !s.field[index].isOpened
    requires forall k :: 0 <= k < |s.field| && s.field[k].content == Flag ==> s.field[k].isOpened
    ensures var r := HandleClick(s, index, Plain).state;
      && r.bombsLeft == s.bombsLeft
      && FlagSet(r.field) == FlagSet(s.field)
      && forall k :: 0 <= k < |r.field| && r.field[k].content == Flag ==> r.field[k].isOpened
  {
    var r := HandleClick(s, index, Plain).state;
    assert forall k :: 0 <= k < Size ==> (r.field[k].content == Flag <==> s.field[k].content == Flag);
  }

  /** A shift-click on a closed cell adds its flag, one on a flagged cell
      removes it, and the counter moves the opposite way. */
  lemma ShiftClickMovesFlag(s: State, index: int)
    requires Inv(s) && s.isGamePlayed && OnBoard(index)
    requires s.field[index].isOpened ==> s.field[index].content == Flag
    requires forall k :: 0 <= k < |s.field| && s.field[k].content == Flag ==> s.field[k].isOpened
    ensures var r := HandleClick(s, index, ShiftClick).state;
      && (if s.field[index].isOpened
          then FlagSet(r.field) == FlagSet(s.field) - {index} && r.bombsLeft == s.bombsLeft + 1
          else FlagSet(r.field) == FlagSet(s.field) + {index} && r.bombsLeft == s.bombsLeft - 1)
      && forall k :: 0 <= k < |r.field| && r.field[k].content == Flag ==> r.field[k].isOpened
  {
  }

  /** With the corrected handler every click keeps the bomb counter equal
      to ten minus the number of flags. */
  lemma FixedClickKeepsAccount(s: State, index: int, kind: Click)
    requires Inv(s) && Accounted(s)
    requires HandleClickFixed(s, index, kind).Handled?
    ensures Accounted(HandleClickFixed(s, index, kind).state)
  {
    var r := HandleClickFixed(s, index, kind).state;
    if r != s {
      if kind == Plain {
        PlainClickKeepsFlags(s, index);
      } else {
        ShiftClickMovesFlag(s, index);
        if s.field[index].isOpened {
          assert index in FlagSet(s.field);
        } else {
          assert index !in FlagSet(s.field);
        }
      }
    }
  }

  /** With the corrected handler and an accounted state, a shift-click that
      is not ignored wins exactly when the flags sit on exactly the mines. */
  lemma FixedVictoryExact(s: State, index: int)
    requires Inv(s) && Accounted(s) && s.isGamePlayed && OnBoard(index)
    requires !s.field[index].isOpened || s.field[index].content == Flag
    ensures HandleClickFixed(s, index, ShiftClick).Handled?
    ensures var r := HandleClickFixed(s, index, ShiftClick).state;
      r.resolution == Victory <==> FlagSet(r.field) == MineSet(r.field)
  {
    var r := HandleClickFixed(s, index, ShiftClick).state;
    FixedClickKeepsAccount(s, index, ShiftClick);
    assert MineSet(r.field) == MineSet(s.field);
    assert FlaggedMines(r.field) <= MineSet(r.field) && FlaggedMines(r.field) <= FlagSet(r.field);
    if r.resolution == Victory {
      SubsetSameSize(FlaggedMines(r.field), MineSet(r.field));
      SubsetSameSize(FlaggedMines(r.field), FlagSet(r.field));
    }
    if FlagSet(r.field) == MineSet(r.field) {
      assert FlaggedMines(r.field) == MineSet(r.field);
    }
  }
}
