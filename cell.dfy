/**
 * The value-level part of a cell: its state machine, the count of mines
 * around it, and the verdict of a chord attempt on it. The cell objects'
 * mutable parts (state, mine flag, neighbour list) live in the board's
 * arrays; see module Board.
 */
module Cell {

  /** What the player sees of a cell. */
  datatype State = Default | Revealed | Flagged | Possible

  /** Verdict of a left click on a revealed cell. */
  datatype ChordResult = Chordable | NeighbourIsMine | NotEnoughFlags

  /** Every listed cell index is a valid index of a sequence of length n. */
  predicate InRange(ns: seq<nat>, n: nat) {
    forall i | 0 <= i < |ns| :: ns[i] < n
  }

  // ---------------------------------------------------------------------
  // Right click: the flag cycle

  /** The state a right click leaves behind: the flag states cycle
      Default -> Flagged -> Possible -> Default and a revealed cell stays put. */
  function NextFlag(s: State): (r: State)
    ensures (r == Revealed) == (s == Revealed)
    ensures r == s <==> s == Revealed
  {
    match s
    case Default => Flagged
    case Flagged => Possible
    case Possible => Default
    case Revealed => Revealed
  }

  /** Change a right click makes to the number of flags remaining:
      one flag is used up entering Flagged and given back leaving it. */
  function FlagDelta(s: State): (d: int)
    ensures d == (if s == Flagged then 1 else 0) - (if NextFlag(s) == Flagged then 1 else 0)
  {
    match s
    case Default => -1
    case Flagged => 1
    case _ => 0
  }

  /** Three right clicks restore the state and, in sum, the number of flags remaining. */
  lemma FlagCycle(s: State)
    ensures NextFlag(NextFlag(NextFlag(s))) == s
    ensures FlagDelta(s) + FlagDelta(NextFlag(s)) + FlagDelta(NextFlag(NextFlag(s))) == 0
  {
  }

  // ---------------------------------------------------------------------
  // Counting over a neighbour list

  /** Number of listed cells that hold a mine, counted in list order. */
  function AdjacentMines(mine: seq<bool>, ns: seq<nat>): (r: nat)
    requires InRange(ns, |mine|)
    ensures r <= |ns|
    ensures r == 0 <==> forall q | q in ns :: !mine[q]
    ensures r == |ns| <==> forall q | q in ns :: mine[q]
    decreases |ns|
  {
    if ns == [] then 0
    else
      var last := ns[|ns| - 1];
      assert ns == ns[..|ns| - 1] + [last];
      AdjacentMines(mine, ns[..|ns| - 1]) + if mine[last] then 1 else 0
  }

  /** Number of listed cells that are flagged, counted in list order. */
  function FlagCount(st: seq<State>, ns: seq<nat>): (r: nat)
    requires InRange(ns, |st|)
    ensures r <= |ns|
    ensures r == 0 <==> forall q | q in ns :: st[q] != Flagged
    decreases |ns|
  {
    if ns == [] then 0
    else
      var last := ns[|ns| - 1];
      assert ns == ns[..|ns| - 1] + [last];
      FlagCount(st, ns[..|ns| - 1]) + if st[last] == Flagged then 1 else 0
  }

  /** A neighbour that holds a mine but carries no flag. */
  predicate UnflaggedMine(st: seq<State>, mine: seq<bool>, q: nat)
    requires q < |st| && q < |mine|
  {
    st[q] != Flagged && mine[q]
  }

  /** Position in ns of the first unflagged mine, or |ns| if there is none. */
  function FirstUnflaggedMine(st: seq<State>, mine: seq<bool>, ns: seq<nat>): (f: nat)
    requires |st| == |mine| && InRange(ns, |st|)
    ensures f <= |ns|
    ensures forall i | 0 <= i < f :: !UnflaggedMine(st, mine, ns[i])
    ensures f < |ns| ==> UnflaggedMine(st, mine, ns[f])
    decreases |ns|
  {
    if ns == [] then 0
    else if UnflaggedMine(st, mine, ns[0]) then 0
    else 1 + FirstUnflaggedMine(st, mine, ns[1..])
  }

  /** The position of the first unflagged mine is the n that has no
      unflagged mine before it and one at it (or n == |ns|). */
  lemma {:induction false} FirstUnflaggedMineAt(st: seq<State>, mine: seq<bool>, ns: seq<nat>, n: nat)
    requires |st| == |mine| && InRange(ns, |st|) && n <= |ns|
    requires forall i | 0 <= i < n :: !UnflaggedMine(st, mine, ns[i])
    requires n < |ns| ==> UnflaggedMine(st, mine, ns[n])
    ensures FirstUnflaggedMine(st, mine, ns) == n
    decreases n
  {
    if n > 0 {
      assert !UnflaggedMine(st, mine, ns[0]);
      FirstUnflaggedMineAt(st, mine, ns[1..], n - 1);
    }
  }

  /** One more neighbour without an unflagged mine extends the clear prefix. */
  lemma NoUnflaggedMineNext(st: seq<State>, mine: seq<bool>, ns: seq<nat>, n: nat)
    requires |st| == |mine| && InRange(ns, |st|) && n < |ns|
    requires forall i | 0 <= i < n :: !UnflaggedMine(st, mine, ns[i])
    requires !UnflaggedMine(st, mine, ns[n])
    ensures forall i | 0 <= i < n + 1 :: !UnflaggedMine(st, mine, ns[i])
  {
  }

  /** Verdict of a chord attempt on a cell with neighbour list ns: the flags
      are counted only up to the first unflagged mine, and the count is then
      compared with the number of mines around the cell. */
  function ChordStatusOf(st: seq<State>, mine: seq<bool>, ns: seq<nat>): (r: ChordResult)
    requires |st| == |mine| && InRange(ns, |st|)
    ensures r == Chordable ==> forall i | 0 <= i < |ns| :: mine[ns[i]] ==> st[ns[i]] == Flagged
    ensures r == NeighbourIsMine ==> exists i | 0 <= i < |ns| :: UnflaggedMine(st, mine, ns[i])
  {
    var f := FirstUnflaggedMine(st, mine, ns);
    if FlagCount(st, ns[..f]) == AdjacentMines(mine, ns) then
      if f < |ns| then NeighbourIsMine else Chordable
    else NotEnoughFlags
  }

  /** When every mine in ns is flagged, there are at least as many flags as
      mines, and exactly as many iff every flag stands on a mine. */
  lemma {:induction false} FlagsCoverMines(st: seq<State>, mine: seq<bool>, ns: seq<nat>)
    requires |st| == |mine| && InRange(ns, |st|)
    requires forall q | q in ns :: mine[q] ==> st[q] == Flagged
    ensures AdjacentMines(mine, ns) <= FlagCount(st, ns)
    ensures AdjacentMines(mine, ns) == FlagCount(st, ns) <==>
              forall q | q in ns :: st[q] == Flagged ==> mine[q]
    decreases |ns|
  {
    if ns != [] {
      var init, last := ns[..|ns| - 1], ns[|ns| - 1];
      assert ns == init + [last];
      FlagsCoverMines(st, mine, init);
    }
  }

  /** A chord is allowed exactly when the flagged neighbours are precisely
      the neighbours that hold mines. */
  lemma ChordableIff(st: seq<State>, mine: seq<bool>, ns: seq<nat>)
    requires |st| == |mine| && InRange(ns, |st|)
    ensures ChordStatusOf(st, mine, ns) == Chordable <==>
              forall q | q in ns :: (st[q] == Flagged <==> mine[q])
  {
    var f := FirstUnflaggedMine(st, mine, ns);
    if forall q | q in ns :: (st[q] == Flagged <==> mine[q]) {
      assert f == |ns|;
      assert ns[..f] == ns;
      FlagsCoverMines(st, mine, ns);
    }
    if ChordStatusOf(st, mine, ns) == Chordable {
      assert ns[..f] == ns;
      forall q | q in ns
        ensures mine[q] ==> st[q] == Flagged
      {
        var i :| 0 <= i < |ns| && ns[i] == q;
        assert !UnflaggedMine(st, mine, ns[i]);
      }
      FlagsCoverMines(st, mine, ns);
    }
  }

  /** A NeighbourIsMine verdict names an unflagged mine among the neighbours,
      and that mine comes after exactly as many flags as there are mines. */
  lemma NeighbourIsMineWitness(st: seq<State>, mine: seq<bool>, ns: seq<nat>)
    requires |st| == |mine| && InRange(ns, |st|)
    requires ChordStatusOf(st, mine, ns) == NeighbourIsMine
    ensures exists i | 0 <= i < |ns| ::
              UnflaggedMine(st, mine, ns[i]) && FlagCount(st, ns[..i]) == AdjacentMines(mine, ns)
  {
    var f := FirstUnflaggedMine(st, mine, ns);
    assert UnflaggedMine(st, mine, ns[f]);
  }

  /** The verdict the scan would give without its break: every flag among
      the neighbours counted, and any unflagged mine among them reported. */
  function ChordStatusWithoutBreak(st: seq<State>, mine: seq<bool>, ns: seq<nat>): (r: ChordResult)
    requires |st| == |mine| && InRange(ns, |st|)
    ensures r == Chordable ==> forall i | 0 <= i < |ns| :: mine[ns[i]] ==> st[ns[i]] == Flagged
  {
    if FlagCount(st, ns) == AdjacentMines(mine, ns) then
      if exists i | 0 <= i < |ns| :: UnflaggedMine(st, mine, ns[i]) then NeighbourIsMine else Chordable
    else NotEnoughFlags
  }

  /** The break only matters when there is an unflagged mine among the
      neighbours: without one, the scan runs to the end and both verdicts
      agree. */
  lemma BreakUnseenWithoutUnflaggedMine(st: seq<State>, mine: seq<bool>, ns: seq<nat>)
    requires |st| == |mine| && InRange(ns, |st|)
    requires forall i | 0 <= i < |ns| :: !UnflaggedMine(st, mine, ns[i])
    ensures ChordStatusOf(st, mine, ns) == ChordStatusWithoutBreak(st, mine, ns)
  {
    FirstUnflaggedMineAt(st, mine, ns, |ns|);
    assert ns[..|ns|] == ns;
  }

  /** The break can turn a loss into a no-op. On a 1 x 3 board whose middle
      cell is revealed, the neighbour list is [0, 2] (Grid.MiddleNeighbours).
      With an unflagged mine on the left and a flag on the safe cell on the
      right, the scan stops at the mine before it counts the flag and reports
      NotEnoughFlags; without the break it would count the flag and report
      NeighbourIsMine. */
  lemma BreakChangesVerdict()
    ensures ChordStatusOf([Default, Revealed, Flagged], [true, false, false], [0, 2]) == NotEnoughFlags
    ensures ChordStatusWithoutBreak([Default, Revealed, Flagged], [true, false, false], [0, 2])
              == NeighbourIsMine
  {
    var st, mine, ns := [Default, Revealed, Flagged], [true, false, false], [0, 2];
    assert FirstUnflaggedMine(st, mine, ns) == 0;
    assert ns[..0] == [];
    assert ns[1..] == [2];
    assert FlagCount(st, ns) == 1;
    assert AdjacentMines(mine, ns) == 1;
    assert UnflaggedMine(st, mine, ns[0]);
  }

  /** The break can also turn a no-op into a loss. On a 2 x 2 board whose
      top-left cell is revealed, the neighbour list is [1, 2, 3]
      (Grid.CornerNeighbours). With flags on the two safe cells beside and
      below it and the diagonal mine unflagged, the scan stops at the mine
      after one flag, which matches the one mine, and reports NeighbourIsMine;
      without the break it would count both flags and report NotEnoughFlags. */
  lemma BreakCausesLoss()
    ensures ChordStatusOf([Revealed, Flagged, Default, Flagged], [false, false, true, false], [1, 2, 3])
              == NeighbourIsMine
    ensures ChordStatusWithoutBreak([Revealed, Flagged, Default, Flagged], [false, false, true, false],
                                    [1, 2, 3]) == NotEnoughFlags
  {
    var st, mine, ns := [Revealed, Flagged, Default, Flagged], [false, false, true, false], [1, 2, 3];
    FirstUnflaggedMineAt(st, mine, ns, 1);
    assert ns[..1] == [1];
    assert [1][..0] == [];
    assert FlagCount(st, ns[..1]) == 1;
    assert ns[1..] == [2, 3];
    assert [2, 3][1..] == [3];
    assert AdjacentMines(mine, ns) == 1;
    assert FlagCount(st, ns) == 2;
  }

  /** Stopping the flag count at the first unflagged mine makes the verdict
      depend on where the mine lies in the neighbour list. The 1 x 3 board of
      BreakChangesVerdict and its mirror image have the same neighbour list
      [0, 2], one mine and one flag each. The verdict is NotEnoughFlags when
      the mine is listed first and NeighbourIsMine when it is listed last. */
  lemma ChordStatusDependsOnOrder()
    ensures ChordStatusOf([Default, Revealed, Flagged], [true, false, false], [0, 2]) == NotEnoughFlags
    ensures ChordStatusOf([Flagged, Revealed, Default], [false, false, true], [0, 2]) == NeighbourIsMine
  {
    BreakChangesVerdict();
    var st2, mine2, ns := [Flagged, Revealed, Default], [false, false, true], [0, 2];
    FirstUnflaggedMineAt(st2, mine2, ns, 1);
    assert ns[..1] == [0];
    assert [0][..0] == [];
    assert FlagCount(st2, ns[..1]) == 1;
    assert AdjacentMines(mine2, ns) == 1;
  }
}
