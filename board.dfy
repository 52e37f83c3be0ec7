/**
 * The board: a fixed h-by-w grid of cells stored row-major in flat arrays
 * (state, mine flag and neighbour list of cell (r, c) at index r * w + c),
 * the two counters the game shows (cells revealed, flags remaining) and the
 * game-over latch. The methods are the click dispatch, mine placement and
 * reset of the board, and the cell operations (reveal, chord, chord status,
 * flag cycle) applied to the cell at a given index.
 */
module Board {
  import opened Grid
  import opened Cell
  import opened FloodFill

  /** Cells a mine may be placed on: not yet a mine and not revealed. */
  function Eligible(m: seq<bool>, s: seq<State>): (r: set<nat>)
    requires |m| == |s|
    ensures r == {} <==> forall p | 0 <= p < |m| :: m[p] || s[p] == Revealed
  {
    var r := set p: nat | p < |m| && !m[p] && s[p] != Revealed;
    assert forall p | 0 <= p < |m| && !m[p] && s[p] != Revealed :: p in r;
    r
  }

  /** No revealed cell holds a mine. */
  ghost predicate NoRevealedMine(s: seq<State>, m: seq<bool>)
    requires |s| == |m|
  {
    forall p | 0 <= p < |s| :: s[p] == Revealed ==> !m[p]
  }

  /** A board with every cell Default and no mine: no mine is counted, no
      cell is revealed or flagged, and every cell is eligible for a mine. */
  lemma EmptyBoard(m: seq<bool>, s: seq<State>)
    requires |m| == |s|
    requires forall p | 0 <= p < |m| :: !m[p] && s[p] == Default
    ensures multiset(m)[true] == 0
    ensures multiset(s)[Revealed] == 0 && multiset(s)[Flagged] == 0
    ensures |Eligible(m, s)| == |m|
  {
    assert true !in m;
    assert Revealed !in s && Flagged !in s;
    EligibleCount(m, s);
  }

  /** While no cell is revealed, exactly the cells without a mine are
      eligible. */
  lemma {:induction false} EligibleCount(m: seq<bool>, s: seq<State>)
    requires |m| == |s|
    requires forall p | 0 <= p < |s| :: s[p] != Revealed
    ensures |Eligible(m, s)| == |m| - multiset(m)[true]
    decreases |m|
  {
    if m != [] {
      var n := |m| - 1;
      EligibleCount(m[..n], s[..n]);
      EligibleLast(m, s);
      assert multiset(m)[true] == multiset(m[..n])[true] + (if m[n] then 1 else 0) by {
        assert m == m[..n] + [m[n]];
      }
    }
  }

  /** The eligible cells of a board are those of all but its last cell, and
      the last cell if it is eligible. */
  lemma EligibleLast(m: seq<bool>, s: seq<State>)
    requires |m| == |s| && m != []
    ensures var n := |m| - 1;
            |Eligible(m, s)| == |Eligible(m[..n], s[..n])| + (if !m[n] && s[n] != Revealed then 1 else 0)
  {
    var n := |m| - 1;
    var e := Eligible(m[..n], s[..n]);
    if !m[n] && s[n] != Revealed {
      assert n !in e;
      assert Eligible(m, s) == e + {n};
    } else {
      assert Eligible(m, s) == e;
    }
  }

  /** An eligible cell can be drawn as a row and a column. */
  lemma EligibleCellExists(h: nat, w: nat, m: seq<bool>, s: seq<State>)
    requires w > 0 && |m| == h * w && |s| == h * w && Eligible(m, s) != {}
    ensures exists i: nat, j: nat :: i < h && j < w && Index(w, i, j) in Eligible(m, s)
  {
    var p :| p in Eligible(m, s);
    DivModIndex(w, p);
    RowBound(h, w, p);
    assert p / w < h && p % w < w && Index(w, p / w, p % w) in Eligible(m, s);
  }

  /** Placing a mine on an eligible cell adds one mine and makes the cell
      ineligible. */
  lemma PlaceMine(m: seq<bool>, s: seq<State>, k: nat)
    requires |m| == |s| && k in Eligible(m, s)
    ensures multiset(m[k := true])[true] == multiset(m)[true] + 1
    ensures Eligible(m[k := true], s) == Eligible(m, s) - {k}
    ensures |Eligible(m[k := true], s)| == |Eligible(m, s)| - 1
  {
    assert Eligible(m[k := true], s) == Eligible(m, s) - {k};
  }

  /** Every cell without a mine is revealed. */
  ghost predicate SafeCellsRevealed(s: seq<State>, m: seq<bool>)
    requires |s| == |m|
  {
    forall p | 0 <= p < |s| :: !m[p] ==> s[p] == Revealed
  }

  /** The win check compares the number of revealed cells with the number of
      safe cells. As long as no mine is revealed, the count never exceeds the
      number of safe cells and reaches it exactly when every safe cell is
      revealed. */
  lemma {:induction false} WinCheckMeaning(s: seq<State>, m: seq<bool>)
    requires |s| == |m| && NoRevealedMine(s, m)
    ensures multiset(s)[Revealed] <= |m| - multiset(m)[true]
    ensures multiset(s)[Revealed] == |m| - multiset(m)[true] <==> SafeCellsRevealed(s, m)
    decreases |s|
  {
    if s != [] {
      var n := |s| - 1;
      CountsLast(s, m);
      assert NoRevealedMine(s[..n], m[..n]);
      WinCheckMeaning(s[..n], m[..n]);
    }
  }

  /** The counts and the win condition of a board, split into those of all
      but its last cell and the last cell. */
  lemma CountsLast(s: seq<State>, m: seq<bool>)
    requires |s| == |m| && s != []
    ensures var n := |s| - 1;
            && multiset(s)[Revealed] == multiset(s[..n])[Revealed] + (if s[n] == Revealed then 1 else 0)
            && multiset(m)[true] == multiset(m[..n])[true] + (if m[n] then 1 else 0)
            && (SafeCellsRevealed(s, m) <==>
                  SafeCellsRevealed(s[..n], m[..n]) && (!m[n] ==> s[n] == Revealed))
  {
    var n := |s| - 1;
    assert s == s[..n] + [s[n]];
    assert m == m[..n] + [m[n]];
  }

  /** As written, the first-click relocation can put the mine back on the
      clicked cell, which is then revealed with its mine: once the mine of t
      is cleared and nothing is revealed, t is eligible for the relocated
      mine, and if the draw picks t the reveal of t shows a mine. The
      smallest case is a 1 x 2 board with its one mine at cell 0 and a first
      left click on cell 0. */
  lemma RelocationOntoTrigger(h: nat, w: nat, m: seq<bool>, s: seq<State>, t: nat)
    requires |m| == h * w && |s| == h * w && t < h * w && m[t]
    requires s[t] == Default && forall p | 0 <= p < |s| :: s[p] != Revealed
    ensures t in Eligible(m[t := false], s)
    ensures !NoRevealedMine(RevealCells(h, w, m, s, t).0, m)
  {
    FirstClickOutcome(h, w, m, s, t);
  }

  /** Placing the new mine before clearing the clicked one keeps it off the
      clicked cell: with nothing revealed there is a cell without a mine
      (there are fewer mines than cells), and the clicked cell, still a mine
      at that point, is not eligible. */
  lemma RelocationAvoidsTrigger(m: seq<bool>, s: seq<State>, t: nat)
    requires |m| == |s| && t < |m| && m[t]
    requires forall p | 0 <= p < |s| :: s[p] != Revealed
    requires multiset(m)[true] < |m|
    ensures |Eligible(m, s)| >= 1 && t !in Eligible(m, s)
  {
    EligibleCount(m, s);
  }

  /** Clearing a mine removes one mine. */
  lemma ClearMine(m: seq<bool>, k: nat)
    requires k < |m| && m[k]
    ensures multiset(m[k := false])[true] == multiset(m)[true] - 1
  {
  }

  /** A reveal from a cell that is not a Default mine reveals no mine. */
  lemma RevealHidesMines(h: nat, w: nat, m: seq<bool>, s: seq<State>, k: nat)
    requires |m| == h * w && |s| == h * w && k < h * w
    requires NoRevealedMine(s, m) && (s[k] == Default ==> !m[k])
    ensures NoRevealedMine(RevealCells(h, w, m, s, k).0, m)
  {
    var (s1, o) := RevealCells(h, w, m, s, k);
    RevealFloods(h, w, m, s, k);
    FloodRevealsNoMine(h, w, m, s, s1, [k], o);
  }

  /** A chord on cells none of which is a Default mine reveals no mine. */
  lemma ChordHidesMines(h: nat, w: nat, m: seq<bool>, s: seq<State>, ns: seq<nat>)
    requires |m| == h * w && |s| == h * w && InRange(ns, h * w)
    requires NoRevealedMine(s, m) && forall q | q in ns :: s[q] == Default ==> !m[q]
    ensures NoRevealedMine(ChordCells(h, w, m, s, ns).0, m)
  {
    var (s1, o) := ChordCells(h, w, m, s, ns);
    ChordFloods(h, w, m, s, ns);
    FloodRevealsNoMine(h, w, m, s, s1, ns, o);
  }

  /** What the reveal after a relocation leaves when nothing was revealed
      before: t is revealed, and a mine is revealed exactly when the
      relocated mine landed on t. */
  lemma FirstClickOutcome(h: nat, w: nat, m: seq<bool>, s: seq<State>, t: nat)
    requires |m| == h * w && |s| == h * w && t < h * w
    requires s[t] == Default && forall p | 0 <= p < |s| :: s[p] != Revealed
    ensures RevealCells(h, w, m, s, t).0[t] == Revealed
    ensures NoRevealedMine(RevealCells(h, w, m, s, t).0, m) <==> !m[t]
  {
    var (s1, o) := RevealCells(h, w, m, s, t);
    RevealFloods(h, w, m, s, t);
    if !m[t] {
      FloodRevealsNoMine(h, w, m, s, s1, [t], o);
    }
  }

  /** The first n cells of ls carry their neighbour lists, the rest none. */
  ghost predicate LinkedBelow(h: nat, w: nat, ls: seq<seq<nat>>, n: nat) {
    && |ls| == h * w && n <= |ls|
    && (forall p | 0 <= p < n :: ls[p] == Neighbours(h, w, p))
    && (forall p | n <= p < |ls| :: ls[p] == [])
  }

  /** Linking cell n extends the linked prefix by one cell. */
  lemma LinkNext(h: nat, w: nat, ls: seq<seq<nat>>, n: nat)
    requires LinkedBelow(h, w, ls, n) && n < |ls|
    ensures LinkedBelow(h, w, ls[n := ls[n] + Neighbours(h, w, n)], n + 1)
  {
    assert ls[n] + Neighbours(h, w, n) == Neighbours(h, w, n);
  }

  /** Appending to the list at k twice is appending the concatenation. */
  lemma AppendAt(ls: seq<seq<nat>>, k: nat, a: seq<nat>, b: seq<nat>)
    requires k < |ls|
    ensures ls[k := ls[k] + a][k := ls[k] + a + b] == ls[k := ls[k] + (a + b)]
    ensures ls[k := ls[k] + []] == ls
  {
    assert ls[k] + a + b == ls[k] + (a + b);
    assert ls[k] + [] == ls[k];
  }

  /** The effect of a left click on cell t of an h-by-w board, from states
      s0, mines m0 and revealed count r0 to s1, m1 and r1, with order the
      cells revealed, by the state t had:
      - Default with a mine, something already revealed: nothing changes
        (the game is lost);
      - Default with a mine, nothing revealed yet: the mine of t is cleared
        and one mine is placed on a cell that is neither a mine nor revealed,
        which may be t again; the other mines stay where they are, and t is
        revealed;
      - Default without a mine: t is revealed;
      - Revealed: t is chorded when the chord verdict allows it, otherwise
        nothing changes;
      - Flagged or Possible: nothing changes. */
  ghost predicate LeftClickEffect(h: nat, w: nat, t: nat, s0: seq<State>, m0: seq<bool>, r0: int,
                                  s1: seq<State>, m1: seq<bool>, r1: int, order: seq<nat>)
    requires |s0| == h * w && |m0| == h * w && |s1| == h * w && |m1| == h * w && t < h * w
  {
    match s0[t]
    case Default =>
      if m0[t] && r0 != 0 then
        s1 == s0 && m1 == m0 && r1 == r0
      else if m0[t] then
        && (forall p | 0 <= p < h * w && p != t :: m0[p] ==> m1[p])
        && (s1, order) == RevealCells(h, w, m1, s0, t)
        && s1[t] == Revealed && r1 == |order|
      else
        && m1 == m0
        && (s1, order) == RevealCells(h, w, m1, s0, t)
        && r1 == r0 + |order|
    case Revealed =>
      && m1 == m0
      && if ChordStatusOf(s0, m0, Neighbours(h, w, t)) == Chordable then
           (s1, order) == ChordCells(h, w, m1, s0, Neighbours(h, w, t)) && r1 == r0 + |order|
         else
           s1 == s0 && r1 == r0
    case _ =>
      s1 == s0 && m1 == m0 && r1 == r0
  }

  /** The first-click branch of LeftClickEffect, unfolded. */
  lemma FirstClickEffect(h: nat, w: nat, t: nat, s0: seq<State>, m0: seq<bool>, r0: int,
                         s1: seq<State>, m1: seq<bool>, r1: int, order: seq<nat>)
    requires |s0| == h * w && |m0| == h * w && |s1| == h * w && |m1| == h * w && t < h * w
    requires s0[t] == Default && m0[t] && r0 == 0
    requires forall p | 0 <= p < h * w && p != t :: m0[p] ==> m1[p]
    requires (s1, order) == RevealCells(h, w, m1, s0, t) && s1[t] == Revealed && r1 == |order|
    ensures LeftClickEffect(h, w, t, s0, m0, r0, s1, m1, r1, order)
  {
  }

  /** The safe-reveal branch of LeftClickEffect, unfolded. */
  lemma RevealEffect(h: nat, w: nat, t: nat, s0: seq<State>, m0: seq<bool>, r0: int,
                     s1: seq<State>, m1: seq<bool>, r1: int, order: seq<nat>)
    requires |s0| == h * w && |m0| == h * w && |s1| == h * w && |m1| == h * w && t < h * w
    requires s0[t] == Default && !m0[t] && m1 == m0
    requires (s1, order) == RevealCells(h, w, m1, s0, t) && r1 == r0 + |order|
    ensures LeftClickEffect(h, w, t, s0, m0, r0, s1, m1, r1, order)
  {
  }

  /** The revealed-cell branch of LeftClickEffect, unfolded. */
  lemma ChordEffect(h: nat, w: nat, t: nat, s0: seq<State>, m0: seq<bool>, r0: int,
                    s1: seq<State>, m1: seq<bool>, r1: int, order: seq<nat>)
    requires |s0| == h * w && |m0| == h * w && |s1| == h * w && |m1| == h * w && t < h * w
    requires s0[t] == Revealed && m1 == m0
    requires ChordStatusOf(s0, m0, Neighbours(h, w, t)) == Chordable ==>
               (s1, order) == ChordCells(h, w, m1, s0, Neighbours(h, w, t)) && r1 == r0 + |order|
    requires ChordStatusOf(s0, m0, Neighbours(h, w, t)) != Chordable ==> s1 == s0 && r1 == r0
    ensures LeftClickEffect(h, w, t, s0, m0, r0, s1, m1, r1, order)
  {
  }

  /** The effect of a click with mouse button `button` on cell t, from
      states s0, mines m0, revealed count r0 and flags remaining f0 to s1,
      m1, r1 and f1: a left click as LeftClickEffect says, the flags
      unchanged; a right click moves t on in the flag cycle; any other
      button changes nothing. */
  ghost predicate ClickEffect(h: nat, w: nat, t: nat, button: int,
                              s0: seq<State>, m0: seq<bool>, r0: int, f0: int,
                              s1: seq<State>, m1: seq<bool>, r1: int, f1: int, order: seq<nat>)
    requires |s0| == h * w && |m0| == h * w && |s1| == h * w && |m1| == h * w && t < h * w
  {
    if button == 1 then
      LeftClickEffect(h, w, t, s0, m0, r0, s1, m1, r1, order) && f1 == f0
    else if button == 3 then
      s1 == s0[t := NextFlag(s0[t])] && m1 == m0 && r1 == r0 && f1 == f0 + FlagDelta(s0[t])
    else
      s1 == s0 && m1 == m0 && r1 == r0 && f1 == f0
  }

  /** The left-button branch of ClickEffect, unfolded. */
  lemma LeftButtonEffect(h: nat, w: nat, t: nat, s0: seq<State>, m0: seq<bool>, r0: int, f0: int,
                         s1: seq<State>, m1: seq<bool>, r1: int, f1: int, order: seq<nat>)
    requires |s0| == h * w && |m0| == h * w && |s1| == h * w && |m1| == h * w && t < h * w
    requires LeftClickEffect(h, w, t, s0, m0, r0, s1, m1, r1, order) && f1 == f0
    ensures ClickEffect(h, w, t, 1, s0, m0, r0, f0, s1, m1, r1, f1, order)
  {
  }

  /** The right-button branch of ClickEffect, unfolded. */
  lemma RightButtonEffect(h: nat, w: nat, t: nat, s0: seq<State>, m0: seq<bool>, r0: int, f0: int,
                          s1: seq<State>, m1: seq<bool>, r1: int, f1: int)
    requires |s0| == h * w && |m0| == h * w && |s1| == h * w && |m1| == h * w && t < h * w
    requires s1 == s0[t := NextFlag(s0[t])] && m1 == m0 && r1 == r0 && f1 == f0 + FlagDelta(s0[t])
    ensures forall order :: ClickEffect(h, w, t, 3, s0, m0, r0, f0, s1, m1, r1, f1, order)
  {
  }

  /** Any other button leaves everything as it was. */
  lemma OtherButtonEffect(h: nat, w: nat, t: nat, button: int, s0: seq<State>, m0: seq<bool>, r0: int, f0: int)
    requires |s0| == h * w && |m0| == h * w && t < h * w && button != 1 && button != 3
    ensures forall order :: ClickEffect(h, w, t, button, s0, m0, r0, f0, s0, m0, r0, f0, order)
  {
  }

  /** A left click reveals no mine unless it is the first click on a mine
      and the relocated mine lands back on t. */
  lemma LeftClickHidesMines(h: nat, w: nat, t: nat, s0: seq<State>, m0: seq<bool>, r0: int,
                            s1: seq<State>, m1: seq<bool>, r1: int, order: seq<nat>)
    requires |s0| == h * w && |m0| == h * w && |s1| == h * w && |m1| == h * w && t < h * w
    requires LeftClickEffect(h, w, t, s0, m0, r0, s1, m1, r1, order)
    requires r0 == multiset(s0)[Revealed] && NoRevealedMine(s0, m0)
    requires s0[t] == Default && m0[t] && r0 == 0 ==> !m1[t]
    ensures NoRevealedMine(s1, m1)
  {
    if s0[t] == Default && m0[t] && r0 == 0 {
      assert Revealed !in multiset(s0);
      RevealHidesMines(h, w, m1, s0, t);
    } else if s0[t] == Default && !m0[t] {
      RevealHidesMines(h, w, m0, s0, t);
    } else if s0[t] == Revealed {
      var ns := Neighbours(h, w, t);
      if ChordStatusOf(s0, m0, ns) == Chordable {
        ChordableIff(s0, m0, ns);
        ChordHidesMines(h, w, m0, s0, ns);
      }
    }
  }

  class Board {
    const height: nat
    const width: nat
    const numMines: nat

    const state: array<State>
    const mine: array<bool>
    /** links[p] is the neighbour list of cell p, filled once by the constructor. */
    const links: array<seq<nat>>

    var numRevealed: int
    var flagsRemaining: int
    var gameOver: bool

    /** The fixed structure: dimensions and array sizes. */
    ghost predicate Shape() {
      && height > 0 && width > 0 && 1 <= numMines < height * width
      && state.Length == height * width && mine.Length == height * width
      && links.Length == height * width
    }

    /** Every cell is linked to its neighbours in the order of Grid.Neighbours.
        The links are made once, by the constructor. */
    ghost predicate Linked()
      reads links
    {
      forall p {:trigger links[p]} | 0 <= p < links.Length :: links[p] == Neighbours(height, width, p)
    }

    /** The board invariant: exactly numMines mines, numRevealed counts the
        revealed cells and flagsRemaining is numMines less the flagged cells. */
    ghost predicate Valid()
      reads this`numRevealed, this`flagsRemaining, state, mine
    {
      && Shape()
      && multiset(mine[..])[true] == numMines
      && numRevealed == multiset(state[..])[Revealed]
      && flagsRemaining == numMines - multiset(state[..])[Flagged]
    }

    /** The win test of the click handler. */
    predicate AllSafeCellsCounted()
      reads this`numRevealed
    {
      numRevealed == height * width - numMines
    }

    /** States, mines and counters are the given ones. */
    ghost predicate Frozen(s: seq<State>, m: seq<bool>, revealed: int, flags: int)
      reads this`numRevealed, this`flagsRemaining, state, mine
    {
      state[..] == s && mine[..] == m && numRevealed == revealed && flagsRemaining == flags
    }

    /** A new board of h rows and w columns with the given number of mines
        placed at random, every cell Default. The menu only builds boards with
        h > 0, w > 0, h * w > 1 and 1 <= mines < h * w. */
    constructor (h: nat, w: nat, mines: nat)
      requires h > 0 && w > 0 && 1 <= mines < h * w
      ensures Valid() && Linked()
      ensures height == h && width == w && numMines == mines
      ensures fresh(state) && fresh(mine) && fresh(links)
      ensures forall p | 0 <= p < state.Length :: state[p] == Default
      ensures numRevealed == 0 && flagsRemaining == mines && !gameOver
    {
      height, width, numMines := h, w, mines;
      state := new State[h * w](_ => Default);
      mine := new bool[h * w](_ => false);
      links := new seq<nat>[h * w](_ => []);
      numRevealed := 0;
      flagsRemaining := mines;
      gameOver := false;
      new;
      LinkAll();
      EmptyBoard(mine[..], state[..]);
      ArmMines(numMines);
    }

    /** The linking loops of the constructor: for every cell, row by row. */
    method LinkAll()
      requires width > 0 && links.Length == height * width
      requires forall p | 0 <= p < links.Length :: links[p] == []
      modifies links
      ensures Linked()
    {
      ghost var linked := 0;
      for i := 0 to height
        invariant linked == Index(width, i, 0)
        invariant LinkedBelow(height, width, links[..], linked)
      {
        for j := 0 to width
          invariant linked == Index(width, i, j)
          invariant LinkedBelow(height, width, links[..], linked)
        {
          ghost var before := links[..];
          LinkCell(i, j);
          LinkNext(height, width, before, linked);
          linked := linked + 1;
        }
        assert Index(width, i, width) == Index(width, i + 1, 0);
      }
      assert linked == links.Length;
    }

    /** Appends q to the neighbour list of cell k. */
    method AddNeighbour(k: nat, q: nat)
      requires k < links.Length
      modifies links
      ensures links[..] == old(links[..])[k := old(links[k]) + [q]]
    {
      links[k] := links[k] + [q];
    }

    /** One pass of the innermost linking loop: links (i + dRow, j + dCol) to
        cell k when the offset is not (0, 0) and the cell lies on the board. */
    method LinkOffset(k: nat, i: nat, j: nat, dRow: int, dCol: int)
      requires k < links.Length
      modifies links
      ensures links[..] == old(links[..])[k := old(links[k]) + OffsetLink(height, width, i, j, dRow, dCol)]
    {
      if (dRow != 0 || dCol != 0) &&
         (i + dRow >= 0 && j + dCol >= 0 && i + dRow < height && j + dCol < width) {
        IndexBounds(height, width, i + dRow, j + dCol);
        AddNeighbour(k, Index(width, i + dRow, j + dCol));
      } else {
        assert links[k] + OffsetLink(height, width, i, j, dRow, dCol) == links[k];
      }
    }

    /** The inner two linking loops of the constructor for cell (i, j): every
        in-bounds offset other than (0, 0) is linked, dRow outer, dCol inner. */
    method LinkCell(i: nat, j: nat)
      requires width > 0 && links.Length == height * width && i < height && j < width
      modifies links
      ensures Index(width, i, j) < links.Length
      ensures links[..] == old(links[..])[Index(width, i, j) :=
                old(links[Index(width, i, j)]) + Neighbours(height, width, Index(width, i, j))]
    {
      var k := Index(width, i, j);
      IndexBounds(height, width, i, j);
      ghost var before := links[..];
      AppendAt(before, k, [], []);
      for dRow := -1 to 2
        invariant links[..] == before[k := before[k] + LinksUpTo(height, width, i, j, 3 * (dRow + 1))]
      {
        for dCol := -1 to 2
          invariant links[..] == before[k := before[k] + LinksUpTo(height, width, i, j, 3 * (dRow + 1) + (dCol + 1))]
        {
          ghost var t := 3 * (dRow + 1) + (dCol + 1);
          ghost var acc := LinksUpTo(height, width, i, j, t);
          assert LinksUpTo(height, width, i, j, t + 1) == acc + OffsetLink(height, width, i, j, dRow, dCol) by {
            assert RowOffset(t) == dRow && ColOffset(t) == dCol;
          }
          LinkOffset(k, i, j, dRow, dCol);
          AppendAt(before, k, acc, OffsetLink(height, width, i, j, dRow, dCol));
        }
      }
      assert Neighbours(height, width, k) == LinksUpTo(height, width, i, j, 9) by {
        IndexDivMod(width, i, j);
      }
    }

    /** Sets the mine flag of cell k. */
    method SetMine(k: nat, isMine: bool)
      requires k < mine.Length
      modifies mine
      ensures mine[..] == old(mine[..])[k := isMine]
    {
      mine[k] := isMine;
    }

    /** Sets the state of cell k. */
    method SetState(k: nat, s: State)
      requires k < state.Length
      modifies state
      ensures state[..] == old(state[..])[k := s]
    {
      state[k] := s;
    }

    /** Places minesToPlace new mines, each on a cell that is neither a mine
        nor revealed. Each accepted random draw is an arbitrary choice among
        the eligible cells; a rejected draw changes nothing and is left out. */
    method ArmMines(minesToPlace: nat)
      requires Shape()
      requires |Eligible(mine[..], state[..])| >= minesToPlace
      modifies mine
      ensures multiset(mine[..])[true] == old(multiset(mine[..])[true]) + minesToPlace
      ensures forall p | 0 <= p < mine.Length :: old(mine[p]) ==> mine[p]
      ensures forall p | 0 <= p < mine.Length :: mine[p] && !old(mine[p]) ==> state[p] != Revealed
    {
      var remaining: nat := minesToPlace;
      while remaining > 0
        invariant remaining <= minesToPlace
        invariant |Eligible(mine[..], state[..])| >= remaining
        invariant multiset(mine[..])[true] == old(multiset(mine[..])[true]) + (minesToPlace - remaining)
        invariant forall p | 0 <= p < mine.Length :: old(mine[p]) ==> mine[p]
        invariant forall p | 0 <= p < mine.Length :: mine[p] && !old(mine[p]) ==> state[p] != Revealed
      {
        EligibleCellExists(height, width, mine[..], state[..]);
        var i: nat, j: nat :| i < height && j < width && Index(width, i, j) in Eligible(mine[..], state[..]);
        var k := Index(width, i, j);
        PlaceMine(mine[..], state[..], k);
        SetMine(k, true);
        remaining := remaining - 1;
      }
    }

    /** Verdict of a left click on revealed cell k: flagged neighbours are
        counted in link order, stopping at the first neighbour that is an
        unflagged mine. */
    method GetChordStatus(k: nat) returns (result: ChordResult)
      requires Valid() && k < height * width
      requires Linked()
      ensures result == ChordStatusOf(state[..], mine[..], Neighbours(height, width, k))
    {
      var neighbours := links[k];
      ghost var st, mi := state[..], mine[..];
      var flaggedNeighbours := 0;
      var mineFound := false;
      var n := 0;
      while n < |neighbours|
        invariant n <= |neighbours|
        invariant flaggedNeighbours == FlagCount(st, neighbours[..n])
        invariant forall x | 0 <= x < n :: !UnflaggedMine(st, mi, neighbours[x])
        invariant !mineFound
      {
        var q := neighbours[n];
        assert q < |st| && st[q] == state[q] && mi[q] == mine[q];
        assert neighbours[..n + 1] == neighbours[..n] + [q];
        if state[q] == Flagged {
          flaggedNeighbours := flaggedNeighbours + 1;
        } else if mine[q] {
          mineFound := true;
          break;
        }
        NoUnflaggedMineNext(st, mi, neighbours, n);
        n := n + 1;
      }
      FirstUnflaggedMineAt(st, mi, neighbours, n);
      if flaggedNeighbours == AdjacentMines(mine[..], neighbours) {
        if mineFound {
          result := NeighbourIsMine;
        } else {
          result := Chordable;
        }
      } else {
        result := NotEnoughFlags;
      }
    }

    /** Right click on cell k. */
    method NextFlagState(k: nat)
      requires Valid() && k < height * width
      modifies state, this`flagsRemaining
      ensures Valid()
      ensures state[..] == old(state[..])[k := NextFlag(old(state[k]))]
      ensures flagsRemaining == old(flagsRemaining) + FlagDelta(old(state[k]))
      ensures NoRevealedMine(old(state[..]), mine[..]) ==> NoRevealedMine(state[..], mine[..])
    {
      match state[k] {
        case Default =>
          state[k] := Flagged;
          flagsRemaining := flagsRemaining - 1;
        case Flagged =>
          state[k] := Possible;
          flagsRemaining := flagsRemaining + 1;
        case Possible =>
          state[k] := Default;
        case Revealed =>
      }
    }

    /** Reveals cell k if it is Default and, when no neighbour holds a mine,
        chords it. The mine flag of k is not consulted. */
    method Reveal(k: nat) returns (ghost order: seq<nat>)
      requires Valid() && k < height * width
      requires Linked()
      modifies state, this`numRevealed
      ensures Valid()
      ensures (state[..], order) == RevealCells(height, width, mine[..], old(state[..]), k)
      ensures numRevealed == old(numRevealed) + |order|
      decreases multiset(state[..])[Default], 1
    {
      if state[k] == Default {
        ghost var s0 := state[..];
        state[k] := Revealed;
        numRevealed := numRevealed + 1;
        assert state[..] == s0[k := Revealed];
        var adjacentMines := AdjacentMines(mine[..], links[k]);
        if adjacentMines > 0 {
          order := [k];
        } else {
          var rest := Chord(k);
          order := [k] + rest;
        }
      } else {
        order := [];
      }
    }

    /** Reveals every neighbour of cell k, in link order. */
    method Chord(k: nat) returns (ghost order: seq<nat>)
      requires Valid() && k < height * width
      requires Linked()
      modifies state, this`numRevealed
      ensures Valid()
      ensures (state[..], order) == ChordCells(height, width, mine[..], old(state[..]), Neighbours(height, width, k))
      ensures numRevealed == old(numRevealed) + |order|
      decreases multiset(state[..])[Default], 2
    {
      var neighbours := links[k];
      order := [];
      for n := 0 to |neighbours|
        invariant Valid()
        invariant (state[..], order) == ChordCells(height, width, mine[..], old(state[..]), neighbours[..n])
        invariant numRevealed == old(numRevealed) + |order|
      {
        assert neighbours[..n + 1][..n] == neighbours[..n];
        var more := Reveal(neighbours[n]);
        order := order + more;
      }
      assert neighbours[..|neighbours|] == neighbours;
    }

    /** Ends the game: the board stops taking clicks. */
    method EndGame()
      modifies this`gameOver
      ensures gameOver
    {
      gameOver := true;
    }

    /** A click on cell t with mouse button `button` (1 left, 3 right). */
    method Update(t: nat, button: int) returns (ghost order: seq<nat>)
      requires Valid() && t < height * width
      requires Linked()
      modifies state, mine, this`numRevealed, this`flagsRemaining, this`gameOver
      ensures Valid()
      // Once the game is over, clicks change nothing.
      ensures old(gameOver) ==>
                gameOver && Frozen(old(state[..]), old(mine[..]), old(numRevealed), old(flagsRemaining))
      // Otherwise the click acts on t, as the button says ...
      ensures !old(gameOver) ==>
                ClickEffect(height, width, t, button,
                            old(state[..]), old(mine[..]), old(numRevealed), old(flagsRemaining),
                            state[..], mine[..], numRevealed, flagsRemaining, order)
      // ... and the game ends when the left click loses it or the win check holds.
      ensures !old(gameOver) ==>
                (gameOver <==> (button == 1 && LeftClickLoses(old(state[..]), old(mine[..]), old(numRevealed), t)) ||
                               AllSafeCellsCounted())
    {
      order := [];
      if !gameOver {
        ghost var s0, m0, r0, f0 := state[..], mine[..], numRevealed, flagsRemaining;
        if button == 1 {
          var tripped;
          tripped, order := LeftClick(t);
          LeftButtonEffect(height, width, t, s0, m0, r0, f0, state[..], mine[..], numRevealed, flagsRemaining, order);
          if tripped {
            return;
          }
        } else if button == 3 {
          NextFlagState(t);
          RightButtonEffect(height, width, t, s0, m0, r0, f0, state[..], mine[..], numRevealed, flagsRemaining);
        } else {
          OtherButtonEffect(height, width, t, button, s0, m0, r0, f0);
        }
        if AllSafeCellsCounted() {
          gameOver := true;
        }
      }
    }

    /** The left click t loses the game: t is a Default mine and it is not
        the first reveal, or t is Revealed and the chord verdict finds an
        unflagged mine. */
    ghost predicate LeftClickLoses(s: seq<State>, m: seq<bool>, revealed: int, t: nat)
      requires |s| == height * width && |m| == height * width && t < height * width
    {
      || (s[t] == Default && m[t] && revealed != 0)
      || (s[t] == Revealed && ChordStatusOf(s, m, Neighbours(height, width, t)) == NeighbourIsMine)
    }

    /** The left-click dispatch on the state of t. tripped is set when t is
        a Default mine and something is already revealed: the game is lost
        and the click handler returns at once, skipping the win check. */
    method LeftClick(t: nat) returns (tripped: bool, ghost order: seq<nat>)
      requires Valid() && t < height * width
      requires Linked()
      modifies state, mine, this`numRevealed, this`gameOver
      ensures Valid()
      ensures LeftClickEffect(height, width, t, old(state[..]), old(mine[..]), old(numRevealed),
                              state[..], mine[..], numRevealed, order)
      ensures tripped <==> old(state[t]) == Default && old(mine[t]) && old(numRevealed) != 0
      ensures gameOver == (old(gameOver) || LeftClickLoses(old(state[..]), old(mine[..]), old(numRevealed), t))
    {
      ghost var s0, m0, r0 := state[..], mine[..], numRevealed;
      tripped := false;
      order := [];
      if state[t] == Default {
        if mine[t] && numRevealed == 0 {
          order := FirstClickAsWritten(t);
          FirstClickEffect(height, width, t, s0, m0, r0, state[..], mine[..], numRevealed, order);
        } else if mine[t] {
          EndGame();
          tripped := true;
        } else {
          order := Reveal(t);
          RevealEffect(height, width, t, s0, m0, r0, state[..], mine[..], numRevealed, order);
        }
      } else if state[t] == Revealed {
        order := ChordClick(t);
        ChordEffect(height, width, t, s0, m0, r0, state[..], mine[..], numRevealed, order);
      }
    }

    /** Left click on a Default mine while nothing is revealed, as written:
        the mine is cleared, one mine is placed on a cell that is neither a
        mine nor revealed (possibly t again), and t is revealed. A mine is
        revealed exactly when the relocated mine lands on t. */
    method FirstClickAsWritten(t: nat) returns (ghost order: seq<nat>)
      requires Valid() && t < height * width
      requires Linked()
      requires state[t] == Default && mine[t] && numRevealed == 0
      modifies state, mine, this`numRevealed
      ensures Valid()
      ensures forall p | 0 <= p < mine.Length && p != t :: old(mine[p]) ==> mine[p]
      ensures (state[..], order) == RevealCells(height, width, mine[..], old(state[..]), t)
      ensures state[t] == Revealed && numRevealed == |order|
      ensures NoRevealedMine(state[..], mine[..]) <==> !mine[t]
    {
      assert Revealed !in multiset(state[..]);
      SetMine(t, false);
      assert t in Eligible(mine[..], state[..]);
      ArmMines(1);
      order := Reveal(t);
      FirstClickOutcome(height, width, mine[..], old(state[..]), t);
    }

    /** Left click on a Default mine while nothing is revealed, with the
        relocation done first: one mine is placed on a cell that is neither a
        mine nor revealed, which excludes t, then the mine of t is cleared and
        t is revealed. No mine is revealed. */
    method FirstClick(t: nat) returns (ghost order: seq<nat>)
      requires Valid() && t < height * width
      requires Linked()
      requires state[t] == Default && mine[t] && numRevealed == 0
      modifies state, mine, this`numRevealed
      ensures Valid()
      ensures !mine[t] && forall p | 0 <= p < mine.Length && p != t :: old(mine[p]) ==> mine[p]
      ensures (state[..], order) == RevealCells(height, width, mine[..], old(state[..]), t)
      ensures state[t] == Revealed && numRevealed == |order|
      ensures NoRevealedMine(state[..], mine[..])
    {
      assert Revealed !in multiset(state[..]);
      RelocationAvoidsTrigger(mine[..], state[..], t);
      ArmMines(1);
      ClearMine(mine[..], t);
      SetMine(t, false);
      order := Reveal(t);
      FirstClickOutcome(height, width, mine[..], old(state[..]), t);
    }

    /** Left click on a Revealed cell: chord it, lose, or do nothing, as the
        chord verdict says. */
    method ChordClick(t: nat) returns (ghost order: seq<nat>)
      requires Valid() && t < height * width && state[t] == Revealed
      requires Linked()
      modifies state, this`numRevealed, this`gameOver
      ensures Valid()
      ensures var verdict := ChordStatusOf(old(state[..]), mine[..], Neighbours(height, width, t));
              && (verdict == Chordable ==>
                    && (state[..], order) ==
                       ChordCells(height, width, mine[..], old(state[..]), Neighbours(height, width, t))
                    && numRevealed == old(numRevealed) + |order| && gameOver == old(gameOver))
              && (verdict == NeighbourIsMine ==>
                    gameOver && state[..] == old(state[..]) && numRevealed == old(numRevealed))
              && (verdict == NotEnoughFlags ==>
                    && state[..] == old(state[..]) && numRevealed == old(numRevealed)
                    && gameOver == old(gameOver))
    {
      order := [];
      var result := GetChordStatus(t);
      if result == Chordable {
        order := Chord(t);
      } else if result == NeighbourIsMine {
        EndGame();
      }
    }

    /** Clears every cell, places numMines mines afresh and restarts the game. */
    method Reset()
      requires Shape()
      modifies this, state, mine
      ensures Valid()
      ensures forall p | 0 <= p < state.Length :: state[p] == Default
      ensures numRevealed == 0 && flagsRemaining == numMines && !gameOver
    {
      for p := 0 to state.Length
        invariant forall q | 0 <= q < p :: !mine[q] && state[q] == Default
      {
        SetMine(p, false);
        SetState(p, Default);
      }
      EligibleCount(mine[..], state[..]);
      ArmMines(numMines);
      gameOver := false;
      numRevealed := 0;
      flagsRemaining := numMines;
      assert Revealed !in multiset(state[..]) && Flagged !in multiset(state[..]);
    }
  }
}
