/**
 * Geometry of the board: cells are stored row-major, cell (r, c) of an
 * h-by-w board at flat index r * w + c, and each cell is linked to the
 * cells around it in the order the board constructor's nested loops visit
 * the offsets (dRow outer, dCol inner, both running -1, 0, 1).
 */
module Grid {

  /** Flat index of cell (r, c) on a board of width w. */
  function Index(w: nat, r: int, c: int): int {
    r * w + c
  }

  /** The loops visit offset (dRow, dCol) as slot 3 * (dRow + 1) + (dCol + 1);
      these two functions recover the offsets of slot t in 0..8. */
  function RowOffset(t: int): int {
    if t < 3 then -1 else if t < 6 then 0 else 1
  }

  function ColOffset(t: int): int {
    t - 3 * (RowOffset(t) + 1) - 1
  }

  /** The guard of the linking loop: (dRow, dCol) is not (0, 0) and
      (i + dRow, j + dCol) lies on the board. */
  predicate OnBoardOffset(h: nat, w: nat, i: int, j: int, dRow: int, dCol: int) {
    (dRow != 0 || dCol != 0) &&
    (i + dRow >= 0 && j + dCol >= 0 && i + dRow < h && j + dCol < w)
  }

  /** The link one pass of the loops adds to cell (i, j) for offset (dRow, dCol). */
  function OffsetLink(h: nat, w: nat, i: int, j: int, dRow: int, dCol: int): (r: seq<nat>)
    ensures |r| <= 1 && (|r| == 1 <==> OnBoardOffset(h, w, i, j, dRow, dCol))
    ensures forall x | 0 <= x < |r| :: r[x] < h * w
  {
    if OnBoardOffset(h, w, i, j, dRow, dCol) then
      IndexBounds(h, w, i + dRow, j + dCol);
      [Index(w, i + dRow, j + dCol)]
    else []
  }

  /** The links cell (i, j) holds after the loops have visited the first t slots. */
  function LinksUpTo(h: nat, w: nat, i: int, j: int, t: nat): (r: seq<nat>)
    requires t <= 9
    ensures |r| <= if t > 4 then t - 1 else t
    ensures forall i | 0 <= i < |r| :: r[i] < h * w
  {
    if t == 0 then []
    else LinksUpTo(h, w, i, j, t - 1) + OffsetLink(h, w, i, j, RowOffset(t - 1), ColOffset(t - 1))
  }

  /** The neighbour list of cell p, as the board constructor builds it. */
  function Neighbours(h: nat, w: nat, p: nat): (r: seq<nat>)
    ensures |r| <= 8
    ensures forall i | 0 <= i < |r| :: r[i] < h * w
  {
    if w == 0 then [] else LinksUpTo(h, w, p / w, p % w, 9)
  }

  /** Cells p and q are distinct cells of the board whose rows and whose
      columns differ by at most one. */
  predicate Adjacent(h: nat, w: nat, p: nat, q: nat) {
    w > 0 && p < h * w && q < h * w && p != q &&
    -1 <= q / w - p / w <= 1 && -1 <= q % w - p % w <= 1
  }

  /** Slot in which the linking loops of cell p reach cell q. */
  function SlotOf(w: nat, p: nat, q: nat): int
    requires w > 0
  {
    3 * (q / w - p / w + 1) + (q % w - p % w + 1)
  }

  predicate Increasing(s: seq<nat>) {
    forall a, b | 0 <= a < b < |s| :: s[a] < s[b]
  }

  // ---------------------------------------------------------------------
  // Arithmetic of the row-major layout

  lemma IndexBounds(h: nat, w: nat, r: int, c: int)
    requires 0 <= r < h && 0 <= c < w
    ensures 0 <= Index(w, r, c) < h * w
  {
    assert r * w >= 0;
    assert (r + 1) * w <= h * w by { MulMonotone(r + 1, h, w); }
  }

  lemma MulMonotone(a: int, b: int, w: nat)
    requires a <= b
    ensures a * w <= b * w
  {
    assert b * w - a * w == (b - a) * w;
  }

  lemma IndexDivMod(w: nat, r: int, c: int)
    requires w > 0 && 0 <= c < w
    ensures Index(w, r, c) / w == r && Index(w, r, c) % w == c
  {
    var x := r * w + c;
    var d, m := x / w, x % w;
    assert (r - d) * w == m - c;
    if r - d >= 1 {
      MulMonotone(1, r - d, w);
    } else if r - d <= -1 {
      MulMonotone(r - d, -1, w);
    }
  }

  lemma DivModIndex(w: nat, q: int)
    requires w > 0
    ensures q == Index(w, q / w, q % w)
  {
  }

  lemma RowBound(h: nat, w: nat, q: nat)
    requires w > 0 && q < h * w
    ensures q / w < h
  {
    if q / w >= h {
      MulMonotone(h, q / w, w);
    }
  }

  /** Row-major order is lexicographic order on (row, column). */
  lemma RowMajorLess(w: nat, r1: int, c1: int, r2: int, c2: int)
    requires 0 <= c1 < w && 0 <= c2 < w
    requires r1 < r2 || (r1 == r2 && c1 < c2)
    ensures Index(w, r1, c1) < Index(w, r2, c2)
  {
    if r1 < r2 {
      MulMonotone(r1 + 1, r2, w);
    }
  }

  // ---------------------------------------------------------------------
  // The neighbour relation

  /** Slot t of cell p links exactly the adjacent cell whose slot is t. */
  lemma SlotLink(h: nat, w: nat, p: nat, t: int, q: nat)
    requires w > 0 && p < h * w && 0 <= t < 9
    ensures (OnBoardOffset(h, w, p / w, p % w, RowOffset(t), ColOffset(t)) &&
             q == Index(w, p / w + RowOffset(t), p % w + ColOffset(t)))
            <==> (Adjacent(h, w, p, q) && SlotOf(w, p, q) == t)
  {
    if OnBoardOffset(h, w, p / w, p % w, RowOffset(t), ColOffset(t)) &&
       q == Index(w, p / w + RowOffset(t), p % w + ColOffset(t)) {
      SlotLinkAdjacent(h, w, p, t, q);
    }
    if Adjacent(h, w, p, q) && SlotOf(w, p, q) == t {
      AdjacentSlotLink(h, w, p, t, q);
    }
  }

  lemma SlotLinkAdjacent(h: nat, w: nat, p: nat, t: int, q: nat)
    requires w > 0 && p < h * w && 0 <= t < 9
    requires OnBoardOffset(h, w, p / w, p % w, RowOffset(t), ColOffset(t))
    requires q == Index(w, p / w + RowOffset(t), p % w + ColOffset(t))
    ensures Adjacent(h, w, p, q) && SlotOf(w, p, q) == t
  {
    var i, j := p / w, p % w;
    var dRow, dCol := RowOffset(t), ColOffset(t);
    IndexDivMod(w, i + dRow, j + dCol);
    IndexBounds(h, w, i + dRow, j + dCol);
    assert q / w == i + dRow && q % w == j + dCol;
  }

  lemma AdjacentSlotLink(h: nat, w: nat, p: nat, t: int, q: nat)
    requires w > 0 && p < h * w && 0 <= t < 9
    requires Adjacent(h, w, p, q) && SlotOf(w, p, q) == t
    ensures OnBoardOffset(h, w, p / w, p % w, RowOffset(t), ColOffset(t))
    ensures q == Index(w, p / w + RowOffset(t), p % w + ColOffset(t))
  {
    var i, j := p / w, p % w;
    var dRow, dCol := q / w - i, q % w - j;
    assert RowOffset(t) == dRow && ColOffset(t) == dCol;
    RowBound(h, w, q);
    DivModIndex(w, q);
    DivModIndex(w, p);
    assert dRow != 0 || dCol != 0;
  }

  lemma {:induction false} LinksUpToMembers(h: nat, w: nat, p: nat, t: nat, q: nat)
    requires w > 0 && p < h * w && t <= 9
    ensures q in LinksUpTo(h, w, p / w, p % w, t) <==> Adjacent(h, w, p, q) && SlotOf(w, p, q) < t
  {
    if t > 0 {
      LinksUpToMembers(h, w, p, t - 1, q);
      SlotLink(h, w, p, t - 1, q);
    }
  }

  lemma {:induction false} LinksUpToIncreasing(h: nat, w: nat, p: nat, t: nat)
    requires w > 0 && p < h * w && t <= 9
    ensures Increasing(LinksUpTo(h, w, p / w, p % w, t))
  {
    if t > 0 {
      var i, j := p / w, p % w;
      var prev := LinksUpTo(h, w, i, j, t - 1);
      LinksUpToIncreasing(h, w, p, t - 1);
      var dRow, dCol := RowOffset(t - 1), ColOffset(t - 1);
      if OnBoardOffset(h, w, i, j, dRow, dCol) {
        var x := Index(w, i + dRow, j + dCol);
        assert 0 <= x by {
          RowBound(h, w, p);
          IndexBounds(h, w, i + dRow, j + dCol);
        }
        forall a | 0 <= a < |prev|
          ensures prev[a] < x
        {
          EarlierSlotSmaller(h, w, p, t - 1, prev[a]);
        }
        AppendGreater(prev, x);
        assert LinksUpTo(h, w, i, j, t) == prev + [x];
      }
    }
  }

  /** Appending an element above every element keeps a sequence increasing. */
  lemma AppendGreater(s: seq<nat>, x: int)
    requires Increasing(s) && forall a | 0 <= a < |s| :: s[a] < x
    requires 0 <= x
    ensures Increasing(s + [x])
  {
  }

  /** A cell linked in an earlier slot has a smaller index than the cell
      linked in slot t. */
  lemma EarlierSlotSmaller(h: nat, w: nat, p: nat, t: nat, y: nat)
    requires w > 0 && p < h * w && t < 9
    requires OnBoardOffset(h, w, p / w, p % w, RowOffset(t), ColOffset(t))
    requires y in LinksUpTo(h, w, p / w, p % w, t)
    ensures y < Index(w, p / w + RowOffset(t), p % w + ColOffset(t))
  {
    var x := Index(w, p / w + RowOffset(t), p % w + ColOffset(t));
    assert 0 <= x by {
      IndexBounds(h, w, p / w + RowOffset(t), p % w + ColOffset(t));
    }
    assert Adjacent(h, w, p, x) && SlotOf(w, p, x) == t by {
      SlotLink(h, w, p, t, x);
    }
    assert Adjacent(h, w, p, y) && SlotOf(w, p, y) < t by {
      LinksUpToMembers(h, w, p, t, y);
    }
    SlotOrder(w, p, y, x);
  }

  /** Slot order agrees with index order among the cells around p. */
  lemma SlotOrder(w: nat, p: nat, y: nat, x: nat)
    requires w > 0 && SlotOf(w, p, y) < SlotOf(w, p, x)
    requires -1 <= y / w - p / w <= 1 && -1 <= y % w - p % w <= 1
    requires -1 <= x / w - p / w <= 1 && -1 <= x % w - p % w <= 1
    ensures y < x
  {
    var ry, cy, rx, cx := y / w, y % w, x / w, x % w;
    assert ry < rx || (ry == rx && cy < cx);
    RowMajorLess(w, ry, cy, rx, cx);
    DivModIndex(w, y);
    DivModIndex(w, x);
  }

  /** Cell p is linked to exactly the in-bounds cells at row and column
      offsets in {-1, 0, 1} other than (0, 0). */
  lemma NeighboursExactly(h: nat, w: nat, p: nat)
    requires w > 0 && p < h * w
    ensures forall q :: q in Neighbours(h, w, p) <==> Adjacent(h, w, p, q)
  {
    forall q
      ensures q in Neighbours(h, w, p) <==> Adjacent(h, w, p, q)
    {
      LinksUpToMembers(h, w, p, 9, q);
    }
  }

  /** The neighbour list is in increasing index order, so each neighbour
      appears once and the list is the row-major enumeration of the
      adjacent cells. */
  lemma NeighboursIncreasing(h: nat, w: nat, p: nat)
    requires w > 0 && p < h * w
    ensures Increasing(Neighbours(h, w, p))
    ensures forall a, b | 0 <= a < b < |Neighbours(h, w, p)| ::
              Neighbours(h, w, p)[a] != Neighbours(h, w, p)[b]
  {
    LinksUpToIncreasing(h, w, p, 9);
  }

  /** The neighbour relation is symmetric and irreflexive. */
  lemma NeighboursSymmetric(h: nat, w: nat, p: nat, q: nat)
    requires w > 0 && p < h * w && q < h * w
    ensures q in Neighbours(h, w, p) <==> p in Neighbours(h, w, q)
    ensures p !in Neighbours(h, w, p)
  {
    NeighboursExactly(h, w, p);
    NeighboursExactly(h, w, q);
  }

  // ---------------------------------------------------------------------
  // Neighbour lists of particular cells

  /** An increasing list is fixed by its members. */
  lemma {:induction false} IncreasingUnique(s: seq<nat>, t: seq<nat>)
    requires Increasing(s) && Increasing(t)
    requires forall q :: q in s <==> q in t
    ensures s == t
    decreases |s|
  {
    if t != [] {
      assert t[0] in s;
    }
    if s != [] {
      assert s[0] in t;
      assert t[0] in s;
      assert s[0] == t[0] by {
        var i :| 0 <= i < |s| && s[i] == t[0];
        var j :| 0 <= j < |t| && t[j] == s[0];
        assert s[0] <= s[i] && t[0] <= t[j];
      }
      forall q
        ensures q in s[1..] <==> q in t[1..]
      {
        if q in s[1..] {
          var i :| 1 <= i < |s| && s[i] == q;
          assert q != s[0] && q in t;
          var j :| 0 <= j < |t| && t[j] == q;
          assert j != 0 && t[1..][j - 1] == q;
        }
        if q in t[1..] {
          var j :| 1 <= j < |t| && t[j] == q;
          assert q != t[0] && q in s;
          var i :| 0 <= i < |s| && s[i] == q;
          assert i != 0 && s[1..][i - 1] == q;
        }
      }
      IncreasingUnique(s[1..], t[1..]);
    }
  }

  /** The cells adjacent to the middle cell of a 1 x 3 board. */
  lemma MiddleAdjacent(h: nat, w: nat, p: nat, q: nat)
    requires h == 1 && w == 3 && p == 1
    ensures Adjacent(h, w, p, q) <==> q in [0, 2]
  {
  }

  /** The cells adjacent to the top-left cell of a 2 x 2 board. */
  lemma CornerAdjacent(h: nat, w: nat, p: nat, q: nat)
    requires h == 2 && w == 2 && p == 0
    ensures Adjacent(h, w, p, q) <==> q in [1, 2, 3]
  {
  }

  /** A cell's neighbour list is the increasing list of its adjacent cells. */
  lemma NeighboursByMembers(h: nat, w: nat, p: nat, t: seq<nat>)
    requires w > 0 && p < h * w && Increasing(t)
    requires forall q :: Adjacent(h, w, p, q) <==> q in t
    ensures Neighbours(h, w, p) == t
  {
    NeighboursExactly(h, w, p);
    NeighboursIncreasing(h, w, p);
    IncreasingUnique(Neighbours(h, w, p), t);
  }

  /** The list of the middle cell of a 1 x 3 board: its left and right cells. */
  lemma MiddleNeighbours(h: nat, w: nat, p: nat)
    requires h == 1 && w == 3 && p == 1
    ensures Neighbours(h, w, p) == [0, 2]
  {
    forall q
      ensures Adjacent(h, w, p, q) <==> q in [0, 2]
    {
      MiddleAdjacent(h, w, p, q);
    }
    NeighboursByMembers(h, w, p, [0, 2]);
  }

  /** The list of the top-left cell of a 2 x 2 board: the three other cells. */
  lemma CornerNeighbours(h: nat, w: nat, p: nat)
    requires h == 2 && w == 2 && p == 0
    ensures Neighbours(h, w, p) == [1, 2, 3]
  {
    forall q
      ensures Adjacent(h, w, p, q) <==> q in [1, 2, 3]
    {
      CornerAdjacent(h, w, p, q);
    }
    NeighboursByMembers(h, w, p, [1, 2, 3]);
  }
}
