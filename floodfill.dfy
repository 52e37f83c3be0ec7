/**
 * What a reveal (and a chord, which reveals every neighbour in turn) does
 * to the board's states, stated as a relation between the states before
 * (s0) and after (s1), the mine flags m (which a reveal never changes), the
 * cells the reveal starts from (roots) and the order in which it turned
 * cells from Default to Revealed (order).
 */
module FloodFill {
  import opened Grid
  import opened Cell

  /** Cell p has no mine among its neighbours, so revealing it spreads. */
  ghost predicate Blank(h: nat, w: nat, m: seq<bool>, p: nat)
    requires |m| == h * w
  {
    AdjacentMines(m, Neighbours(h, w, p)) == 0
  }

  /** s1 differs from s0 only where a Default cell became Revealed. */
  ghost predicate OnlyReveals(s0: seq<State>, s1: seq<State>) {
    |s0| == |s1| &&
    forall p | 0 <= p < |s0| && s0[p] != s1[p] :: s0[p] == Default && s1[p] == Revealed
  }

  ghost predicate Distinct(o: seq<nat>) {
    forall a, b | 0 <= a < b < |o| :: o[a] != o[b]
  }

  /** The i-th revealed cell neighbours an earlier revealed blank cell. */
  ghost predicate Spread(h: nat, w: nat, m: seq<bool>, o: seq<nat>, i: nat)
    requires |m| == h * w && i < |o|
  {
    exists j | 0 <= j < i :: Blank(h, w, m, o[j]) && o[i] in Neighbours(h, w, o[j])
  }

  /** No neighbour of p is still Default in s. */
  ghost predicate Settled(h: nat, w: nat, s: seq<State>, p: nat)
    requires |s| == h * w
  {
    forall q | q in Neighbours(h, w, p) :: s[q] != Default
  }

  /** Revealing every cell of roots in turn, starting from s0, can end in s1,
      having revealed the cells of order in that order: only Default cells
      become Revealed, each once; each is a root or a neighbour of an earlier
      revealed blank cell; afterwards no root and no neighbour of a revealed
      blank cell is Default. */
  ghost predicate Flood(h: nat, w: nat, m: seq<bool>, s0: seq<State>, s1: seq<State>,
                        roots: seq<nat>, order: seq<nat>)
  {
    && |m| == h * w && |s0| == h * w
    && OnlyReveals(s0, s1)
    && (forall r | r in roots :: r < h * w && s1[r] != Default)
    && Distinct(order)
    && (forall i | 0 <= i < |order| :: order[i] < h * w && s0[order[i]] != s1[order[i]])
    && (forall p | 0 <= p < h * w && s0[p] != s1[p] :: p in order)
    && (forall i | 0 <= i < |order| :: order[i] in roots || Spread(h, w, m, order, i))
    && (forall i | 0 <= i < |order| && Blank(h, w, m, order[i]) :: Settled(h, w, s1, order[i]))
  }

  // ---------------------------------------------------------------------
  // The steps of the recursion

  /** Nothing to do: no roots. */
  lemma FloodNothing(h: nat, w: nat, m: seq<bool>, s0: seq<State>)
    requires |m| == h * w && |s0| == h * w
    ensures Flood(h, w, m, s0, s0, [], [])
  {
  }

  /** Revealing a cell that is not Default changes nothing. */
  lemma FloodSkip(h: nat, w: nat, m: seq<bool>, s0: seq<State>, k: nat)
    requires |m| == h * w && |s0| == h * w && k < h * w && s0[k] != Default
    ensures Flood(h, w, m, s0, s0, [k], [])
  {
  }

  /** Revealing a Default cell with a mine beside it reveals that cell alone. */
  lemma FloodNumbered(h: nat, w: nat, m: seq<bool>, s0: seq<State>, k: nat)
    requires |m| == h * w && |s0| == h * w && k < h * w && s0[k] == Default
    requires !Blank(h, w, m, k)
    ensures Flood(h, w, m, s0, s0[k := Revealed], [k], [k])
  {
    var s1 := s0[k := Revealed];
    assert forall p | 0 <= p < h * w && s0[p] != s1[p] :: p == k;
  }

  /** Revealing a blank Default cell reveals it and then chords it. */
  lemma FloodBlank(h: nat, w: nat, m: seq<bool>, s0: seq<State>, s2: seq<State>,
                   k: nat, o: seq<nat>)
    requires |m| == h * w && |s0| == h * w && k < h * w && s0[k] == Default
    requires Blank(h, w, m, k)
    requires Flood(h, w, m, s0[k := Revealed], s2, Neighbours(h, w, k), o)
    ensures Flood(h, w, m, s0, s2, [k], [k] + o)
  {
    BlankReached(h, w, m, s0, s2, k, o);
    BlankChanged(h, w, m, s0, s2, k, o);
    BlankSettled(h, w, m, s0, s2, k, o);
  }

  lemma BlankReached(h: nat, w: nat, m: seq<bool>, s0: seq<State>, s2: seq<State>,
                     k: nat, o: seq<nat>)
    requires |m| == h * w && |s0| == h * w && k < h * w && s0[k] == Default
    requires Blank(h, w, m, k)
    requires Flood(h, w, m, s0[k := Revealed], s2, Neighbours(h, w, k), o)
    ensures forall i | 0 <= i < |[k] + o| :: ([k] + o)[i] in [k] || Spread(h, w, m, [k] + o, i)
  {
    var order := [k] + o;
    forall i | 0 <= i < |order|
      ensures order[i] in [k] || Spread(h, w, m, order, i)
    {
      if i > 0 {
        if o[i - 1] in Neighbours(h, w, k) {
          assert Blank(h, w, m, order[0]) && order[i] in Neighbours(h, w, order[0]);
        } else {
          assert Spread(h, w, m, o, i - 1);
          var j :| 0 <= j < i - 1 && Blank(h, w, m, o[j]) && o[i - 1] in Neighbours(h, w, o[j]);
          assert order[j + 1] == o[j];
        }
      }
    }
  }

  lemma BlankChanged(h: nat, w: nat, m: seq<bool>, s0: seq<State>, s2: seq<State>,
                     k: nat, o: seq<nat>)
    requires |m| == h * w && |s0| == h * w && k < h * w && s0[k] == Default
    requires Flood(h, w, m, s0[k := Revealed], s2, Neighbours(h, w, k), o)
    ensures OnlyReveals(s0, s2) && Distinct([k] + o)
    ensures forall i | 0 <= i < |[k] + o| ::
              ([k] + o)[i] < h * w && s0[([k] + o)[i]] != s2[([k] + o)[i]]
    ensures forall p | 0 <= p < h * w && s0[p] != s2[p] :: p in [k] + o
  {
    var s1 := s0[k := Revealed];
    var order := [k] + o;
    forall a, b | 0 <= a < b < |order|
      ensures order[a] != order[b]
    {
      if a == 0 {
        assert s1[order[b]] != s2[order[b]];
      }
    }
    forall p | 0 <= p < h * w && s0[p] != s2[p]
      ensures p in order
    {
      if p != k {
        assert s1[p] != s2[p];
      }
    }
  }

  lemma BlankSettled(h: nat, w: nat, m: seq<bool>, s0: seq<State>, s2: seq<State>,
                     k: nat, o: seq<nat>)
    requires |m| == h * w && |s0| == h * w && k < h * w && s0[k] == Default
    requires Blank(h, w, m, k)
    requires Flood(h, w, m, s0[k := Revealed], s2, Neighbours(h, w, k), o)
    ensures s2[k] != Default
    ensures forall i | 0 <= i < |[k] + o| && Blank(h, w, m, ([k] + o)[i]) ::
              Settled(h, w, s2, ([k] + o)[i])
  {
    var order := [k] + o;
    forall i | 0 <= i < |order| && Blank(h, w, m, order[i])
      ensures Settled(h, w, s2, order[i])
    {
      if i == 0 {
        forall q | q in Neighbours(h, w, k)
          ensures s2[q] != Default
        {
        }
      } else {
        assert order[i] == o[i - 1];
      }
    }
  }

  /** Revealing the roots one after the other: a flood from roots followed by
      a flood from r is a flood from roots + [r]. */
  lemma FloodAppend(h: nat, w: nat, m: seq<bool>, s0: seq<State>, s1: seq<State>,
                    s2: seq<State>, roots: seq<nat>, r: nat, o1: seq<nat>, o2: seq<nat>)
    requires Flood(h, w, m, s0, s1, roots, o1)
    requires Flood(h, w, m, s1, s2, [r], o2)
    ensures Flood(h, w, m, s0, s2, roots + [r], o1 + o2)
  {
    AppendReached(h, w, m, s0, s1, s2, roots, r, o1, o2);
    AppendChanged(h, w, m, s0, s1, s2, roots, r, o1, o2);
    AppendSettled(h, w, m, s0, s1, s2, roots, r, o1, o2);
  }

  lemma AppendReached(h: nat, w: nat, m: seq<bool>, s0: seq<State>, s1: seq<State>,
                      s2: seq<State>, roots: seq<nat>, r: nat, o1: seq<nat>, o2: seq<nat>)
    requires Flood(h, w, m, s0, s1, roots, o1)
    requires Flood(h, w, m, s1, s2, [r], o2)
    ensures forall i | 0 <= i < |o1 + o2| ::
              (o1 + o2)[i] in roots + [r] || Spread(h, w, m, o1 + o2, i)
  {
    forall i | 0 <= i < |o1 + o2|
      ensures (o1 + o2)[i] in roots + [r] || Spread(h, w, m, o1 + o2, i)
    {
      if i < |o1| {
        ReachedEarly(h, w, m, roots, r, o1, o2, i);
      } else {
        ReachedLate(h, w, m, roots, r, o1, o2, i);
      }
    }
  }

  /** A cell of the first flood is reached as before. */
  lemma ReachedEarly(h: nat, w: nat, m: seq<bool>, roots: seq<nat>, r: nat,
                     o1: seq<nat>, o2: seq<nat>, i: nat)
    requires |m| == h * w && i < |o1|
    requires o1[i] in roots || Spread(h, w, m, o1, i)
    ensures (o1 + o2)[i] in roots + [r] || Spread(h, w, m, o1 + o2, i)
  {
    var order := o1 + o2;
    assert order[i] == o1[i];
    if o1[i] !in roots {
      var j :| 0 <= j < i && Blank(h, w, m, o1[j]) && o1[i] in Neighbours(h, w, o1[j]);
      assert order[j] == o1[j];
    }
  }

  /** A cell of the second flood is r or is reached from an earlier cell of
      the second flood. */
  lemma ReachedLate(h: nat, w: nat, m: seq<bool>, roots: seq<nat>, r: nat,
                    o1: seq<nat>, o2: seq<nat>, i: nat)
    requires |m| == h * w && |o1| <= i < |o1| + |o2|
    requires o2[i - |o1|] == r || Spread(h, w, m, o2, i - |o1|)
    ensures (o1 + o2)[i] in roots + [r] || Spread(h, w, m, o1 + o2, i)
  {
    var order, k := o1 + o2, i - |o1|;
    assert order[i] == o2[k];
    if o2[k] != r {
      var j :| 0 <= j < k && Blank(h, w, m, o2[j]) && o2[k] in Neighbours(h, w, o2[j]);
      assert order[|o1| + j] == o2[j];
    }
  }

  lemma AppendChanged(h: nat, w: nat, m: seq<bool>, s0: seq<State>, s1: seq<State>,
                      s2: seq<State>, roots: seq<nat>, r: nat, o1: seq<nat>, o2: seq<nat>)
    requires Flood(h, w, m, s0, s1, roots, o1)
    requires Flood(h, w, m, s1, s2, [r], o2)
    ensures OnlyReveals(s0, s2) && Distinct(o1 + o2)
    ensures forall i | 0 <= i < |o1 + o2| ::
              (o1 + o2)[i] < h * w && s0[(o1 + o2)[i]] != s2[(o1 + o2)[i]]
    ensures forall p | 0 <= p < h * w && s0[p] != s2[p] :: p in o1 + o2
  {
    var order := o1 + o2;
    forall a, b | 0 <= a < b < |order|
      ensures order[a] != order[b]
    {
      if a < |o1| <= b {
        assert s1[order[a]] == Revealed;
        assert s1[order[b - |o1| + |o1|]] == s1[o2[b - |o1|]] == Default;
      }
    }
    forall i | 0 <= i < |order|
      ensures order[i] < h * w && s0[order[i]] != s2[order[i]]
    {
      if i < |o1| {
        assert s1[order[i]] == Revealed;
      } else {
        assert order[i] == o2[i - |o1|];
      }
    }
    forall p | 0 <= p < h * w && s0[p] != s2[p]
      ensures p in order
    {
      if s0[p] != s1[p] {
        assert p in o1;
      } else {
        assert p in o2;
      }
    }
  }

  lemma AppendSettled(h: nat, w: nat, m: seq<bool>, s0: seq<State>, s1: seq<State>,
                      s2: seq<State>, roots: seq<nat>, r: nat, o1: seq<nat>, o2: seq<nat>)
    requires Flood(h, w, m, s0, s1, roots, o1)
    requires Flood(h, w, m, s1, s2, [r], o2)
    ensures forall q | q in roots + [r] :: q < h * w && s2[q] != Default
    ensures forall i | 0 <= i < |o1 + o2| && Blank(h, w, m, (o1 + o2)[i]) ::
              Settled(h, w, s2, (o1 + o2)[i])
  {
    var order := o1 + o2;
    forall i | 0 <= i < |order| && Blank(h, w, m, order[i])
      ensures Settled(h, w, s2, order[i])
    {
      if i < |o1| {
        assert Settled(h, w, s1, o1[i]);
      } else {
        assert order[i] == o2[i - |o1|];
      }
    }
  }

  // ---------------------------------------------------------------------
  // The reveal recursion as functions

  /** Revealing cell k on states s: a Default cell becomes Revealed and, when
      no neighbour holds a mine, its neighbours are revealed in turn. The
      result is the new states and the cells revealed, in order. */
  function RevealCells(h: nat, w: nat, m: seq<bool>, s: seq<State>, k: nat): (r: (seq<State>, seq<nat>))
    requires |m| == h * w && |s| == h * w && k < h * w
    ensures |r.0| == |s|
    ensures multiset(r.0)[Default] == multiset(s)[Default] - |r.1|
    ensures multiset(r.0)[Revealed] == multiset(s)[Revealed] + |r.1|
    ensures multiset(r.0)[Flagged] == multiset(s)[Flagged]
    decreases multiset(s)[Default], 1
  {
    if s[k] != Default then (s, [])
    else
      var s1 := s[k := Revealed];
      if AdjacentMines(m, Neighbours(h, w, k)) > 0 then (s1, [k])
      else
        var (s2, o) := ChordCells(h, w, m, s1, Neighbours(h, w, k));
        (s2, [k] + o)
  }

  /** Revealing the cells of ns one after the other. */
  function ChordCells(h: nat, w: nat, m: seq<bool>, s: seq<State>, ns: seq<nat>): (r: (seq<State>, seq<nat>))
    requires |m| == h * w && |s| == h * w && InRange(ns, h * w)
    ensures |r.0| == |s|
    ensures multiset(r.0)[Default] == multiset(s)[Default] - |r.1|
    ensures multiset(r.0)[Revealed] == multiset(s)[Revealed] + |r.1|
    ensures multiset(r.0)[Flagged] == multiset(s)[Flagged]
    decreases multiset(s)[Default], 2, |ns|
  {
    if ns == [] then (s, [])
    else
      var (s1, o1) := ChordCells(h, w, m, s, ns[..|ns| - 1]);
      var (s2, o2) := RevealCells(h, w, m, s1, ns[|ns| - 1]);
      (s2, o1 + o2)
  }

  /** A reveal is a flood from the revealed cell. */
  lemma {:induction false} RevealFloods(h: nat, w: nat, m: seq<bool>, s: seq<State>, k: nat)
    requires |m| == h * w && |s| == h * w && k < h * w
    ensures Flood(h, w, m, s, RevealCells(h, w, m, s, k).0, [k], RevealCells(h, w, m, s, k).1)
    decreases multiset(s)[Default], 1
  {
    if s[k] != Default {
      FloodSkip(h, w, m, s, k);
    } else if AdjacentMines(m, Neighbours(h, w, k)) > 0 {
      FloodNumbered(h, w, m, s, k);
    } else {
      var s1 := s[k := Revealed];
      ChordFloods(h, w, m, s1, Neighbours(h, w, k));
      var (s2, o) := ChordCells(h, w, m, s1, Neighbours(h, w, k));
      FloodBlank(h, w, m, s, s2, k, o);
    }
  }

  /** A chord is a flood from the chorded cells. */
  lemma {:induction false} ChordFloods(h: nat, w: nat, m: seq<bool>, s: seq<State>, ns: seq<nat>)
    requires |m| == h * w && |s| == h * w && InRange(ns, h * w)
    ensures Flood(h, w, m, s, ChordCells(h, w, m, s, ns).0, ns, ChordCells(h, w, m, s, ns).1)
    decreases multiset(s)[Default], 2, |ns|
  {
    if ns == [] {
      FloodNothing(h, w, m, s);
    } else {
      var init, last := ns[..|ns| - 1], ns[|ns| - 1];
      assert ns == init + [last];
      ChordFloods(h, w, m, s, init);
      var (s1, o1) := ChordCells(h, w, m, s, init);
      RevealFloods(h, w, m, s1, last);
      var (s2, o2) := RevealCells(h, w, m, s1, last);
      FloodAppend(h, w, m, s, s1, s2, init, last, o1, o2);
    }
  }

  // ---------------------------------------------------------------------
  // What a flood guarantees

  /** A flood from a cell that is not Default changes nothing. */
  lemma FloodFromSettledCell(h: nat, w: nat, m: seq<bool>, s0: seq<State>, s1: seq<State>,
                             k: nat, o: seq<nat>)
    requires Flood(h, w, m, s0, s1, [k], o)
    requires k < |s0| && s0[k] != Default
    ensures o == [] && s1 == s0
  {
    FirstRevealIsRoot(h, w, m, s0, s1, [k], o);
    assert forall p | 0 <= p < |s0| :: s1[p] == s0[p];
  }

  /** The first cell a flood reveals is one of its roots. */
  lemma FirstRevealIsRoot(h: nat, w: nat, m: seq<bool>, s0: seq<State>, s1: seq<State>,
                          roots: seq<nat>, o: seq<nat>)
    requires Flood(h, w, m, s0, s1, roots, o)
    ensures o != [] ==> o[0] in roots && s0[o[0]] == Default
  {
    if o != [] {
      assert !Spread(h, w, m, o, 0);
    }
  }

  /** A flood reveals no mine, provided every Default root is free of mines:
      every later cell neighbours a revealed cell with no mine around it. */
  lemma FloodRevealsNoMine(h: nat, w: nat, m: seq<bool>, s0: seq<State>, s1: seq<State>,
                           roots: seq<nat>, o: seq<nat>)
    requires Flood(h, w, m, s0, s1, roots, o)
    requires forall r | r in roots :: s0[r] == Default ==> !m[r]
    ensures forall p | 0 <= p < h * w && s0[p] != Revealed && s1[p] == Revealed :: !m[p]
  {
    forall p | 0 <= p < h * w && s0[p] != Revealed && s1[p] == Revealed
      ensures !m[p]
    {
      var i :| 0 <= i < |o| && o[i] == p;
      if p !in roots {
        var j :| 0 <= j < i && Blank(h, w, m, o[j]) && o[i] in Neighbours(h, w, o[j]);
      }
    }
  }

  /** Every cell a flood reveals was reached from a root through blank
      revealed cells; so if another flood from the same roots and start
      reveals o2, it reveals each cell of o1 too. */
  lemma {:induction false} FloodReaches(h: nat, w: nat, m: seq<bool>, s0: seq<State>,
                                        s1: seq<State>, s2: seq<State>, roots: seq<nat>,
                                        o1: seq<nat>, o2: seq<nat>, i: nat)
    requires Flood(h, w, m, s0, s1, roots, o1)
    requires Flood(h, w, m, s0, s2, roots, o2)
    requires i < |o1|
    ensures s2[o1[i]] == Revealed
    decreases i, 1
  {
    if o1[i] !in roots {
      SpreadReaches(h, w, m, s0, s1, s2, roots, o1, o2, i);
    }
  }

  /** The step of FloodReaches for a cell that is not a root: it neighbours
      an earlier blank cell of o1, which the other flood reveals too, and
      that flood leaves no neighbour of a revealed blank cell Default. */
  lemma {:induction false} SpreadReaches(h: nat, w: nat, m: seq<bool>, s0: seq<State>,
                                         s1: seq<State>, s2: seq<State>, roots: seq<nat>,
                                         o1: seq<nat>, o2: seq<nat>, i: nat)
    requires Flood(h, w, m, s0, s1, roots, o1)
    requires Flood(h, w, m, s0, s2, roots, o2)
    requires i < |o1| && o1[i] !in roots
    ensures s2[o1[i]] == Revealed
    decreases i, 0
  {
    var j :| 0 <= j < i && Blank(h, w, m, o1[j]) && o1[i] in Neighbours(h, w, o1[j]);
    FloodReaches(h, w, m, s0, s1, s2, roots, o1, o2, j);
    var jj :| 0 <= jj < |o2| && o2[jj] == o1[j];
    assert Settled(h, w, s2, o2[jj]);
  }

  /** The result of a flood does not depend on the order of the recursion:
      two floods from the same start and roots end in the same states. */
  lemma FloodUnique(h: nat, w: nat, m: seq<bool>, s0: seq<State>, s1: seq<State>,
                    s2: seq<State>, roots: seq<nat>, o1: seq<nat>, o2: seq<nat>)
    requires Flood(h, w, m, s0, s1, roots, o1)
    requires Flood(h, w, m, s0, s2, roots, o2)
    ensures s1 == s2
  {
    forall p | 0 <= p < |s0|
      ensures s1[p] == s2[p]
    {
      if s0[p] != s1[p] {
        var i :| 0 <= i < |o1| && o1[i] == p;
        FloodReaches(h, w, m, s0, s1, s2, roots, o1, o2, i);
      } else if s0[p] != s2[p] {
        var i :| 0 <= i < |o2| && o2[i] == p;
        FloodReaches(h, w, m, s0, s2, s1, roots, o2, o1, i);
      }
    }
  }
}
