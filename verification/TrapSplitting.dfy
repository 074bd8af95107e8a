/**
 * `splitTrapsAgainst`: cut the traps of a body at the boundaries
 * `rangeStart` (inclusive) and `rangeEnd` (exclusive) of a unit range.
 *
 * For every trap present when the call starts, the original walks the
 * units `beginUnit .. endUnit` -- including the end unit -- and remembers
 * whether `rangeStart` has been seen. At the last unit of the walk a trap
 * that has seen `rangeStart` is cut there: the trap itself now begins at
 * `rangeStart` and a copy ending at `rangeStart` is inserted right after it.
 * Meeting `rangeEnd` cuts the trap in three, or raises the "inversed range"
 * error when `rangeStart` has not been seen yet.
 *
 * `WalkFrom` follows that walk step by step; `SplitTrap` and `SplitAll`
 * give the records one trap, and the whole table, turn into. The lemmas
 * state the outcome of every case in closed form and show that the units
 * each handler protects for each exception class are the same before and
 * after. `SplitTrapsAgainst` edits the body's table in place and is proved
 * to produce `SplitAll` of the table it started from.
 */
module TrapSplitting {
  import opened Traps
  import opened TrapQueries

  /** How a call of `splitTrapsAgainst` ends. */
  datatype Outcome = Completed | InversedRange

  /** What one trap of the snapshot turns into. */
  datatype TrapSplit =
    | Pieces(records: seq<Trap>)  // the trap as edited, followed by the copies inserted after it
    | Inversed                    // `rangeEnd` was met before `rangeStart`

  /** The whole table after the call, and how the call ended. */
  datatype TableSplit = TableSplit(table: seq<Trap>, outcome: Outcome)

  /**
   * The state of the walk over one trap: the trap record as edited so far,
   * the copies inserted after it (in table order), and whether `rangeStart`
   * has been seen.
   */
  datatype Walk = Walk(trap: Trap, inserted: seq<Trap>, insideRange: bool)

  /** The walk over units `u .. last` from state `w`. */
  function WalkFrom(w: Walk, u: Unit, last: Unit, rangeStart: Unit, rangeEnd: Unit): TrapSplit
    decreases last + 1 - u
  {
    if u > last then Pieces([w.trap] + w.inserted)
    else
      var inside := w.insideRange || u == rangeStart;
      if u == last && !inside then Pieces([w.trap] + w.inserted)  // the walk ends without a cut
      else
        // at the last unit: the trap begins at rangeStart, a copy ending there goes after it
        var t := if u == last then w.trap.(beginUnit := rangeStart) else w.trap;
        var inserted := if u == last then [w.trap.(endUnit := rangeStart)] + w.inserted else w.inserted;
        if u == rangeEnd then
          if !inside then Inversed
          else
            // the trap begins at rangeEnd; [rangeStart, rangeEnd) and then [begin, rangeStart) follow it
            var first := t.(endUnit := rangeStart);
            var second := t.(beginUnit := rangeStart, endUnit := rangeEnd);
            WalkFrom(Walk(t.(beginUnit := rangeEnd), [second, first] + inserted, true), u + 1, last, rangeStart, rangeEnd)
        else WalkFrom(Walk(t, inserted, inside), u + 1, last, rangeStart, rangeEnd)
  }

  /** The records trap `t` turns into; a trap whose end comes before its begin has no units to walk. */
  function SplitTrap(t: Trap, rangeStart: Unit, rangeEnd: Unit): TrapSplit {
    if t.endUnit < t.beginUnit then Pieces([t])
    else WalkFrom(Walk(t, [], false), t.beginUnit, t.endUnit, rangeStart, rangeEnd)
  }

  /**
   * The table after splitting every trap of `traps` in order. The first
   * inverted trap stops the call: the traps before it stay split and the
   * rest of the table is left as it was.
   */
  function SplitAll(traps: seq<Trap>, rangeStart: Unit, rangeEnd: Unit): TableSplit {
    if traps == [] then TableSplit([], Completed)
    else match SplitTrap(traps[0], rangeStart, rangeEnd)
      case Inversed => TableSplit(traps, InversedRange)
      case Pieces(records) =>
        var rest := SplitAll(traps[1..], rangeStart, rangeEnd);
        TableSplit(records + rest.table, rest.outcome)
  }

  /** Unit `x` is met by the walk over trap `t`. */
  predicate Walked(t: Trap, x: Unit) {
    t.beginUnit <= x <= t.endUnit
  }

  // ---------------------------------------------------------------------
  // The walk, case by case
  // ---------------------------------------------------------------------

  /** Units that are neither boundary nor the last one leave the walk's state as it is. */
  lemma {:induction false} WalkSkips(w: Walk, u: Unit, v: Unit, last: Unit, rangeStart: Unit, rangeEnd: Unit)
    requires u <= v <= last
    requires rangeStart < u || v <= rangeStart
    requires rangeEnd < u || v <= rangeEnd
    ensures WalkFrom(w, u, last, rangeStart, rangeEnd) == WalkFrom(w, v, last, rangeStart, rangeEnd)
    decreases v - u
  {
    if u < v {
      assert Walk(w.trap, w.inserted, w.insideRange || u == rangeStart) == w;
      WalkSkips(w, u + 1, v, last, rangeStart, rangeEnd);
    }
  }

  /**
   * A trap whose walk meets neither boundary, or meets only `rangeEnd` as
   * its end unit, is left as it is and nothing is inserted for it.
   */
  lemma {:induction false} SplitLeavesUnrelatedTrap(t: Trap, rangeStart: Unit, rangeEnd: Unit)
    requires !Walked(t, rangeStart)
    requires !Walked(t, rangeEnd) || rangeEnd == t.endUnit
    ensures SplitTrap(t, rangeStart, rangeEnd) == Pieces([t])
  {
    if t.beginUnit <= t.endUnit {
      WalkSkips(Walk(t, [], false), t.beginUnit, t.endUnit, t.endUnit, rangeStart, rangeEnd);
    }
  }

  /**
   * The walk fails exactly when it meets `rangeEnd` before its last unit
   * and has not met `rangeStart` by then (at `rangeEnd` or before).
   */
  lemma {:induction false} SplitDetectsInversedRange(t: Trap, rangeStart: Unit, rangeEnd: Unit)
    ensures SplitTrap(t, rangeStart, rangeEnd) == Inversed <==>
            t.beginUnit <= rangeEnd < t.endUnit && !(t.beginUnit <= rangeStart <= rangeEnd)
  {
    var b, e := t.beginUnit, t.endUnit;
    if b <= rangeEnd < e && !(b <= rangeStart <= rangeEnd) {
      WalkSkips(Walk(t, [], false), b, rangeEnd, e, rangeStart, rangeEnd);
    } else if !Walked(t, rangeStart) {
      SplitLeavesUnrelatedTrap(t, rangeStart, rangeEnd);
    } else if !Walked(t, rangeEnd) {
      SplitAtRangeStartOnly(t, rangeStart, rangeEnd);
    } else if rangeEnd < e {
      SplitAcrossBothBounds(t, rangeStart, rangeEnd);
    } else {
      SplitWhenRangeEndIsTrapEnd(t, rangeStart, rangeEnd);
    }
  }

  /**
   * A walk meeting `rangeStart` but not `rangeEnd` turns the trap into
   * `[rangeStart, end)` followed by a copy `[begin, rangeStart)`.
   */
  lemma {:induction false} SplitAtRangeStartOnly(t: Trap, rangeStart: Unit, rangeEnd: Unit)
    requires Walked(t, rangeStart) && !Walked(t, rangeEnd)
    ensures SplitTrap(t, rangeStart, rangeEnd) == Pieces([t.(beginUnit := rangeStart), t.(endUnit := rangeStart)])
  {
    var b, e := t.beginUnit, t.endUnit;
    var w := Walk(t, [], false);
    WalkSkips(w, b, rangeStart, e, rangeStart, rangeEnd);
    if rangeStart < e {
      var w' := Walk(t, [], true);
      assert WalkFrom(w, rangeStart, e, rangeStart, rangeEnd) == WalkFrom(w', rangeStart + 1, e, rangeStart, rangeEnd);
      WalkSkips(w', rangeStart + 1, e, e, rangeStart, rangeEnd);
    }
  }

  /**
   * A walk meeting `rangeStart`, then `rangeEnd` before its last unit,
   * leaves four records: the trap as `[rangeStart, end)`, then
   * `[rangeEnd, rangeStart)`, `[rangeStart, rangeEnd)` and `[begin, rangeStart)`.
   */
  lemma {:induction false} SplitAcrossBothBounds(t: Trap, rangeStart: Unit, rangeEnd: Unit)
    requires t.beginUnit <= rangeStart <= rangeEnd < t.endUnit
    ensures SplitTrap(t, rangeStart, rangeEnd) ==
            Pieces([t.(beginUnit := rangeStart),
                    t.(beginUnit := rangeEnd, endUnit := rangeStart),
                    t.(beginUnit := rangeStart, endUnit := rangeEnd),
                    t.(endUnit := rangeStart)])
  {
    var b, e := t.beginUnit, t.endUnit;
    var w := Walk(t, [], false);
    WalkSkips(w, b, rangeStart, e, rangeStart, rangeEnd);
    var first := t.(endUnit := rangeStart);
    var second := t.(beginUnit := rangeStart, endUnit := rangeEnd);
    var cut := Walk(t.(beginUnit := rangeEnd), [second, first], true);
    assert [second, first] + [] == [second, first];
    if rangeStart < rangeEnd {
      var w' := Walk(t, [], true);
      assert WalkFrom(w, rangeStart, e, rangeStart, rangeEnd) == WalkFrom(w', rangeStart + 1, e, rangeStart, rangeEnd);
      WalkSkips(w', rangeStart + 1, rangeEnd, e, rangeStart, rangeEnd);
      assert WalkFrom(w', rangeEnd, e, rangeStart, rangeEnd) == WalkFrom(cut, rangeEnd + 1, e, rangeStart, rangeEnd);
    } else {
      assert WalkFrom(w, rangeStart, e, rangeStart, rangeEnd) == WalkFrom(cut, rangeEnd + 1, e, rangeStart, rangeEnd);
    }
    WalkSkips(cut, rangeEnd + 1, e, e, rangeStart, rangeEnd);
  }

  /**
   * A walk meeting `rangeStart` whose last unit is `rangeEnd` leaves four
   * records: the trap as `[end, end)`, then `[rangeStart, end)`,
   * `[rangeStart, rangeStart)` and `[begin, rangeStart)`.
   */
  lemma {:induction false} SplitWhenRangeEndIsTrapEnd(t: Trap, rangeStart: Unit, rangeEnd: Unit)
    requires t.beginUnit <= rangeStart <= rangeEnd == t.endUnit
    ensures SplitTrap(t, rangeStart, rangeEnd) ==
            Pieces([t.(beginUnit := rangeEnd),
                    t.(beginUnit := rangeStart),
                    t.(beginUnit := rangeStart, endUnit := rangeStart),
                    t.(endUnit := rangeStart)])
  {
    var b, e := t.beginUnit, t.endUnit;
    var w := Walk(t, [], false);
    WalkSkips(w, b, rangeStart, e, rangeStart, rangeEnd);
    if rangeStart < e {
      var w' := Walk(t, [], true);
      assert WalkFrom(w, rangeStart, e, rangeStart, rangeEnd) == WalkFrom(w', rangeStart + 1, e, rangeStart, rangeEnd);
      WalkSkips(w', rangeStart + 1, e, e, rangeStart, rangeEnd);
    }
  }

  /**
   * After a walk meeting `rangeStart` and then `rangeEnd` before its last
   * unit, the record left in the trap's place still protects every unit of
   * `[rangeStart, rangeEnd)` and the unit `rangeEnd` as well: the pieces
   * overlap, and a trap still crosses `rangeEnd`.
   */
  lemma ThreeWaySplitStillCrossesRangeEnd(t: Trap, rangeStart: Unit, rangeEnd: Unit)
    requires t.beginUnit <= rangeStart < rangeEnd < t.endUnit
    ensures SplitTrap(t, rangeStart, rangeEnd).Pieces?
    ensures var ps := SplitTrap(t, rangeStart, rangeEnd).records;
            && |ps| == 4
            && Protects(ps[0], rangeStart) && Protects(ps[0], rangeEnd)
            && forall u :: Protects(ps[2], u) ==> Protects(ps[0], u)
  {
    SplitAcrossBothBounds(t, rangeStart, rangeEnd);
  }

  /**
   * One trap over units 1 .. 5 with handler 6, split against `[3, 5)`:
   * four records, `[3, 6)`, `[5, 3)`, `[3, 5)` and `[1, 3)`, in that order.
   */
  lemma SplitExample(exception: SootClass)
    ensures SplitTrap(Trap(1, 6, 6, exception), 3, 5) ==
            Pieces([Trap(3, 6, 6, exception), Trap(5, 3, 6, exception), Trap(3, 5, 6, exception), Trap(1, 3, 6, exception)])
  {
    SplitAcrossBothBounds(Trap(1, 6, 6, exception), 3, 5);
  }

  // ---------------------------------------------------------------------
  // What splitting keeps
  // ---------------------------------------------------------------------

  /** A trap table guards a unit exactly when one of its two halves does. */
  lemma GuardedAppend(xs: seq<Trap>, ys: seq<Trap>, u: Unit, handler: Unit, exception: SootClass)
    ensures Guarded(xs + ys, u, handler, exception) <==> Guarded(xs, u, handler, exception) || Guarded(ys, u, handler, exception)
  {
    assert forall t :: t in xs + ys <==> t in xs || t in ys;
  }

  /**
   * The records a trap turns into keep its handler and exception class,
   * refer only to units its walk met, and together protect exactly the
   * units the trap protected.
   */
  lemma {:induction false} SplitTrapKeepsProtection(t: Trap, rangeStart: Unit, rangeEnd: Unit)
    requires SplitTrap(t, rangeStart, rangeEnd).Pieces?
    ensures var ps := SplitTrap(t, rangeStart, rangeEnd).records;
            && (forall p :: p in ps ==> p.handlerUnit == t.handlerUnit && p.exception == t.exception)
            && (forall p :: p in ps ==> p == t || (Walked(t, p.beginUnit) && Walked(t, p.endUnit)))
            && (forall u :: (exists p :: p in ps && Protects(p, u)) <==> Protects(t, u))
  {
    var rs, re := rangeStart, rangeEnd;
    SplitDetectsInversedRange(t, rs, re);
    var ps := SplitTrap(t, rs, re).records;
    if !Walked(t, rs) {
      SplitLeavesUnrelatedTrap(t, rs, re);
      assert forall p :: p in ps <==> p == t;
    } else {
      // every split leaves [rangeStart, end) in front and [begin, rangeStart) last
      var upper := if Walked(t, re) && re == t.endUnit then 1 else 0;
      if !Walked(t, re) {
        SplitAtRangeStartOnly(t, rs, re);
      } else if re < t.endUnit {
        SplitAcrossBothBounds(t, rs, re);
      } else {
        SplitWhenRangeEndIsTrapEnd(t, rs, re);
      }
      assert ps[upper] == t.(beginUnit := rs) && ps[|ps| - 1] == t.(endUnit := rs);
      forall u | Protects(t, u) ensures exists p :: p in ps && Protects(p, u) {
        if u < rs {
          assert ps[|ps| - 1] in ps && Protects(ps[|ps| - 1], u);
        } else {
          assert ps[upper] in ps && Protects(ps[upper], u);
        }
      }
    }
  }

  /**
   * A trap of the table after the call guards a unit with a given handler
   * and exception class exactly when a trap of the table before it did:
   * splitting never changes which exceptions are caught where.
   */
  lemma {:induction false} SplitAllKeepsProtection(traps: seq<Trap>, rangeStart: Unit, rangeEnd: Unit, u: Unit, handler: Unit, exception: SootClass)
    ensures Guarded(SplitAll(traps, rangeStart, rangeEnd).table, u, handler, exception) <==> Guarded(traps, u, handler, exception)
  {
    if traps != [] {
      match SplitTrap(traps[0], rangeStart, rangeEnd)
      case Inversed =>
      case Pieces(ps) =>
        var t := traps[0];
        SplitTrapKeepsProtection(t, rangeStart, rangeEnd);
        SplitAllKeepsProtection(traps[1..], rangeStart, rangeEnd, u, handler, exception);
        GuardedAppend(ps, SplitAll(traps[1..], rangeStart, rangeEnd).table, u, handler, exception);
        assert traps == [t] + traps[1..];
        GuardedAppend([t], traps[1..], u, handler, exception);
        if Guarded(ps, u, handler, exception) {
          var p :| p in ps && Protects(p, u) && p.handlerUnit == handler && p.exception == exception;
          assert t in [t] && Protects(t, u);
        }
        if Guarded([t], u, handler, exception) {
          assert Protects(t, u);
          var p :| p in ps && Protects(p, u);
          assert p.handlerUnit == handler && p.exception == exception;
        }
    }
  }

  /** The records a trap turns into send `e` raised at `u` to the same handler as the trap did. */
  lemma SplitTrapKeepsFirstCatcher(t: Trap, rangeStart: Unit, rangeEnd: Unit, e: SootClass, u: Unit,
                                   isSubclassIncluding: (SootClass, SootClass) -> bool)
    requires SplitTrap(t, rangeStart, rangeEnd).Pieces?
    ensures FirstCatcher(e, u, SplitTrap(t, rangeStart, rangeEnd).records, isSubclassIncluding) ==
            FirstCatcher(e, u, [t], isSubclassIncluding)
  {
    var ps := SplitTrap(t, rangeStart, rangeEnd).records;
    SplitTrapKeepsProtection(t, rangeStart, rangeEnd);
    FirstCatcherUniform(e, u, ps, isSubclassIncluding, t.handlerUnit, t.exception);
    assert [t][1..] == [];
  }

  /**
   * Exact catch semantics: after the call, whatever its outcome, an
   * exception raised at any unit goes to the same handler as before --
   * the first catching trap in table order may change, its handler does not.
   */
  lemma {:induction false} SplitAllKeepsFirstCatcher(traps: seq<Trap>, rangeStart: Unit, rangeEnd: Unit, e: SootClass, u: Unit,
                                                      isSubclassIncluding: (SootClass, SootClass) -> bool)
    ensures FirstCatcher(e, u, SplitAll(traps, rangeStart, rangeEnd).table, isSubclassIncluding) ==
            FirstCatcher(e, u, traps, isSubclassIncluding)
  {
    if traps != [] {
      match SplitTrap(traps[0], rangeStart, rangeEnd)
      case Inversed =>
      case Pieces(ps) =>
        var rest := SplitAll(traps[1..], rangeStart, rangeEnd).table;
        SplitAllKeepsFirstCatcher(traps[1..], rangeStart, rangeEnd, e, u, isSubclassIncluding);
        SplitTrapKeepsFirstCatcher(traps[0], rangeStart, rangeEnd, e, u, isSubclassIncluding);
        FirstCatcherAppend(e, u, ps, rest, isSubclassIncluding);
        FirstCatcherAppend(e, u, [traps[0]], traps[1..], isSubclassIncluding);
        assert [traps[0]] + traps[1..] == traps;
    }
  }

  // ---------------------------------------------------------------------
  // Which records cross a bound
  // ---------------------------------------------------------------------

  /** `p` protects both the unit before `x` and `x` itself: its range crosses the boundary at `x`. */
  predicate Crosses(p: Trap, x: Unit) {
    p.beginUnit < x < p.endUnit
  }

  /** No record a trap turns into crosses `rangeStart`. */
  lemma SplitTrapNoCrossStart(t: Trap, rangeStart: Unit, rangeEnd: Unit)
    requires SplitTrap(t, rangeStart, rangeEnd).Pieces?
    ensures forall p :: p in SplitTrap(t, rangeStart, rangeEnd).records ==> !Crosses(p, rangeStart)
  {
    var rs, re := rangeStart, rangeEnd;
    SplitDetectsInversedRange(t, rs, re);
    if !Walked(t, rs) {
      SplitLeavesUnrelatedTrap(t, rs, re);
    } else if !Walked(t, re) {
      SplitAtRangeStartOnly(t, rs, re);
    } else if re < t.endUnit {
      SplitAcrossBothBounds(t, rs, re);
    } else {
      SplitWhenRangeEndIsTrapEnd(t, rs, re);
    }
  }

  /**
   * A record a trap turns into crosses `rangeEnd` exactly when the trap
   * spans `rangeStart` and `rangeEnd` with `rangeStart < rangeEnd`: the
   * record left in the trap's place is then `[rangeStart, end)`.
   */
  lemma SplitTrapCrossEnd(t: Trap, rangeStart: Unit, rangeEnd: Unit)
    requires SplitTrap(t, rangeStart, rangeEnd).Pieces?
    ensures (exists p :: p in SplitTrap(t, rangeStart, rangeEnd).records && Crosses(p, rangeEnd)) <==>
            t.beginUnit <= rangeStart < rangeEnd < t.endUnit
  {
    var rs, re := rangeStart, rangeEnd;
    SplitDetectsInversedRange(t, rs, re);
    var ps := SplitTrap(t, rs, re).records;
    if !Walked(t, rs) {
      SplitLeavesUnrelatedTrap(t, rs, re);
      assert forall p :: p in ps ==> p == t;
    } else if !Walked(t, re) {
      SplitAtRangeStartOnly(t, rs, re);
    } else if re < t.endUnit {
      SplitAcrossBothBounds(t, rs, re);
      if rs < re {
        assert ps[0] in ps && Crosses(ps[0], re);
      }
    } else {
      SplitWhenRangeEndIsTrapEnd(t, rs, re);
    }
  }

  /** After a call that completes, no trap of the table crosses `rangeStart`. */
  lemma {:induction false} SplitAllNoCrossStart(traps: seq<Trap>, rangeStart: Unit, rangeEnd: Unit)
    requires SplitAll(traps, rangeStart, rangeEnd).outcome == Completed
    ensures forall p :: p in SplitAll(traps, rangeStart, rangeEnd).table ==> !Crosses(p, rangeStart)
  {
    if traps != [] {
      SplitTrapNoCrossStart(traps[0], rangeStart, rangeEnd);
      SplitAllNoCrossStart(traps[1..], rangeStart, rangeEnd);
      var ps := SplitTrap(traps[0], rangeStart, rangeEnd).records;
      var rest := SplitAll(traps[1..], rangeStart, rangeEnd).table;
      assert forall p :: p in ps + rest <==> p in ps || p in rest;
    }
  }

  /**
   * After a call that completes, some trap of the table crosses `rangeEnd`
   * exactly when some trap of the original table spanned `rangeStart` and
   * `rangeEnd` with `rangeStart < rangeEnd`.
   */
  lemma {:induction false} SplitAllCrossEnd(traps: seq<Trap>, rangeStart: Unit, rangeEnd: Unit)
    requires SplitAll(traps, rangeStart, rangeEnd).outcome == Completed
    ensures (exists p :: p in SplitAll(traps, rangeStart, rangeEnd).table && Crosses(p, rangeEnd)) <==>
            exists t :: t in traps && t.beginUnit <= rangeStart < rangeEnd < t.endUnit
  {
    if traps != [] {
      SplitTrapCrossEnd(traps[0], rangeStart, rangeEnd);
      SplitAllCrossEnd(traps[1..], rangeStart, rangeEnd);
      var ps := SplitTrap(traps[0], rangeStart, rangeEnd).records;
      var rest := SplitAll(traps[1..], rangeStart, rangeEnd).table;
      assert forall p :: p in ps + rest <==> p in ps || p in rest;
      assert forall t :: t in traps <==> t == traps[0] || t in traps[1..];
    }
  }

  /**
   * The split the walk evidently aims at: when a trap spans both bounds,
   * the walk ends after the cut at `rangeEnd`, leaving `[rangeEnd, end)`,
   * `[rangeStart, rangeEnd)` and `[begin, rangeStart)`. Every other case is
   * as the code does it.
   */
  function IntendedSplitTrap(t: Trap, rangeStart: Unit, rangeEnd: Unit): TrapSplit {
    if t.beginUnit <= rangeStart <= rangeEnd < t.endUnit then
      Pieces([t.(beginUnit := rangeEnd), t.(beginUnit := rangeStart, endUnit := rangeEnd), t.(endUnit := rangeStart)])
    else SplitTrap(t, rangeStart, rangeEnd)
  }

  /**
   * The intended split keeps the trap's handler and exception class and
   * the units it protects, and none of its records crosses either bound.
   */
  lemma IntendedSplitTrapNoCrossing(t: Trap, rangeStart: Unit, rangeEnd: Unit)
    requires IntendedSplitTrap(t, rangeStart, rangeEnd).Pieces?
    ensures var ps := IntendedSplitTrap(t, rangeStart, rangeEnd).records;
            && (forall p :: p in ps ==> !Crosses(p, rangeStart) && !Crosses(p, rangeEnd))
            && (forall p :: p in ps ==> p.handlerUnit == t.handlerUnit && p.exception == t.exception)
            && (forall u :: (exists p :: p in ps && Protects(p, u)) <==> Protects(t, u))
  {
    var rs, re := rangeStart, rangeEnd;
    var ps := IntendedSplitTrap(t, rs, re).records;
    if t.beginUnit <= rs <= re < t.endUnit {
      forall u: Unit | Protects(t, u) ensures exists p :: p in ps && Protects(p, u) {
        if u < rs {
          assert ps[2] in ps && Protects(ps[2], u);
        } else if u < re {
          assert ps[1] in ps && Protects(ps[1], u);
        } else {
          assert ps[0] in ps && Protects(ps[0], u);
        }
      }
    } else {
      SplitTrapNoCrossStart(t, rs, re);
      SplitTrapCrossEnd(t, rs, re);
      SplitTrapKeepsProtection(t, rs, re);
    }
  }

  /** If no trap's walk meets `rangeStart` or `rangeEnd`, the call leaves the table as it was. */
  lemma {:induction false} SplitAllLeavesUnrelatedTable(traps: seq<Trap>, rangeStart: Unit, rangeEnd: Unit)
    requires forall t :: t in traps ==> !Walked(t, rangeStart) && !Walked(t, rangeEnd)
    ensures SplitAll(traps, rangeStart, rangeEnd) == TableSplit(traps, Completed)
  {
    if traps != [] {
      SplitLeavesUnrelatedTrap(traps[0], rangeStart, rangeEnd);
      SplitAllLeavesUnrelatedTable(traps[1..], rangeStart, rangeEnd);
      assert traps == [traps[0]] + traps[1..];
    }
  }

  /**
   * Splitting a table whose first part splits without error: the records
   * of the first part come first, and the second part decides the outcome.
   */
  lemma {:induction false} SplitAllAppend(before: seq<Trap>, after: seq<Trap>, rangeStart: Unit, rangeEnd: Unit)
    requires forall i :: 0 <= i < |before| ==> SplitTrap(before[i], rangeStart, rangeEnd).Pieces?
    ensures SplitAll(before, rangeStart, rangeEnd).outcome == Completed
    ensures SplitAll(before + after, rangeStart, rangeEnd) ==
            TableSplit(SplitAll(before, rangeStart, rangeEnd).table + SplitAll(after, rangeStart, rangeEnd).table,
                       SplitAll(after, rangeStart, rangeEnd).outcome)
  {
    if before == [] {
      assert before + after == after;
    } else {
      var rest := before[1..];
      forall i | 0 <= i < |rest| ensures SplitTrap(rest[i], rangeStart, rangeEnd).Pieces? {
        assert rest[i] == before[i + 1];
      }
      SplitAllAppend(rest, after, rangeStart, rangeEnd);
      SplitAllAppendStep(before[0], rest, after, rangeStart, rangeEnd);
      ConsLayout(before, after);
    }
  }

  /** A non-empty table is its first trap followed by the rest, also when another table follows it. */
  lemma ConsLayout(before: seq<Trap>, after: seq<Trap>)
    requires before != []
    ensures before == [before[0]] + before[1..]
    ensures before + after == [before[0]] + (before[1..] + after)
  {
  }

  /** One step of `SplitAllAppend`: from the table without its first trap `x` to the whole table. */
  lemma SplitAllAppendStep(x: Trap, rest: seq<Trap>, after: seq<Trap>, rangeStart: Unit, rangeEnd: Unit)
    requires SplitTrap(x, rangeStart, rangeEnd).Pieces?
    requires SplitAll(rest, rangeStart, rangeEnd).outcome == Completed
    requires SplitAll(rest + after, rangeStart, rangeEnd) ==
             TableSplit(SplitAll(rest, rangeStart, rangeEnd).table + SplitAll(after, rangeStart, rangeEnd).table,
                        SplitAll(after, rangeStart, rangeEnd).outcome)
    ensures SplitAll([x] + rest, rangeStart, rangeEnd).outcome == Completed
    ensures SplitAll([x] + (rest + after), rangeStart, rangeEnd) ==
            TableSplit(SplitAll([x] + rest, rangeStart, rangeEnd).table + SplitAll(after, rangeStart, rangeEnd).table,
                       SplitAll(after, rangeStart, rangeEnd).outcome)
  {
    SplitAllCons(x, rest, rangeStart, rangeEnd);
    SplitAllCons(x, rest + after, rangeStart, rangeEnd);
    var ps := SplitTrap(x, rangeStart, rangeEnd).records;
    var done := SplitAll(rest, rangeStart, rangeEnd).table;
    ConcatAssoc(ps, done, SplitAll(after, rangeStart, rangeEnd).table);
  }

  /** The table after splitting a table whose first trap `x` splits. */
  lemma SplitAllCons(x: Trap, rest: seq<Trap>, rangeStart: Unit, rangeEnd: Unit)
    requires SplitTrap(x, rangeStart, rangeEnd).Pieces?
    ensures SplitAll([x] + rest, rangeStart, rangeEnd) ==
            TableSplit(SplitTrap(x, rangeStart, rangeEnd).records + SplitAll(rest, rangeStart, rangeEnd).table,
                       SplitAll(rest, rangeStart, rangeEnd).outcome)
  {
    assert ([x] + rest)[0] == x && ([x] + rest)[1..] == rest;
  }

  /**
   * When `x` is the first trap whose walk fails, the call fails there: the
   * traps before it are split, and it and every trap after it are left as
   * they were -- nothing is rolled back.
   */
  lemma SplitAllNoRollback(before: seq<Trap>, x: Trap, after: seq<Trap>, rangeStart: Unit, rangeEnd: Unit)
    requires SplitTrap(x, rangeStart, rangeEnd) == Inversed
    requires forall t :: t in before ==> SplitTrap(t, rangeStart, rangeEnd).Pieces?
    ensures SplitAll(before, rangeStart, rangeEnd).outcome == Completed
    ensures SplitAll(before + [x] + after, rangeStart, rangeEnd) ==
            TableSplit(SplitAll(before, rangeStart, rangeEnd).table + ([x] + after), InversedRange)
  {
    forall i | 0 <= i < |before| ensures SplitTrap(before[i], rangeStart, rangeEnd).Pieces? {
      assert before[i] in before;
    }
    SplitAllAppend(before, [x] + after, rangeStart, rangeEnd);
    assert before + [x] + after == before + ([x] + after);
    assert ([x] + after)[0] == x;
  }

  /** Every trap of the table after the call refers to units of the body, if every trap did before. */
  lemma {:induction false} SplitAllStaysWithinBody(traps: seq<Trap>, rangeStart: Unit, rangeEnd: Unit, unitCount: nat)
    requires forall t :: t in traps ==> WithinBody(t, unitCount)
    ensures forall p :: p in SplitAll(traps, rangeStart, rangeEnd).table ==> WithinBody(p, unitCount)
  {
    if traps != [] {
      match SplitTrap(traps[0], rangeStart, rangeEnd)
      case Inversed =>
      case Pieces(ps) =>
        SplitTrapKeepsProtection(traps[0], rangeStart, rangeEnd);
        SplitAllStaysWithinBody(traps[1..], rangeStart, rangeEnd, unitCount);
        assert WithinBody(traps[0], unitCount);
        assert forall p :: p in ps ==> WithinBody(p, unitCount);
        var rest := SplitAll(traps[1..], rangeStart, rangeEnd).table;
        assert forall p :: p in ps + rest <==> p in ps || p in rest;
    }
  }

  // ---------------------------------------------------------------------
  // The operation
  // ---------------------------------------------------------------------

  /**
   * The table after splitting, seen from trap `k` on: the records trap `k`
   * turns into follow the records of the traps before it.
   */
  lemma SplitAllStep(traps: seq<Trap>, k: nat, done: seq<Trap>, rangeStart: Unit, rangeEnd: Unit)
    requires k < |traps| && SplitTrap(traps[k], rangeStart, rangeEnd).Pieces?
    requires SplitAll(traps, rangeStart, rangeEnd) == Prefixed(done, SplitAll(traps[k..], rangeStart, rangeEnd))
    ensures SplitAll(traps, rangeStart, rangeEnd) ==
            Prefixed(done + SplitTrap(traps[k], rangeStart, rangeEnd).records, SplitAll(traps[k + 1..], rangeStart, rangeEnd))
  {
    assert traps[k..][0] == traps[k] && traps[k..][1..] == traps[k + 1..];
    var ps := SplitTrap(traps[k], rangeStart, rangeEnd).records;
    ConcatAssoc(done, ps, SplitAll(traps[k + 1..], rangeStart, rangeEnd).table);
  }

  /** The table after splitting, when trap `k` is the first whose walk fails. */
  lemma SplitAllStops(traps: seq<Trap>, k: nat, done: seq<Trap>, rangeStart: Unit, rangeEnd: Unit)
    requires k < |traps| && SplitTrap(traps[k], rangeStart, rangeEnd).Inversed?
    requires SplitAll(traps, rangeStart, rangeEnd) == Prefixed(done, SplitAll(traps[k..], rangeStart, rangeEnd))
    ensures SplitAll(traps, rangeStart, rangeEnd) == TableSplit(done + traps[k..], InversedRange)
  {
    assert traps[k..][0] == traps[k];
  }

  /** The records `done` followed by the result of splitting the rest of a table. */
  function Prefixed(done: seq<Trap>, rest: TableSplit): TableSplit {
    TableSplit(done + rest.table, rest.outcome)
  }

  /** The live table `done + snapshot[k..]` seen as the records made so far, trap `k`, and the traps after it. */
  lemma SnapshotLayout(done: seq<Trap>, snapshot: seq<Trap>, k: nat)
    requires k < |snapshot|
    ensures done + snapshot[k..] == done + [snapshot[k]] + snapshot[k + 1..]
  {
    assert snapshot[k..] == [snapshot[k]] + snapshot[k + 1..];
  }

  /** Where the pieces of a table laid out as `before + [x] + inserted + after` stand. */
  lemma TableLayout(before: seq<Trap>, x: Trap, inserted: seq<Trap>, after: seq<Trap>, y: Trap)
    ensures var table := before + [x] + inserted + after;
            && table[|before|] == x
            && table[..|before| + 1] == before + [x]
            && table[|before| + 1..] == inserted + after
            && table[|before| := y] == before + [y] + inserted + after
  {
    var table := before + [x] + inserted + after;
    assert table[..|before| + 1] == before + [x];
    assert table[|before| + 1..] == inserted + after;
  }

  /**
   * At the last unit of a walk that has seen `rangeStart`: a copy of the
   * trap at `pos` ending at `rangeStart` goes right after it, and the trap
   * itself now begins at `rangeStart`.
   */
  method CutAtWalkEnd(b: Body, pos: nat, rangeStart: Unit, ghost before: seq<Trap>, ghost inserted: seq<Trap>, ghost after: seq<Trap>)
    returns (newTrap: Trap)
    requires pos == |before| < |b.traps| && b.traps == before + [b.traps[pos]] + inserted + after
    modifies b
    ensures newTrap == old(b.traps[pos]).(endUnit := rangeStart)
    ensures b.traps == before + [old(b.traps[pos]).(beginUnit := rangeStart)] + ([newTrap] + inserted) + after
    ensures b.traps[pos] == old(b.traps[pos]).(beginUnit := rangeStart)
  {
    newTrap := b.traps[pos];
    b.SetBeginUnit(pos, rangeStart);
    TableLayout(before, newTrap, inserted, after, b.traps[pos]);
    newTrap := newTrap.(endUnit := rangeStart);
    TableLayout(before, b.traps[pos], inserted, after, b.traps[pos]);
    b.InsertAfter(newTrap, pos);
    TableLayout(before, b.traps[pos], [newTrap] + inserted, after, b.traps[pos]);
  }

  /**
   * At `rangeEnd`, once `rangeStart` has been seen: the trap at `pos` now
   * begins at `rangeEnd`, followed by a copy `[rangeStart, rangeEnd)` and a
   * copy ending at `rangeStart`.
   */
  method CutAtRangeEnd(b: Body, pos: nat, rangeStart: Unit, rangeEnd: Unit,
                       ghost before: seq<Trap>, ghost inserted: seq<Trap>, ghost after: seq<Trap>)
    returns (firstTrap: Trap, secondTrap: Trap)
    requires pos == |before| < |b.traps| && b.traps == before + [b.traps[pos]] + inserted + after
    modifies b
    ensures firstTrap == old(b.traps[pos]).(endUnit := rangeStart)
    ensures secondTrap == old(b.traps[pos]).(beginUnit := rangeStart, endUnit := rangeEnd)
    ensures b.traps == before + [old(b.traps[pos]).(beginUnit := rangeEnd)] + ([secondTrap, firstTrap] + inserted) + after
    ensures b.traps[pos] == old(b.traps[pos]).(beginUnit := rangeEnd)
  {
    firstTrap := b.traps[pos];
    secondTrap := b.traps[pos];
    firstTrap := firstTrap.(endUnit := rangeStart);
    secondTrap := secondTrap.(beginUnit := rangeStart);
    secondTrap := secondTrap.(endUnit := rangeEnd);
    TableLayout(before, b.traps[pos], inserted, after, b.traps[pos].(beginUnit := rangeEnd));
    b.SetBeginUnit(pos, rangeEnd);
    TableLayout(before, b.traps[pos], inserted, after, b.traps[pos]);
    b.InsertAfter(firstTrap, pos);
    TableLayout(before, b.traps[pos], [firstTrap] + inserted, after, b.traps[pos]);
    b.InsertAfter(secondTrap, pos);
    assert [secondTrap] + ([firstTrap] + inserted) == [secondTrap, firstTrap] + inserted;
    TableLayout(before, b.traps[pos], [secondTrap, firstTrap] + inserted, after, b.traps[pos]);
  }

  /**
   * One round of the outer loop of `splitTrapsAgainst`: walks the units of
   * the trap at position `pos`, editing that trap in place and inserting
   * its copies right after it. On the "inversed range" error nothing has
   * been changed yet.
   */
  method SplitTrapInPlace(b: Body, pos: nat, rangeStart: Unit, rangeEnd: Unit,
                          ghost before: seq<Trap>, ghost x: Trap, ghost after: seq<Trap>)
    returns (ok: bool, insertedCount: nat)
    requires pos == |before| && b.traps == before + [x] + after
    modifies b
    ensures ok == SplitTrap(x, rangeStart, rangeEnd).Pieces?
    ensures ok ==> b.traps == before + SplitTrap(x, rangeStart, rangeEnd).records + after
    ensures ok ==> insertedCount + 1 == |SplitTrap(x, rangeStart, rangeEnd).records|
    ensures !ok ==> b.traps == before + [x] + after
  {
    assert b.traps == before + [x] + [] + after;
    TableLayout(before, x, [], after, x);
    var t := b.traps[pos];
    var u, last := t.beginUnit, t.endUnit;
    var insideRange := false;
    ghost var inserted: seq<Trap> := [];
    insertedCount := 0;
    while u <= last
      invariant t.beginUnit <= u && insertedCount == |inserted| && |before| == pos < |b.traps|
      invariant b.traps == before + [b.traps[pos]] + inserted + after
      invariant !insideRange ==> b.traps[pos] == t && inserted == []
      invariant WalkFrom(Walk(b.traps[pos], inserted, insideRange), u, last, rangeStart, rangeEnd)
                == WalkFrom(Walk(t, [], false), t.beginUnit, last, rangeStart, rangeEnd)
      decreases last as int + 1 - u
    {
      if u == rangeStart {
        insideRange := true;
      }
      if u == last {
        if insideRange {
          var newTrap := CutAtWalkEnd(b, pos, rangeStart, before, inserted, after);
          inserted, insertedCount := [newTrap] + inserted, insertedCount + 1;
        } else {
          break;
        }
      }
      if u == rangeEnd {
        if !insideRange {
          return false, 0;
        }
        var firstTrap, secondTrap := CutAtRangeEnd(b, pos, rangeStart, rangeEnd, before, inserted, after);
        inserted, insertedCount := [secondTrap, firstTrap] + inserted, insertedCount + 2;
      }
      u := u + 1;
    }
    assert SplitTrap(t, rangeStart, rangeEnd) == Pieces([b.traps[pos]] + inserted);
    assert b.traps == before + ([b.traps[pos]] + inserted) + after;
    ok := true;
  }

  /**
   * `splitTrapsAgainst`: walks a snapshot of the trap table, editing each
   * trap in place and inserting its copies right after it.
   */
  method SplitTrapsAgainst(b: Body, rangeStart: Unit, rangeEnd: Unit) returns (outcome: Outcome)
    modifies b
    ensures b.traps == SplitAll(old(b.traps), rangeStart, rangeEnd).table
    ensures outcome == SplitAll(old(b.traps), rangeStart, rangeEnd).outcome
    ensures old(b.Valid()) ==> b.Valid()
  {
    var snapshot := b.traps;  // the snapshot iterator: traps inserted below are not visited
    if b.Valid() {
      SplitAllStaysWithinBody(snapshot, rangeStart, rangeEnd, b.unitCount);
    }
    ghost var done: seq<Trap> := [];
    var k, pos := 0, 0;  // pos: where snapshot[k] now stands in the live table
    while k < |snapshot|
      invariant k <= |snapshot| && pos == |done|
      invariant b.traps == done + snapshot[k..]
      invariant SplitAll(snapshot, rangeStart, rangeEnd) == Prefixed(done, SplitAll(snapshot[k..], rangeStart, rangeEnd))
    {
      SnapshotLayout(done, snapshot, k);
      var ok, insertedCount := SplitTrapInPlace(b, pos, rangeStart, rangeEnd, done, snapshot[k], snapshot[k + 1..]);
      if !ok {
        SplitAllStops(snapshot, k, done, rangeStart, rangeEnd);
        return InversedRange;
      }
      SplitAllStep(snapshot, k, done, rangeStart, rangeEnd);
      done := done + SplitTrap(snapshot[k], rangeStart, rangeEnd).records;
      pos, k := pos + 1 + insertedCount, k + 1;
    }
    outcome := Completed;
  }
}
