/**
 * The read-only queries of the trap manager: is an exception caught at a
 * unit, which traps cover a unit, which units are covered at all, and which
 * exception types reach a handler. Each query is a method that scans the
 * trap table the way the original does, proved equal to a specification
 * function; the lemmas say what those functions mean.
 */
module TrapQueries {
  import opened Traps

  // ---------------------------------------------------------------------
  // Specification functions
  // ---------------------------------------------------------------------

  /**
   * Some trap of `traps`, in table order, catches `e` (a subclass of, or
   * equal to, the trap's exception class) and protects `u`.
   */
  predicate CaughtAt(e: SootClass, u: Unit, traps: seq<Trap>, isSubclassIncluding: (SootClass, SootClass) -> bool) {
    traps != [] &&
    ((isSubclassIncluding(e, traps[0].exception) && Protects(traps[0], u)) ||
     CaughtAt(e, u, traps[1..], isSubclassIncluding))
  }

  /**
   * The handler of the first trap, in table order, that catches `e` and
   * protects `u`: where control goes when `e` is raised at `u`.
   */
  function FirstCatcher(e: SootClass, u: Unit, traps: seq<Trap>, isSubclassIncluding: (SootClass, SootClass) -> bool): Option<Unit> {
    if traps == [] then None
    else if isSubclassIncluding(e, traps[0].exception) && Protects(traps[0], u) then Some(traps[0].handlerUnit)
    else FirstCatcher(e, u, traps[1..], isSubclassIncluding)
  }

  /** The traps of `traps` protecting `u`, in table order. */
  function TrapsAt(u: Unit, traps: seq<Trap>): seq<Trap> {
    if traps == [] then []
    else (if Protects(traps[0], u) then [traps[0]] else []) + TrapsAt(u, traps[1..])
  }

  /** The units `beginUnit .. pred(endUnit)` of `t` (`v < t.endUnit` bounds the comprehension). */
  function ProtectedUnits(t: Trap): set<Unit> {
    set v: Unit | v < t.endUnit && Protects(t, v)
  }

  /** The units lying in the range of some trap of `traps`. */
  function TrappedUnits(traps: seq<Trap>): set<Unit> {
    if traps == [] then {} else ProtectedUnits(traps[0]) + TrappedUnits(traps[1..])
  }

  /**
   * The type descriptor handed out for exception class `c`: a module-aware
   * one in module mode, a plain one by name otherwise.
   */
  function RefTypeOf(c: SootClass, moduleMode: bool): RefType {
    if moduleMode then ModuleRefType(c.name, c.moduleName) else RefType(c.name)
  }

  /** The exception types of the traps whose handler is `handler`, in table order. */
  function ExceptionTypesOf(handler: Unit, traps: seq<Trap>, moduleMode: bool): seq<RefType> {
    if traps == [] then []
    else (if traps[0].handlerUnit == handler then [RefTypeOf(traps[0].exception, moduleMode)] else [])
         + ExceptionTypesOf(handler, traps[1..], moduleMode)
  }

  // ---------------------------------------------------------------------
  // What the specification functions mean
  // ---------------------------------------------------------------------

  /** `e` is caught at `u` exactly when some trap catching `e` protects `u`; never with no traps. */
  lemma {:induction false} CaughtAtIff(e: SootClass, u: Unit, traps: seq<Trap>, isSubclassIncluding: (SootClass, SootClass) -> bool)
    ensures CaughtAt(e, u, traps, isSubclassIncluding) <==>
            exists t :: t in traps && isSubclassIncluding(e, t.exception) && Protects(t, u)
  {
    if traps != [] {
      CaughtAtIff(e, u, traps[1..], isSubclassIncluding);
      assert forall t :: t in traps <==> t == traps[0] || t in traps[1..];
    }
  }

  /** Every unit a trap protects catches that trap's own exception class. */
  lemma {:induction false} CaughtAtProtectedUnit(t: Trap, u: Unit, traps: seq<Trap>, isSubclassIncluding: (SootClass, SootClass) -> bool)
    requires t in traps && Protects(t, u)
    requires isSubclassIncluding(t.exception, t.exception)
    ensures CaughtAt(t.exception, u, traps, isSubclassIncluding)
  {
    CaughtAtIff(t.exception, u, traps, isSubclassIncluding);
  }

  /** An exception is caught at `u` exactly when one of the traps at `u` catches it. */
  lemma {:induction false} CaughtAtIffTrapsAt(e: SootClass, u: Unit, traps: seq<Trap>, isSubclassIncluding: (SootClass, SootClass) -> bool)
    ensures CaughtAt(e, u, traps, isSubclassIncluding) <==>
            exists t :: t in TrapsAt(u, traps) && isSubclassIncluding(e, t.exception)
  {
    CaughtAtIff(e, u, traps, isSubclassIncluding);
    TrapsAtMembership(u, traps);
  }

  /** `TrapsAt` keeps table order: it maps a concatenation of tables to the concatenation of results. */
  lemma {:induction false} TrapsAtAppend(u: Unit, xs: seq<Trap>, ys: seq<Trap>)
    ensures TrapsAt(u, xs + ys) == TrapsAt(u, xs) + TrapsAt(u, ys)
  {
    if xs == [] {
      assert xs + ys == ys;
    } else {
      var head := if Protects(xs[0], u) then [xs[0]] else [];
      assert (xs + ys)[0] == xs[0];
      assert (xs + ys)[1..] == xs[1..] + ys;
      TrapsAtAppend(u, xs[1..], ys);
      calc {
        TrapsAt(u, xs + ys);
        head + TrapsAt(u, xs[1..] + ys);
        head + (TrapsAt(u, xs[1..]) + TrapsAt(u, ys));
        (head + TrapsAt(u, xs[1..])) + TrapsAt(u, ys);
      }
    }
  }

  /** Some handler receives `e` raised at `u` exactly when `e` is caught at `u`. */
  lemma {:induction false} FirstCatcherIffCaughtAt(e: SootClass, u: Unit, traps: seq<Trap>, isSubclassIncluding: (SootClass, SootClass) -> bool)
    ensures FirstCatcher(e, u, traps, isSubclassIncluding).Some? <==> CaughtAt(e, u, traps, isSubclassIncluding)
  {
    if traps != [] {
      FirstCatcherIffCaughtAt(e, u, traps[1..], isSubclassIncluding);
    }
  }

  /** In a table made of two parts, the first part's catching trap wins; otherwise the second part decides. */
  lemma {:induction false} FirstCatcherAppend(e: SootClass, u: Unit, xs: seq<Trap>, ys: seq<Trap>, isSubclassIncluding: (SootClass, SootClass) -> bool)
    ensures FirstCatcher(e, u, xs + ys, isSubclassIncluding) ==
            if FirstCatcher(e, u, xs, isSubclassIncluding).Some? then FirstCatcher(e, u, xs, isSubclassIncluding)
            else FirstCatcher(e, u, ys, isSubclassIncluding)
  {
    if xs == [] {
      assert xs + ys == ys;
    } else {
      assert (xs + ys)[0] == xs[0] && (xs + ys)[1..] == xs[1..] + ys;
      FirstCatcherAppend(e, u, xs[1..], ys, isSubclassIncluding);
    }
  }

  /**
   * When all traps of `traps` share one handler and one exception class,
   * the handler receives `e` at `u` exactly when that class catches `e` and
   * some trap protects `u`.
   */
  lemma {:induction false} FirstCatcherUniform(e: SootClass, u: Unit, traps: seq<Trap>, isSubclassIncluding: (SootClass, SootClass) -> bool,
                                                handler: Unit, exception: SootClass)
    requires forall t :: t in traps ==> t.handlerUnit == handler && t.exception == exception
    ensures FirstCatcher(e, u, traps, isSubclassIncluding) ==
            if isSubclassIncluding(e, exception) && exists t :: t in traps && Protects(t, u) then Some(handler) else None
  {
    if traps != [] {
      assert forall t :: t in traps[1..] ==> t in traps;
      FirstCatcherUniform(e, u, traps[1..], isSubclassIncluding, handler, exception);
      assert forall t :: t in traps <==> t == traps[0] || t in traps[1..];
    }
  }

  /** The traps at `u` from position `i` on: trap `i` if it protects `u`, then those among the rest. */
  lemma TrapsAtFrom(u: Unit, traps: seq<Trap>, i: nat)
    requires i < |traps|
    ensures TrapsAt(u, traps[i..]) == (if Protects(traps[i], u) then [traps[i]] else []) + TrapsAt(u, traps[i + 1..])
  {
    assert traps[i..][0] == traps[i] && traps[i..][1..] == traps[i + 1..];
  }

  /**
   * The traps at `u` are exactly the traps protecting `u`, each occurrence
   * in the table listed once; there are none exactly when no trap protects `u`.
   */
  lemma {:induction false} TrapsAtMembership(u: Unit, traps: seq<Trap>)
    ensures forall t :: t in TrapsAt(u, traps) <==> t in traps && Protects(t, u)
    ensures forall t :: multiset(TrapsAt(u, traps))[t] == if Protects(t, u) then multiset(traps)[t] else 0
    ensures TrapsAt(u, traps) == [] <==> forall t :: t in traps ==> !Protects(t, u)
  {
    if traps != [] {
      TrapsAtMembership(u, traps[1..]);
      assert traps == [traps[0]] + traps[1..];
      assert multiset(traps) == multiset{traps[0]} + multiset(traps[1..]);
      assert forall t :: t in traps <==> t == traps[0] || t in traps[1..];
      var head := if Protects(traps[0], u) then [traps[0]] else [];
      assert multiset(TrapsAt(u, traps)) == multiset(head) + multiset(TrapsAt(u, traps[1..]));
    }
  }

  /** A unit is trapped exactly when some trap protects it. */
  lemma {:induction false} TrappedUnitsMembership(u: Unit, traps: seq<Trap>)
    ensures u in TrappedUnits(traps) <==> exists t :: t in traps && Protects(t, u)
  {
    if traps != [] {
      TrappedUnitsMembership(u, traps[1..]);
      assert u in ProtectedUnits(traps[0]) <==> Protects(traps[0], u);
      assert forall t :: t in traps <==> t == traps[0] || t in traps[1..];
    }
  }

  /** `u` is a trapped unit exactly when the list of traps at `u` is not empty. */
  lemma {:induction false} TrappedUnitsIffTrapsAt(u: Unit, traps: seq<Trap>)
    ensures u in TrappedUnits(traps) <==> TrapsAt(u, traps) != []
  {
    TrappedUnitsMembership(u, traps);
    TrapsAtMembership(u, traps);
  }

  /** A unit outside every trap's range has no traps and catches nothing. */
  lemma {:induction false} UntrappedUnitCatchesNothing(e: SootClass, u: Unit, traps: seq<Trap>, isSubclassIncluding: (SootClass, SootClass) -> bool)
    requires u !in TrappedUnits(traps)
    ensures TrapsAt(u, traps) == []
    ensures !CaughtAt(e, u, traps, isSubclassIncluding)
  {
    TrappedUnitsIffTrapsAt(u, traps);
    CaughtAtIffTrapsAt(e, u, traps, isSubclassIncluding);
  }

  /** `ExceptionTypesOf` keeps table order: it maps a concatenation of tables to the concatenation of results. */
  lemma {:induction false} ExceptionTypesOfAppend(handler: Unit, xs: seq<Trap>, ys: seq<Trap>, moduleMode: bool)
    ensures ExceptionTypesOf(handler, xs + ys, moduleMode) ==
            ExceptionTypesOf(handler, xs, moduleMode) + ExceptionTypesOf(handler, ys, moduleMode)
  {
    if xs == [] {
      assert xs + ys == ys;
    } else {
      var head := if xs[0].handlerUnit == handler then [RefTypeOf(xs[0].exception, moduleMode)] else [];
      assert (xs + ys)[0] == xs[0];
      assert (xs + ys)[1..] == xs[1..] + ys;
      ExceptionTypesOfAppend(handler, xs[1..], ys, moduleMode);
      calc {
        ExceptionTypesOf(handler, xs + ys, moduleMode);
        head + ExceptionTypesOf(handler, xs[1..] + ys, moduleMode);
        head + (ExceptionTypesOf(handler, xs[1..], moduleMode) + ExceptionTypesOf(handler, ys, moduleMode));
        (head + ExceptionTypesOf(handler, xs[1..], moduleMode)) + ExceptionTypesOf(handler, ys, moduleMode);
      }
    }
  }

  /** The entries contributed by the traps from position `i` on: those of trap `i`, then those of the rest. */
  lemma ExceptionTypesOfFrom(handler: Unit, traps: seq<Trap>, i: nat, moduleMode: bool)
    requires i < |traps|
    ensures ExceptionTypesOf(handler, traps[i..], moduleMode) ==
            (if traps[i].handlerUnit == handler then [RefTypeOf(traps[i].exception, moduleMode)] else [])
            + ExceptionTypesOf(handler, traps[i + 1..], moduleMode)
  {
    assert traps[i..][0] == traps[i] && traps[i..][1..] == traps[i + 1..];
  }

  /** The positions below `n` of the traps whose handler is `handler`. */
  function HandlerPositions(handler: Unit, traps: seq<Trap>, n: nat): set<nat>
    requires n <= |traps|
  {
    set i: nat | i < n && traps[i].handlerUnit == handler
  }

  /** The first `n` traps contribute one entry per trap among them whose handler is `handler`. */
  lemma {:induction false} ExceptionTypesOfPrefixCount(handler: Unit, traps: seq<Trap>, n: nat, moduleMode: bool)
    requires n <= |traps|
    ensures |ExceptionTypesOf(handler, traps[..n], moduleMode)| == |HandlerPositions(handler, traps, n)|
  {
    if n > 0 {
      var m := n - 1;
      assert traps[..n] == traps[..m] + [traps[m]];
      ExceptionTypesOfAppend(handler, traps[..m], [traps[m]], moduleMode);
      ExceptionTypesOfPrefixCount(handler, traps, m, moduleMode);
      var last := if traps[m].handlerUnit == handler then {m} else {};
      assert HandlerPositions(handler, traps, n) == HandlerPositions(handler, traps, m) + last;
      assert m !in HandlerPositions(handler, traps, m);
    }
  }

  /** One entry per trap whose handler is `handler`: duplicates are kept. */
  lemma ExceptionTypesOfCount(handler: Unit, traps: seq<Trap>, moduleMode: bool)
    ensures |ExceptionTypesOf(handler, traps, moduleMode)| == |HandlerPositions(handler, traps, |traps|)|
  {
    ExceptionTypesOfPrefixCount(handler, traps, |traps|, moduleMode);
    assert traps[..|traps|] == traps;
  }

  /** Each entry is the type of a trap with that handler, and every such trap contributes its type. */
  lemma {:induction false} ExceptionTypesOfMembership(handler: Unit, traps: seq<Trap>, moduleMode: bool)
    ensures forall r :: r in ExceptionTypesOf(handler, traps, moduleMode) <==>
              exists t :: t in traps && t.handlerUnit == handler && r == RefTypeOf(t.exception, moduleMode)
  {
    if traps != [] {
      ExceptionTypesOfMembership(handler, traps[1..], moduleMode);
      assert forall t :: t in traps <==> t == traps[0] || t in traps[1..];
    }
  }

  // ---------------------------------------------------------------------
  // The queries
  // ---------------------------------------------------------------------

  /** `isExceptionCaughtAt`: scans each trap catching `e` for `u`, stopping at the first hit. */
  method IsExceptionCaughtAt(e: SootClass, u: Unit, b: Body, isSubclassIncluding: (SootClass, SootClass) -> bool)
    returns (caught: bool)
    ensures caught == CaughtAt(e, u, b.traps, isSubclassIncluding)
  {
    var traps := b.traps;
    for i := 0 to |traps|
      invariant CaughtAt(e, u, traps, isSubclassIncluding) == CaughtAt(e, u, traps[i..], isSubclassIncluding)
    {
      var t := traps[i];
      assert traps[i..][0] == t && traps[i..][1..] == traps[i + 1..];
      if isSubclassIncluding(e, t.exception) {
        var it := t.beginUnit;
        while it < t.endUnit
          invariant t.beginUnit <= it
          invariant !(t.beginUnit <= u < it)
        {
          if u == it {
            return true;
          }
          it := it + 1;
        }
      }
    }
    return false;
  }

  /** `getTrapsAt`: every trap whose range holds `unit`, in table order. */
  method GetTrapsAt(unit: Unit, b: Body) returns (trapsList: seq<Trap>)
    ensures trapsList == TrapsAt(unit, b.traps)
  {
    trapsList := [];
    var traps := b.traps;
    for i := 0 to |traps|
      invariant trapsList + TrapsAt(unit, traps[i..]) == TrapsAt(unit, traps)
    {
      var t := traps[i];
      ghost var head := if Protects(t, unit) then [t] else [];
      TrapsAtFrom(unit, traps, i);
      ConcatAssoc(trapsList, head, TrapsAt(unit, traps[i + 1..]));
      ghost var before := trapsList;
      var it := t.beginUnit;
      while it < t.endUnit
        invariant t.beginUnit <= it && (it <= t.endUnit || it == t.beginUnit)
        invariant trapsList == before + if t.beginUnit <= unit < it then [t] else []
      {
        assert (t.beginUnit <= unit < it + 1) == (t.beginUnit <= unit < it || unit == it);
        if unit == it {
          trapsList := trapsList + [t];
        }
        it := it + 1;
      }
      assert (t.beginUnit <= unit < it) == Protects(t, unit);
    }
  }

  /** `getTrappedUnitsOf`: the units inside the range of any trap. */
  method GetTrappedUnitsOf(b: Body) returns (trapsSet: set<Unit>)
    ensures trapsSet == TrappedUnits(b.traps)
  {
    trapsSet := {};
    var traps := b.traps;
    for i := 0 to |traps|
      invariant trapsSet + TrappedUnits(traps[i..]) == TrappedUnits(traps)
    {
      var t := traps[i];
      assert traps[i..][0] == t && traps[i..][1..] == traps[i + 1..];
      ghost var before := trapsSet;
      var it := t.beginUnit;
      while it < t.endUnit
        invariant t.beginUnit <= it && (it <= t.endUnit || it == t.beginUnit)
        invariant trapsSet == before + ProtectedUnits(t.(endUnit := it))
      {
        assert ProtectedUnits(t.(endUnit := it + 1)) == ProtectedUnits(t.(endUnit := it)) + {it};
        trapsSet := trapsSet + {it};
        it := it + 1;
      }
      assert ProtectedUnits(t.(endUnit := it)) == ProtectedUnits(t);
    }
  }

  /** `getExceptionTypesOf`: the exception type of every trap whose handler is `u`, in table order. */
  method GetExceptionTypesOf(u: Unit, body: Body, moduleMode: bool) returns (possibleTypes: seq<RefType>)
    ensures possibleTypes == ExceptionTypesOf(u, body.traps, moduleMode)
  {
    possibleTypes := [];
    var traps := body.traps;
    for i := 0 to |traps|
      invariant possibleTypes + ExceptionTypesOf(u, traps[i..], moduleMode) == ExceptionTypesOf(u, traps, moduleMode)
    {
      var trap := traps[i];
      ghost var head := if trap.handlerUnit == u then [RefTypeOf(trap.exception, moduleMode)] else [];
      ghost var rest := ExceptionTypesOf(u, traps[i + 1..], moduleMode);
      ExceptionTypesOfFrom(u, traps, i, moduleMode);
      ConcatAssoc(possibleTypes, head, rest);
      if trap.handlerUnit == u {
        var refType := RefTypeOf(trap.exception, moduleMode);
        possibleTypes := possibleTypes + [refType];
      }
    }
  }
}
