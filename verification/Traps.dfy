/**
 * The data a method body's exception table is made of: units, exception
 * classes, traps, and the body that owns the trap table.
 *
 * A unit is identified by its position in the body's unit chain, so the
 * unit before `u` is `u - 1` and two units are the same exactly when their
 * positions are equal.
 */
module Traps {

  /** A unit (instruction) of the body, by its position in the unit chain. */
  type Unit = nat

  datatype Option<T> = None | Some(value: T)

  /** An exception class, as far as this core looks at it: its name and, in module mode, its module. */
  datatype SootClass = SootClass(name: string, moduleName: Option<string>)

  /** The type descriptor handed out for an exception class. */
  datatype RefType =
    | RefType(className: string)
    | ModuleRefType(className: string, moduleName: Option<string>)

  /**
   * One entry of the exception table: the units `beginUnit` up to but not
   * including `endUnit` are protected, and an exception of (a subclass of)
   * `exception` raised there transfers control to `handlerUnit`.
   */
  datatype Trap = Trap(beginUnit: Unit, endUnit: Unit, handlerUnit: Unit, exception: SootClass)

  /**
   * Unit `u` lies in the range `beginUnit .. pred(endUnit)` of `t`. A range
   * whose end does not come after its begin protects nothing.
   */
  predicate Protects(t: Trap, u: Unit) {
    t.beginUnit <= u < t.endUnit
  }

  /** All three units `t` refers to are units of a chain of `unitCount` units. */
  predicate WithinBody(t: Trap, unitCount: nat) {
    t.beginUnit < unitCount && t.endUnit < unitCount && t.handlerUnit < unitCount
  }

  /**
   * Some trap of `traps` protects `u` with handler `handler` for exception
   * class `exception`: what a trap table means for the code it covers.
   */
  ghost predicate Guarded(traps: seq<Trap>, u: Unit, handler: Unit, exception: SootClass) {
    exists t :: t in traps && Protects(t, u) && t.handlerUnit == handler && t.exception == exception
  }

  /** Concatenation of sequences (trap tables, lists of types) is associative. */
  lemma ConcatAssoc<T>(a: seq<T>, b: seq<T>, c: seq<T>)
    ensures a + (b + c) == (a + b) + c
  {
  }

  /** A method body: a chain of `unitCount` units and the ordered trap table over them. */
  class Body {
    const unitCount: nat
    var traps: seq<Trap>

    /** Every trap refers to units of this body. */
    ghost predicate Valid()
      reads this
    {
      forall t :: t in traps ==> WithinBody(t, unitCount)
    }

    /** A body over `unitCount` units whose trap table refers only to those units. */
    constructor (unitCount: nat, traps: seq<Trap>)
      requires forall t :: t in traps ==> WithinBody(t, unitCount)
      ensures this.unitCount == unitCount && this.traps == traps
      ensures Valid()
    {
      this.unitCount := unitCount;
      this.traps := traps;
    }

    /** `setBeginUnit` on the trap at position `pos` of the table. */
    method SetBeginUnit(pos: nat, u: Unit)
      requires pos < |traps|
      modifies this
      ensures traps == old(traps)[pos := old(traps)[pos].(beginUnit := u)]
    {
      traps := traps[pos := traps[pos].(beginUnit := u)];
    }

    /** `insertAfter(newTrap, t)` on the trap chain, `t` being the trap at position `pos`. */
    method InsertAfter(newTrap: Trap, pos: nat)
      requires pos < |traps|
      modifies this
      ensures traps == old(traps)[..pos + 1] + [newTrap] + old(traps)[pos + 1..]
    {
      traps := traps[..pos + 1] + [newTrap] + traps[pos + 1..];
    }
  }
}
