# Trap tables of a method body

This project models Soot's `TrapManager`, the helper that reads and edits the exception table of a method body in Soot's intermediate representation. Each entry of that table is a *trap*. A trap protects the units (instructions) from `beginUnit` up to, but not including, `endUnit`. When an exception of its class, or of a subclass, is raised there, control goes to `handlerUnit`.

The model has three modules.

- `Traps` (`Traps.dfy`) holds the data:
  - units, identified by their position in the unit chain;
  - exception classes and the type descriptors handed out for them;
  - the `Trap` record;
  - the class `Body`, whose `traps` field is the ordered trap table that the splitter edits in place.
- `TrapQueries` (`TrapQueries.dfy`) holds the four read-only queries: `isExceptionCaughtAt`, `getTrapsAt`, `getTrappedUnitsOf` and `getExceptionTypesOf`.
  - Each is a method with the loops of the original: an outer loop over the trap table, and an inner loop over the units `beginUnit .. pred(endUnit)` where the original has one.
  - Each method is proved equal to a recursive specification function over the table.
  - Lemmas state what those functions mean: membership both ways, order and multiplicity, and how the queries relate to each other.
- `TrapSplitting` (`TrapSplitting.dfy`) holds `splitTrapsAgainst`.
  - The method walks a snapshot of the table. For each trap it walks the units `beginUnit .. endUnit`, including the end unit, and edits that trap in place. The copies it makes are spliced in right after the trap.
  - It is proved equal to `SplitAll`, a function built from the step-by-step walk `WalkFrom`.
  - Lemmas give each case of the walk in closed form: untouched, cut at `rangeStart`, cut at both bounds, `rangeEnd` as the last unit, and the "inversed range?" failure.
  - Lemmas also prove that splitting, whatever its outcome, never changes the handler an exception raised at a unit goes to (the first catching trap in table order), and that on failure nothing is rolled back.
  - The method's documented purpose is to split traps so that none crosses the range's bounds. Lemmas prove that, after a call that completes, no trap crosses `rangeStart`, and they state exactly when a trap still crosses `rangeEnd` (see "## Findings").

Some behaviours of the code are not the idealised ones. The model follows the code in each case:

- **Cut at `rangeStart`.** The trap itself becomes `[rangeStart, end)` and the copy inserted after it is `[begin, rangeStart)`. A description in which the original keeps `[begin, rangeStart)` and the copy is `[rangeStart, end)` does not match the code.
- **Three-way split.** When a trap spans both bounds, the table does not end with the three disjoint traps `[begin, rangeStart)`, `[rangeStart, rangeEnd)` and `[rangeEnd, end)`.
  - After handling `rangeEnd`, the flag `insideRange` is still set. So the end-of-walk cut fires again on the trap as it now stands.
  - The result is four records, in this order: `[rangeStart, end)`, `[rangeEnd, rangeStart)`, `[rangeStart, rangeEnd)`, `[begin, rangeStart)`.
  - The first record still crosses `rangeEnd`; see `SplitAcrossBothBounds`, `ThreeWaySplitStillCrossesRangeEnd`, `SplitAllCrossEnd` and `SplitExample`. This is listed under "## Findings", next to `IntendedSplitTrap`, the split the walk evidently aims at.
  - Every exception still goes to the same handler as before; see `SplitAllKeepsFirstCatcher` and `SplitAllKeepsProtection`.
- **The walk's end points.** The walk starts at `beginUnit` and includes `endUnit`. So a `rangeStart` equal to the trap's begin still cuts the trap, leaving an empty copy `[begin, begin)`. A `rangeEnd` equal to the trap's end unit is reached after the end-of-walk cut and cuts once more.

## Model

| member | source | states |
|---|---|---|
| `Traps.Body.SetBeginUnit` | src/main/java/soot/TrapManager.java:120 | `t.setBeginUnit(x)` on the trap at position `pos` rewrites that record's begin unit only; every other trap is unchanged |
| `Traps.Body.InsertAfter` | src/main/java/soot/TrapManager.java:122 | `traps.insertAfter(x, t)` places `x` right after position `pos` and shifts the rest of the table by one |
| `TrapQueries.IsExceptionCaughtAt` | src/main/java/soot/TrapManager.java:40-61 | the nested loop with early return answers exactly `CaughtAt` of the body's table |
| `TrapQueries.CaughtAtIff` | src/main/java/soot/TrapManager.java:40-61 | an exception is caught at `u` iff some trap whose class it is a subclass (or equal) of protects `u`; so never for an empty table |
| `TrapQueries.CaughtAtProtectedUnit` | src/main/java/soot/TrapManager.java:49-56 | a trap's own exception class is caught at every unit of its range, given a reflexive subclass test |
| `TrapQueries.CaughtAtIffTrapsAt` | src/main/java/soot/TrapManager.java:49-56 | an exception is caught at `u` iff some trap returned by `getTrapsAt(u)` catches it |
| `TrapQueries.GetTrapsAt` | src/main/java/soot/TrapManager.java:65-78 | the loop returns exactly `TrapsAt` of the table: the protecting traps, in table order |
| `TrapQueries.FirstCatcherIffCaughtAt` | src/main/java/soot/TrapManager.java:40-61 | some handler receives `e` raised at `u` (the first catching trap in table order) iff `isExceptionCaughtAt` holds |
| `TrapQueries.TrapsAtMembership` | src/main/java/soot/TrapManager.java:65-78 | a trap is in the result iff it is in the table and protects `u`; each occurs as often as in the table; the result is empty iff no trap protects `u` |
| `TrapQueries.TrapsAtAppend` | src/main/java/soot/TrapManager.java:69-76 | the result for a table made of two parts is the result for the first part followed by the result for the second (table order is kept) |
| `TrapQueries.GetTrappedUnitsOf` | src/main/java/soot/TrapManager.java:82-93 | the loop returns exactly `TrappedUnits` of the table, the union of the traps' ranges |
| `TrapQueries.TrappedUnitsMembership` | src/main/java/soot/TrapManager.java:82-93 | a unit is in the result iff some trap protects it |
| `TrapQueries.TrappedUnitsIffTrapsAt` | src/main/java/soot/TrapManager.java:86-91 | `u` is a trapped unit iff `getTrapsAt(u)` is non-empty |
| `TrapQueries.UntrappedUnitCatchesNothing` | src/main/java/soot/TrapManager.java:49-56 | at a unit outside every trap no trap is returned and no exception is caught |
| `TrapQueries.GetExceptionTypesOf` | src/main/java/soot/TrapManager.java:149-166 | the loop returns exactly `ExceptionTypesOf`; the method changes nothing |
| `TrapQueries.ExceptionTypesOfPrefixCount` | src/main/java/soot/TrapManager.java:152-163 | the first `n` traps contribute one entry per trap among them whose handler is `u` |
| `TrapQueries.ExceptionTypesOfCount` | src/main/java/soot/TrapManager.java:152-163 | one entry per trap whose handler is `u`, duplicates kept |
| `TrapQueries.ExceptionTypesOfMembership` | src/main/java/soot/TrapManager.java:152-163 | a type is in the result iff it is the type (plain or module-qualified) of a trap whose handler is `u` |
| `TrapQueries.ExceptionTypesOfAppend` | src/main/java/soot/TrapManager.java:152-163 | entries come in table order: the result for two parts is the first's followed by the second's |
| `TrapSplitting.SplitTrapsAgainst` | src/main/java/soot/TrapManager.java:99-144 | the in-place walk leaves the table equal to `SplitAll` of the original table, reports the same outcome, and keeps every trap within the body's units |
| `TrapSplitting.SplitTrapInPlace` | src/main/java/soot/TrapManager.java:105-142 | for a table `before + [x] + after`, the walk over `x` leaves `before + SplitTrap(x).records + after`; on the "inversed range?" error the table is unchanged |
| `TrapSplitting.CutAtWalkEnd` | src/main/java/soot/TrapManager.java:118-122 | at the walk's last unit the trap now begins at `rangeStart` and a copy ending at `rangeStart` is inserted right after it |
| `TrapSplitting.CutAtRangeEnd` | src/main/java/soot/TrapManager.java:132-140 | at `rangeEnd` the trap now begins at `rangeEnd`, followed by the copy `[rangeStart, rangeEnd)` and then the copy `[begin, rangeStart)` |
| `TrapSplitting.WalkSkips` | src/main/java/soot/TrapManager.java:111-142 | units that are neither a bound nor the last unit do not change the walk |
| `TrapSplitting.SplitLeavesUnrelatedTrap` | src/main/java/soot/TrapManager.java:116-126 | a trap whose walk meets neither bound, or meets `rangeEnd` only as its end unit, stays as it is and nothing is inserted for it |
| `TrapSplitting.SplitDetectsInversedRange` | src/main/java/soot/TrapManager.java:127-131 | the walk fails iff it meets `rangeEnd` before its end unit without having met `rangeStart` |
| `TrapSplitting.SplitAtRangeStartOnly` | src/main/java/soot/TrapManager.java:113-122 | meeting only `rangeStart` gives `[rangeStart, end)` followed by `[begin, rangeStart)` |
| `TrapSplitting.SplitAcrossBothBounds` | src/main/java/soot/TrapManager.java:116-140 | meeting `rangeStart` and then `rangeEnd` before the end unit gives the four records `[rangeStart, end)`, `[rangeEnd, rangeStart)`, `[rangeStart, rangeEnd)`, `[begin, rangeStart)` |
| `TrapSplitting.SplitWhenRangeEndIsTrapEnd` | src/main/java/soot/TrapManager.java:116-140 | when `rangeEnd` is the walk's last unit the records are `[end, end)`, `[rangeStart, end)`, `[rangeStart, rangeStart)`, `[begin, rangeStart)` |
| `TrapSplitting.ThreeWaySplitStillCrossesRangeEnd` | src/main/java/soot/TrapManager.java:116-140 | after a cut at both bounds the first record still protects `rangeStart` and `rangeEnd`, and contains the piece `[rangeStart, rangeEnd)` |
| `TrapSplitting.SplitExample` | src/main/java/soot/TrapManager.java:99-144 | a trap over units 1..5 with handler 6, split against `[3, 5)`, yields `[3,6)`, `[5,3)`, `[3,5)`, `[1,3)` |
| `TrapSplitting.SplitTrapKeepsProtection` | src/main/java/soot/TrapManager.java:119-140 | the records keep the trap's handler and exception class, only use units of its walk, and together protect exactly the trap's units |
| `TrapSplitting.SplitAllKeepsProtection` | src/main/java/soot/TrapManager.java:99-144 | after the call a unit is guarded by a handler for an exception class iff it was before |
| `TrapSplitting.SplitTrapKeepsFirstCatcher` | src/main/java/soot/TrapManager.java:119-140 | the records a trap turns into send every exception at every unit to the same handler as the trap alone did |
| `TrapSplitting.SplitAllKeepsFirstCatcher` | src/main/java/soot/TrapManager.java:99-144 | whatever the outcome, the first catching trap in table order has the same handler before and after the call, for every exception and unit |
| `TrapSplitting.SplitTrapNoCrossStart` | src/main/java/soot/TrapManager.java:95-98 | no record a trap turns into has `beginUnit < rangeStart < endUnit` |
| `TrapSplitting.SplitTrapCrossEnd` | src/main/java/soot/TrapManager.java:95-98 | a record a trap turns into crosses `rangeEnd` iff the trap had `beginUnit <= rangeStart < rangeEnd < endUnit` |
| `TrapSplitting.SplitAllNoCrossStart` | src/main/java/soot/TrapManager.java:95-98 | after a call that completes, no trap of the table crosses `rangeStart` |
| `TrapSplitting.SplitAllCrossEnd` | src/main/java/soot/TrapManager.java:95-98 | after a call that completes, some trap crosses `rangeEnd` iff some original trap had `beginUnit <= rangeStart < rangeEnd < endUnit` |
| `TrapSplitting.IntendedSplitTrapNoCrossing` | src/main/java/soot/TrapManager.java:95-98 | the split that ends the walk after the cut at `rangeEnd` keeps handler, exception class and protected units, and none of its records crosses either bound |
| `TrapSplitting.SplitAllLeavesUnrelatedTable` | src/main/java/soot/TrapManager.java:102-126 | if no walk meets either bound, the call completes and the table is unchanged |
| `TrapSplitting.SplitAllAppend` | src/main/java/soot/TrapManager.java:102-105 | the traps are handled one after the other: if every trap of a first part splits, its records come first and the rest of the table decides what follows and how the call ends |
| `TrapSplitting.SplitAllNoRollback` | src/main/java/soot/TrapManager.java:102-131 | when trap `x` is the first to fail, the call ends with `InversedRange`, the traps before `x` stay split, and `x` and every trap after it are left as they were |
| `TrapSplitting.SplitAllStaysWithinBody` | src/main/java/soot/TrapManager.java:99-144 | every record after the call refers to units of the body if every trap did before |

## Findings

| source | as written | input that shows it | evidently intended | confidence | as-written member | corrected member |
|---|---|---|---|---|---|---|
| src/main/java/soot/TrapManager.java:116-140 | after the cut at `rangeEnd`, `insideRange` stays set, so the end-of-walk cut at lines 118-122 fires again and the trap becomes `[rangeStart, end)`, which still crosses `rangeEnd` | trap `[1, 6)`, `rangeStart = 3`, `rangeEnd = 5`: records `[3,6)`, `[5,3)`, `[3,5)`, `[1,3)`; `[3,6)` protects units 3, 4 and 5, so it crosses 5 | the walk ends after the cut at `rangeEnd`, leaving `[5,6)`, `[3,5)`, `[1,3)`, none crossing either bound, as the comment at lines 95-98 promises | medium, not executed | `TrapSplitting.ThreeWaySplitStillCrossesRangeEnd` | `TrapSplitting.IntendedSplitTrapNoCrossing` |

`SplitTrapsAgainst` and `SplitAll` keep modelling the code as written, which is what callers of this version observe. `IntendedSplitTrap` stands beside them as the corrected per-trap split. Both the as-written and the intended splits keep every exception going to the same handler.

## Left out

- The class hierarchy (`Scene.v().getActiveHierarchy()`, `isClassSubclassOfIncluding`) is a global oracle. `IsExceptionCaughtAt` takes the subclass-or-equal test as a function parameter and assumes nothing about it.
- `ModuleUtil.module_mode()` is global configuration. `GetExceptionTypesOf` takes it as a boolean parameter.
- `RefType.v` and `ModuleRefType.v` intern type objects. Here they build `RefType` values, and the Guava `Optional` becomes `Option`.
- The unit chain (`soot.util.Chain`, `HashChain`: `iterator(from, to)`, `getPredOf`, `snapshotIterator`, `insertAfter`) is not part of this model.
  - Units are positions in the chain, so the unit before `end` is `end - 1`.
  - The trap table is a sequence that the methods reassign.
  - The snapshot iterator becomes a copy of the table taken when the call starts.
- The chain iterator's behaviour on degenerate ranges is not modelled. In the queries, a trap whose end does not come after its begin protects nothing. In the splitter, a trap whose end unit comes before its begin unit has an empty walk and is left as it is.
- Traps are values, not objects. The in-place setters rewrite the record at the trap's position, and `Trap.clone` is a copy of the record. Aliasing of one trap object by two tables is not modelled.
- `TrapSplitting.SplitTrapsAgainst`: the `RuntimeException("inversed range?")` is not thrown. It is returned as the outcome `InversedRange`, and the table is left as it stands at that point.
- Concurrent use of one body from several threads is not modelled.
