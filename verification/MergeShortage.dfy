/**
 When reading a digit string by merging stops for lack of workspace.

 Merging multiplies the high number of every pair by a power of the base, and some of
 these products stop.  Which ones is a function of the number read, the first power and
 the number of digits provided for it.
 */
module MergeShortage {
  import opened Digits
  import opened Kernel
  import opened Lengths
  import opened MulCommon
  import opened Workspace
  import opened Shortage

  // Merging pairs of the groups of `unit` digits, n digits in all, that make up v to the base b stops.
  ghost predicate PassStops(v: nat, b: nat, n: nat, unit: nat)
    requires 0 < b && 0 < unit
    decreases n
  {
    || (unit <= n && Stops(Toom3Start, b, HighOfPair(v, b, n, unit), Min(2 * unit, n), 0))
    || (2 * unit <= n && PassStops(BeyondPair(v, b), b, n - 2 * unit, unit))
  }

  lemma PassNone(v: nat, b: nat, unit: nat)
    requires 0 < b && 0 < unit
    ensures !PassStops(v, b, 0, unit)
  {
  }

  // The high number of the first pair, and what lies beyond the pair
  ghost function HighOfPair(v: nat, b: nat, n: nat, unit: nat): (h: nat)
    requires 0 < b
    ensures 2 * unit <= n ==> h < b
  {
    ModLess(v, b);
    ModLess(v / b, b);
    if 2 * unit <= n then v / b % b else v / b
  }

  ghost function BeyondPair(v: nat, b: nat): nat
    requires 0 < b
  {
    ProductPositive(b, b);
    ModLess(v, b * b);
    v / (b * b)
  }

  // One of the passes, from groups of `unit` digits on, stops.
  ghost predicate MergeStops(v: nat, b: nat, n: nat, unit: nat)
    requires 0 < b && 0 < unit
    decreases n - unit
  {
    ProductPositive(b, b);
    unit < n && (PassStops(v, b, n, unit) || MergeStops(v, b * b, n, 2 * unit))
  }
}
