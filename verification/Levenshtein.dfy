/**
  The weighted Levenshtein distance of vlr-util/util.LevenshteinDistance.h: a one-row dynamic
  program that is updated in place, swaps its arguments when the source is the longer string,
  and skips the three-way minimum wherever the substitution cost is zero.

  The specification is independent of the recurrence: the cheapest of all edit scripts, and,
  when the substitution cost obeys the triangle inequality, the cheapest of all chains of
  single-character rewrites.
*/
module Levenshtein {

  datatype Costs = Costs(ins: real, del: real, delta: (char, char) -> real)

  ghost predicate NonNegative(c: Costs) {
    0.0 <= c.ins && 0.0 <= c.del && forall x, y :: 0.0 <= c.delta(x, y)
  }

  // ---------- Edit scripts ----------

  /** One step of an edit script; Align both keeps a character and substitutes one. */
  datatype Edit = Insert(t: char) | Delete(s: char) | Align(s: char, t: char)

  function Source(script: seq<Edit>): string {
    if script == [] then []
    else
      var init, last := script[..|script| - 1], script[|script| - 1];
      Source(init) + if last.Insert? then [] else [last.s]
  }

  function Target(script: seq<Edit>): string {
    if script == [] then []
    else
      var init, last := script[..|script| - 1], script[|script| - 1];
      Target(init) + if last.Delete? then [] else [last.t]
  }

  function EditCost(e: Edit, c: Costs): real {
    match e
    case Insert(_) => c.ins
    case Delete(_) => c.del
    case Align(x, y) => c.delta(x, y)
  }

  function ScriptCost(script: seq<Edit>, c: Costs): real {
    if script == [] then 0.0
    else ScriptCost(script[..|script| - 1], c) + EditCost(script[|script| - 1], c)
  }

  predicate Transforms(script: seq<Edit>, s: string, t: string) {
    Source(script) == s && Target(script) == t
  }

  /** r is the least cost of a script from s to t: some script costs r and none costs less. */
  ghost predicate IsOptimum(r: real, s: string, t: string, c: Costs) {
    && (exists script :: Transforms(script, s, t) && ScriptCost(script, c) == r)
    && (forall script :: Transforms(script, s, t) ==> r <= ScriptCost(script, c))
  }

  // ---------- The recurrence ----------

  function Cheaper(x: real, y: real): real {
    if y < x then y else x
  }

  function Dist(s: string, t: string, c: Costs): real
    decreases |s| + |t|
  {
    if s == [] && t == [] then 0.0
    else if s == [] then Dist(s, t[..|t| - 1], c) + c.ins
    else if t == [] then Dist(s[..|s| - 1], t, c) + c.del
    else
      var s', t' := s[..|s| - 1], t[..|t| - 1];
      Cheaper(Cheaper(Dist(s', t, c) + c.del, Dist(s, t', c) + c.ins),
          Dist(s', t', c) + c.delta(s[|s| - 1], t[|t| - 1]))
  }

  lemma {:induction false} NoScriptIsCheaper(script: seq<Edit>, c: Costs)
    ensures Dist(Source(script), Target(script), c) <= ScriptCost(script, c)
  {
    if script != [] {
      var init := script[..|script| - 1];
      NoScriptIsCheaper(init, c);
      DistExtends(Source(init), Target(init), script[|script| - 1], c);
    }
  }

  /** One more edit at the end raises the distance by at most the cost of that edit. */
  lemma DistExtends(s: string, t: string, e: Edit, c: Costs)
    ensures Dist(s + (if e.Insert? then [] else [e.s]), t + (if e.Delete? then [] else [e.t]), c)
         <= Dist(s, t, c) + EditCost(e, c)
  {
    var s1 := s + (if e.Insert? then [] else [e.s]);
    var t1 := t + (if e.Delete? then [] else [e.t]);
    assert e.Insert? ==> s1 == s && t1[..|t1| - 1] == t;
    assert e.Delete? ==> t1 == t && s1[..|s1| - 1] == s;
    assert e.Align? ==> s1[..|s1| - 1] == s && t1[..|t1| - 1] == t;
  }

  /** The script with one more edit, between the strings that the edit ends. */
  lemma ExtendScript(init: seq<Edit>, e: Edit, s: string, t: string, c: Costs) returns (script: seq<Edit>)
    requires s == Source(init) + if e.Insert? then [] else [e.s]
    requires t == Target(init) + if e.Delete? then [] else [e.t]
    ensures Transforms(script, s, t) && ScriptCost(script, c) == ScriptCost(init, c) + EditCost(e, c)
  {
    script := init + [e];
    assert script[..|init|] == init;
  }

  lemma {:induction false} SomeScriptAttains(s: string, t: string, c: Costs) returns (script: seq<Edit>)
    ensures Transforms(script, s, t)
    ensures ScriptCost(script, c) == Dist(s, t, c)
    decreases |s| + |t|
  {
    if s == [] && t == [] {
      script := [];
    } else if s != [] && Dist(s, t, c) == Dist(s[..|s| - 1], t, c) + c.del {
      var init := SomeScriptAttains(s[..|s| - 1], t, c);
      script := ExtendScript(init, Delete(s[|s| - 1]), s, t, c);
    } else if t != [] && Dist(s, t, c) == Dist(s, t[..|t| - 1], c) + c.ins {
      var init := SomeScriptAttains(s, t[..|t| - 1], c);
      script := ExtendScript(init, Insert(t[|t| - 1]), s, t, c);
    } else {
      var init := SomeScriptAttains(s[..|s| - 1], t[..|t| - 1], c);
      script := ExtendScript(init, Align(s[|s| - 1], t[|t| - 1]), s, t, c);
    }
  }

  lemma DistIsOptimum(s: string, t: string, c: Costs)
    ensures IsOptimum(Dist(s, t, c), s, t, c)
  {
    var best := SomeScriptAttains(s, t, c);
    forall script | Transforms(script, s, t)
      ensures Dist(s, t, c) <= ScriptCost(script, c)
    {
      NoScriptIsCheaper(script, c);
    }
  }

  lemma OptimumIsUnique(r: real, s: string, t: string, c: Costs)
    requires IsOptimum(r, s, t, c)
    ensures r == Dist(s, t, c)
  {
    DistIsOptimum(s, t, c);
  }

  // ---------- The zero-delta shortcut ----------

  /** Dropping the last target character costs at most one deletion. */
  lemma {:induction false} DropTarget(s: string, t: string, c: Costs)
    requires NonNegative(c) && t != []
    ensures Dist(s, t[..|t| - 1], c) <= Dist(s, t, c) + c.del
    decreases |s|
  {
    if s != [] {
      DropTarget(s[..|s| - 1], t, c);
    }
  }

  /** Dropping the last source character costs at most one insertion. */
  lemma {:induction false} DropSource(s: string, t: string, c: Costs)
    requires NonNegative(c) && s != []
    ensures Dist(s[..|s| - 1], t, c) <= Dist(s, t, c) + c.ins
    decreases |t|
  {
    if t != [] {
      DropSource(s, t[..|t| - 1], c);
    }
  }

  /** Taking the old diagonal when delta is zero gives the same cell as the three-way minimum. */
  lemma {:induction false} ZeroDeltaShortcut(s: string, t: string, c: Costs)
    requires NonNegative(c) && s != [] && t != []
    requires c.delta(s[|s| - 1], t[|t| - 1]) == 0.0
    ensures Dist(s, t, c) == Dist(s[..|s| - 1], t[..|t| - 1], c)
  {
    DropTarget(s[..|s| - 1], t, c);
    DropSource(s, t[..|t| - 1], c);
  }

  // ---------- The argument swap ----------

  /** The costs of running every script backwards. */
  function Reversed(c: Costs): Costs {
    Costs(c.del, c.ins, (x, y) => c.delta(y, x))
  }

  function Transposed(c: Costs): Costs {
    Costs(c.ins, c.del, (x, y) => c.delta(y, x))
  }

  lemma {:induction false} DistReversed(s: string, t: string, c: Costs)
    ensures Dist(t, s, Reversed(c)) == Dist(s, t, c)
    decreases |s| + |t|
  {
    if s != [] { DistReversed(s[..|s| - 1], t, c); }
    if t != [] { DistReversed(s, t[..|t| - 1], c); }
    if s != [] && t != [] { DistReversed(s[..|s| - 1], t[..|t| - 1], c); }
  }

  /** A substitution never costs more than deleting one character and inserting the other. */
  function Capped(c: Costs, x: char, y: char): real {
    Cheaper(c.delta(x, y), c.ins + c.del)
  }

  lemma CappedStep(s: string, t: string, c: Costs)
    requires s != [] && t != []
    ensures var s', t' := s[..|s| - 1], t[..|t| - 1];
      Dist(s, t, c) == Cheaper(Cheaper(Dist(s', t, c) + c.del, Dist(s, t', c) + c.ins),
                           Dist(s', t', c) + Capped(c, s[|s| - 1], t[|t| - 1]))
  {}

  /** The distance depends on the substitution costs of the given strings only up to that cap. */
  lemma {:induction false} DistCongruent(s: string, t: string, c: Costs, d: Costs)
    requires c.ins == d.ins && c.del == d.del
    requires forall i, j :: 0 <= i < |s| && 0 <= j < |t| ==> Capped(c, s[i], t[j]) == Capped(d, s[i], t[j])
    ensures Dist(s, t, c) == Dist(s, t, d)
    decreases |s| + |t|
  {
    if s == [] {
      if t != [] { DistCongruent(s, t[..|t| - 1], c, d); }
    } else if t == [] {
      DistCongruent(s[..|s| - 1], t, c, d);
    } else {
      DistCongruent(s[..|s| - 1], t, c, d);
      DistCongruent(s, t[..|t| - 1], c, d);
      DistCongruent(s[..|s| - 1], t[..|t| - 1], c, d);
      CappedStep(s, t, c);
      CappedStep(s, t, d);
    }
  }

  /** The costs under which the returned number is the optimum. */
  function EffectiveCosts(s: string, t: string, c: Costs): Costs {
    if |s| > |t| then Transposed(c) else c
  }

  lemma {:induction false} SwapOptimum(s: string, t: string, c: Costs)
    ensures Dist(t, s, Costs(c.del, c.ins, c.delta)) == Dist(s, t, Transposed(c))
  {
    var swapped := Costs(c.del, c.ins, c.delta);
    DistReversed(t, s, swapped);
    DistCongruent(s, t, Reversed(swapped), Transposed(c));
  }

  /** For one call: the swap goes unnoticed when the capped substitution cost is symmetric on its characters. */
  lemma {:induction false} SwapUnnoticed(s: string, t: string, c: Costs)
    requires |s| > |t| ==> forall i, j :: 0 <= i < |s| && 0 <= j < |t| ==> Capped(c, s[i], t[j]) == Capped(c, t[j], s[i])
    ensures IsOptimum(Dist(s, t, EffectiveCosts(s, t, c)), s, t, c)
  {
    DistIsOptimum(s, t, c);
    if |s| > |t| {
      DistCongruent(s, t, c, Transposed(c));
    }
  }

  lemma TwoToOne(x: char, y: char, c: Costs)
    requires NonNegative(c)
    ensures Dist([x, x], [y], c) == c.del + Capped(c, x, y)
  {
    assert [x, x][..1] == [x] && [x][..0] == [] && [y][..0] == [];
    assert Dist([], [y], c) == c.ins;
    assert Dist([x], [], c) == c.del;
    assert Dist([x], [y], c) == Capped(c, x, y);
    assert Dist([x, x], [], c) == c.del + c.del;
  }

  /**
    The result is the optimum under the caller's own delta for all strings exactly when that
    delta is symmetric up to the cap: the swap hands delta its arguments in the other order.
  */
  lemma SwapUnnoticedIff(c: Costs)
    requires NonNegative(c)
    ensures (forall s, t :: IsOptimum(Dist(s, t, EffectiveCosts(s, t, c)), s, t, c))
       <==> (forall x, y :: Capped(c, x, y) == Capped(c, y, x))
  {
    if forall x, y :: Capped(c, x, y) == Capped(c, y, x) {
      forall s, t ensures IsOptimum(Dist(s, t, EffectiveCosts(s, t, c)), s, t, c) {
        SwapUnnoticed(s, t, c);
      }
    } else {
      var x, y :| Capped(c, x, y) != Capped(c, y, x);
      TwoToOne(x, y, c);
      TwoToOne(x, y, Transposed(c));
      if IsOptimum(Dist([x, x], [y], EffectiveCosts([x, x], [y], c)), [x, x], [y], c) {
        OptimumIsUnique(Dist([x, x], [y], EffectiveCosts([x, x], [y], c)), [x, x], [y], c);
        assert false;
      }
    }
  }

  const SUBSTITUTE_AB_FREELY := Costs(1.0, 1.0, (x, y) => if x == y || (x == 'a' && y == 'b') then 0.0 else 1.0)

  /** One deletion would do, but the swap asks for the price of substituting the other way around. */
  lemma SwapNoticed()
    ensures var c := SUBSTITUTE_AB_FREELY;
      IsOptimum(1.0, "aa", "b", c) && Dist("aa", "b", EffectiveCosts("aa", "b", c)) == 2.0
  {
    var c := SUBSTITUTE_AB_FREELY;
    assert "aa" == ['a', 'a'] && "b" == ['b'];
    TwoToOne('a', 'b', c);
    TwoToOne('a', 'b', Transposed(c));
    DistIsOptimum("aa", "b", c);
  }

  // ---------- The one-row dynamic program ----------

  /** The table cell for the first i source and the first j target characters. */
  ghost function Cell(s: string, t: string, i: nat, j: nat, c: Costs): real
    requires i <= |s| && j <= |t|
  {
    Dist(s[..i], t[..j], c)
  }

  lemma CellRecurrence(s: string, t: string, i: nat, j: nat, c: Costs)
    requires NonNegative(c) && i <= |s| && j <= |t|
    ensures i == 0 && j == 0 ==> Cell(s, t, i, j, c) == 0.0
    ensures i == 0 && j > 0 ==> Cell(s, t, i, j, c) == Cell(s, t, i, j - 1, c) + c.ins
    ensures i > 0 && j == 0 ==> Cell(s, t, i, j, c) == Cell(s, t, i - 1, j, c) + c.del
    ensures i > 0 && j > 0 ==>
      var delta := c.delta(s[i - 1], t[j - 1]);
      Cell(s, t, i, j, c) ==
      if delta == 0.0 then Cell(s, t, i - 1, j - 1, c)
      else Cheaper(Cheaper(Cell(s, t, i - 1, j, c) + c.del, Cell(s, t, i, j - 1, c) + c.ins),
               Cell(s, t, i - 1, j - 1, c) + delta)
  {
    if i > 0 { assert s[..i][..i - 1] == s[..i - 1]; }
    if j > 0 { assert t[..j][..j - 1] == t[..j - 1]; }
    if i > 0 && j > 0 && c.delta(s[i - 1], t[j - 1]) == 0.0 {
      ZeroDeltaShortcut(s[..i], t[..j], c);
    }
  }

  /** Entries up to i already belong to column j, the others still to column j - 1. */
  ghost predicate RowMixed(row: seq<real>, i: nat, s: string, t: string, j: nat, c: Costs)
    requires |row| == |s| + 1 && 0 < j <= |t|
  {
    && (forall k :: 0 <= k < i && k <= |s| ==> row[k] == Cell(s, t, k, j, c))
    && (forall k :: i <= k <= |s| ==> row[k] == Cell(s, t, k, j - 1, c))
  }

  ghost predicate RowDone(row: seq<real>, i: nat, s: string, t: string, j: nat, c: Costs)
    requires |row| == |s| + 1 && j <= |t| && i <= |s| + 1
  {
    forall k :: 0 <= k < i ==> row[k] == Cell(s, t, k, j, c)
  }

  method GeneralizedLevenshteinDistanceCustomCost(source: string, target: string, c: Costs) returns (r: real)
    requires NonNegative(c)
    ensures r == Dist(source, target, EffectiveCosts(source, target, c))
    ensures IsOptimum(r, source, target, EffectiveCosts(source, target, c))
    decreases |source| > |target|
  {
    if |source| > |target| {
      r := GeneralizedLevenshteinDistanceCustomCost(target, source, Costs(c.del, c.ins, c.delta));
      SwapOptimum(source, target, c);
      DistIsOptimum(source, target, Transposed(c));
      return;
    }
    var minSize, maxSize := |source|, |target|;
    var levDist := new real[minSize + 1];
    levDist[0] := 0.0;
    CellRecurrence(source, target, 0, 0, c);
    for i := 1 to minSize + 1
      invariant RowDone(levDist[..], i, source, target, 0, c)
    {
      CellRecurrence(source, target, i, 0, c);
      levDist[i] := levDist[i - 1] + c.del;
    }
    for j := 1 to maxSize + 1
      invariant RowDone(levDist[..], minSize + 1, source, target, j - 1, c)
    {
      var previousDiagonal := levDist[0];
      levDist[0] := levDist[0] + c.ins;
      CellRecurrence(source, target, 0, j, c);
      for i := 1 to minSize + 1
        invariant RowMixed(levDist[..], i, source, target, j, c)
        invariant previousDiagonal == Cell(source, target, i - 1, j - 1, c)
      {
        CellRecurrence(source, target, i, j, c);
        var previousDiagonalSave := levDist[i];
        var deltaCost := c.delta(source[i - 1], target[j - 1]);
        if deltaCost == 0.0 {
          levDist[i] := previousDiagonal;
        } else {
          levDist[i] := Cheaper(Cheaper(levDist[i - 1] + c.del, levDist[i] + c.ins), previousDiagonal + deltaCost);
        }
        previousDiagonal := previousDiagonalSave;
      }
    }
    assert source[..minSize] == source && target[..maxSize] == target;
    r := levDist[minSize];
    DistIsOptimum(source, target, c);
  }
}
