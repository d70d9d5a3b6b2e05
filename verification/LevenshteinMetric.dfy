/**
  What the Levenshtein distance of vlr-util/util.LevenshteinDistance.h means to its callers: a
  metric with the default costs, and the price of the cheapest chain of single-character rewrites.
*/
module LevenshteinMetric {
  import opened Levenshtein

  // ---------- Fixed costs ----------

  function MismatchCosts(ins: real, del: real, rep: real): Costs {
    Costs(ins, del, (x, y) => if x == y then 0.0 else rep)
  }

  // ---------- Zero, symmetry, triangle ----------

  lemma {:induction false} DistNonNegative(s: string, t: string, c: Costs)
    requires NonNegative(c)
    ensures 0.0 <= Dist(s, t, c)
    ensures c.ins > 0.0 && |s| < |t| ==> 0.0 < Dist(s, t, c)
    ensures c.del > 0.0 && |s| > |t| ==> 0.0 < Dist(s, t, c)
    decreases |s| + |t|
  {
    if s != [] { DistNonNegative(s[..|s| - 1], t, c); }
    if t != [] { DistNonNegative(s, t[..|t| - 1], c); }
    if s != [] && t != [] { DistNonNegative(s[..|s| - 1], t[..|t| - 1], c); }
  }

  /** The distance is zero exactly for strings of one length whose characters substitute for free. */
  lemma {:induction false} DistZeroIff(s: string, t: string, c: Costs)
    requires NonNegative(c) && c.ins > 0.0 && c.del > 0.0
    ensures Dist(s, t, c) == 0.0 <==> |s| == |t| && forall i :: 0 <= i < |s| ==> c.delta(s[i], t[i]) == 0.0
    decreases |s|
  {
    DistNonNegative(s, t, c);
    if s != [] && |s| == |t| {
      var s', t' := s[..|s| - 1], t[..|t| - 1];
      DistZeroIff(s', t', c);
      DistNonNegative(s', t, c);
      DistNonNegative(s, t', c);
      DistNonNegative(s', t', c);
    }
  }

  ghost predicate Triangular(c: Costs) {
    forall x, y, z :: c.delta(x, z) <= c.delta(x, y) + c.delta(y, z)
  }

  /** Two scripts that meet in the middle string compose without costing more. */
  lemma {:induction false} ScriptsCompose(e: seq<Edit>, f: seq<Edit>, c: Costs)
    requires NonNegative(c) && Triangular(c)
    requires Target(e) == Source(f)
    ensures Dist(Source(e), Target(f), c) <= ScriptCost(e, c) + ScriptCost(f, c)
    decreases |e| + |f|
  {
    if e == [] && f == [] {
      return;
    }
    var e0, f0 := if e == [] then e else e[..|e| - 1], if f == [] then f else f[..|f| - 1];
    if e != [] && e[|e| - 1].Delete? {
      ScriptsCompose(e0, f, c);
      DistExtends(Source(e0), Target(f), e[|e| - 1], c);
      assert Target(f) + [] == Target(f);
    } else if f != [] && f[|f| - 1].Insert? {
      ScriptsCompose(e, f0, c);
      DistExtends(Source(e), Target(f0), f[|f| - 1], c);
      assert Source(e) + [] == Source(e);
    } else {
      var l, m := e[|e| - 1], f[|f| - 1];
      assert Target(e) == Target(e0) + [l.t] && Source(f) == Source(f0) + [m.s];
      assert Target(e)[..|Target(e)| - 1] == Target(e0) && Source(f)[..|Source(f)| - 1] == Source(f0);
      assert l.t == m.s;
      ScriptsCompose(e0, f0, c);
      ComposeStep(Source(e0), Target(f0), l, m, c);
    }
  }

  lemma ComposeStep(s: string, t: string, l: Edit, m: Edit, c: Costs)
    requires NonNegative(c) && Triangular(c)
    requires !l.Delete? && !m.Insert? && l.t == m.s
    ensures Dist(s + (if l.Insert? then [] else [l.s]), t + (if m.Delete? then [] else [m.t]), c)
         <= Dist(s, t, c) + EditCost(l, c) + EditCost(m, c)
  {
    assert s + [] == s && t + [] == t;
    if l.Align? && m.Align? {
      DistExtends(s, t, Align(l.s, m.t), c);
    } else if l.Align? {
      DistExtends(s, t, Delete(l.s), c);
    } else if m.Align? {
      DistExtends(s, t, Insert(m.t), c);
    }
  }

  lemma {:induction false} TriangleInequality(s: string, t: string, u: string, c: Costs)
    requires NonNegative(c) && Triangular(c)
    ensures Dist(s, u, c) <= Dist(s, t, c) + Dist(t, u, c)
  {
    var e := SomeScriptAttains(s, t, c);
    var f := SomeScriptAttains(t, u, c);
    ScriptsCompose(e, f, c);
  }

  ghost predicate IsMetric(c: Costs) {
    && (forall s, t :: Dist(s, t, c) == 0.0 <==> s == t)
    && (forall s, t :: Dist(s, t, c) == Dist(t, s, c))
    && (forall s, t, u :: Dist(s, u, c) <= Dist(s, t, c) + Dist(t, u, c))
  }

  /** The wrapper computes a metric for exactly the costs that are positive and treat insert and delete alike. */
  lemma MetricIff(ins: real, del: real, rep: real)
    requires 0.0 <= ins && 0.0 <= del && 0.0 <= rep
    ensures IsMetric(MismatchCosts(ins, del, rep)) <==> ins == del && 0.0 < ins && 0.0 < rep
  {
    var c := MismatchCosts(ins, del, rep);
    if ins == del && 0.0 < ins && 0.0 < rep {
      forall s, t ensures Dist(s, t, c) == 0.0 <==> s == t {
        DistZeroIff(s, t, c);
      }
      forall s, t ensures Dist(s, t, c) == Dist(t, s, c) {
        DistReversed(s, t, c);
        DistCongruent(t, s, c, Reversed(c));
      }
      forall s, t, u ensures Dist(s, u, c) <= Dist(s, t, c) + Dist(t, u, c) {
        TriangleInequality(s, t, u, c);
      }
    } else {
      assert ['a'][..0] == [] && ['b'][..0] == [];
      assert Dist([], ['a'], c) == ins && Dist(['a'], [], c) == del;
      assert Dist(['a'], ['b'], c) == Cheaper(Cheaper(ins + del, del + ins), rep);
    }
  }

  /** With a dearer deletion the way back costs more. */
  lemma UnequalCostsAreNoMetric()
    ensures var c := MismatchCosts(1.0, 2.0, 1.0); Dist("", "a", c) == 1.0 && Dist("a", "", c) == 2.0
  {
    assert "a"[..0] == "";
  }

  // ---------- Chains of single-character rewrites ----------

  /** A rewrite of one string by inserting, deleting or replacing one character in place. */
  datatype Rewrite = InsertAt(at: nat, x: char) | DeleteAt(at: nat) | ReplaceAt(at: nat, x: char)

  predicate Applies(s: string, w: Rewrite) {
    if w.InsertAt? then w.at <= |s| else w.at < |s|
  }

  function Apply(s: string, w: Rewrite): string
    requires Applies(s, w)
  {
    match w
    case InsertAt(at, x) => s[..at] + [x] + s[at..]
    case DeleteAt(at) => s[..at] + s[at + 1..]
    case ReplaceAt(at, x) => s[..at] + [x] + s[at + 1..]
  }

  function RewriteCost(s: string, w: Rewrite, c: Costs): real
    requires Applies(s, w)
  {
    match w
    case InsertAt(_, _) => c.ins
    case DeleteAt(_) => c.del
    case ReplaceAt(at, x) => c.delta(s[at], x)
  }

  predicate ChainApplies(s: string, ws: seq<Rewrite>)
    decreases |ws|
  {
    ws == [] || (Applies(s, ws[0]) && ChainApplies(Apply(s, ws[0]), ws[1..]))
  }

  function ChainResult(s: string, ws: seq<Rewrite>): string
    requires ChainApplies(s, ws)
    decreases |ws|
  {
    if ws == [] then s else ChainResult(Apply(s, ws[0]), ws[1..])
  }

  function ChainCost(s: string, ws: seq<Rewrite>, c: Costs): real
    requires ChainApplies(s, ws)
    decreases |ws|
  {
    if ws == [] then 0.0 else RewriteCost(s, ws[0], c) + ChainCost(Apply(s, ws[0]), ws[1..], c)
  }

  ghost predicate Rewrites(s: string, ws: seq<Rewrite>, t: string) {
    ChainApplies(s, ws) && ChainResult(s, ws) == t
  }

  /** A pseudometric on characters: nothing costs nothing, and detours never pay. */
  ghost predicate CharMetric(c: Costs) {
    NonNegative(c) && Triangular(c) && forall x :: c.delta(x, x) == 0.0
  }

  /** A common suffix never raises the distance. */
  lemma {:induction false} DistCommonSuffix(s: string, t: string, suffix: string, c: Costs)
    requires CharMetric(c)
    ensures Dist(s + suffix, t + suffix, c) <= Dist(s, t, c)
    decreases |suffix|
  {
    if suffix == [] {
      assert s + suffix == s && t + suffix == t;
    } else {
      var init, x := suffix[..|suffix| - 1], suffix[|suffix| - 1];
      DistCommonSuffix(s, t, init, c);
      DistExtends(s + init, t + init, Align(x, x), c);
      assert s + suffix == s + init + [x] && t + suffix == t + init + [x];
    }
  }

  lemma {:induction false} DistSelf(s: string, c: Costs)
    requires CharMetric(c)
    ensures Dist(s, s, c) <= 0.0
  {
    DistCommonSuffix([], [], s, c);
    assert [] + s == s;
  }

  lemma OneRewrite(s: string, w: Rewrite, c: Costs)
    requires CharMetric(c) && Applies(s, w)
    ensures Dist(s, Apply(s, w), c) <= RewriteCost(s, w, c)
  {
    var before := s[..w.at];
    DistSelf(before, c);
    assert before + [] == before;
    if w.InsertAt? {
      DistExtends(before, before, Insert(w.x), c);
      DistCommonSuffix(before, before + [w.x], s[w.at..], c);
      assert s == before + s[w.at..];
    } else {
      assert s == before + [s[w.at]] + s[w.at + 1..];
      if w.DeleteAt? {
        DistExtends(before, before, Delete(s[w.at]), c);
        DistCommonSuffix(before + [s[w.at]], before, s[w.at + 1..], c);
      } else {
        DistExtends(before, before, Align(s[w.at], w.x), c);
        DistCommonSuffix(before + [s[w.at]], before + [w.x], s[w.at + 1..], c);
      }
    }
  }

  /** No chain of rewrites, however roundabout, is cheaper than the distance. */
  lemma {:induction false} NoChainIsCheaper(s: string, ws: seq<Rewrite>, c: Costs)
    requires CharMetric(c) && ChainApplies(s, ws)
    ensures Dist(s, ChainResult(s, ws), c) <= ChainCost(s, ws, c)
    decreases |ws|
  {
    if ws == [] {
      DistSelf(s, c);
    } else {
      OneRewrite(s, ws[0], c);
      NoChainIsCheaper(Apply(s, ws[0]), ws[1..], c);
      TriangleInequality(s, Apply(s, ws[0]), ChainResult(s, ws), c);
    }
  }

  lemma RewriteBelowSuffix(s: string, w: Rewrite, suffix: string, c: Costs)
    requires Applies(s, w)
    ensures Applies(s + suffix, w) && Apply(s + suffix, w) == Apply(s, w) + suffix
    ensures RewriteCost(s + suffix, w, c) == RewriteCost(s, w, c)
  {
    var n := if w.InsertAt? then w.at else w.at + 1;
    var front := if w.DeleteAt? then s[..w.at] else s[..w.at] + [w.x];
    assert (s + suffix)[..w.at] == s[..w.at] && (s + suffix)[n..] == s[n..] + suffix;
    Regroup(front, s[n..], suffix);
  }

  lemma Regroup(s: string, t: string, u: string)
    ensures s + (t + u) == (s + t) + u
  {}

  /** A chain works the same below a suffix it never reaches, and can be continued. */
  lemma {:induction false} ChainBelowSuffix(s: string, ws: seq<Rewrite>, suffix: string, last: Rewrite, c: Costs)
    requires ChainApplies(s, ws)
    requires Applies(ChainResult(s, ws) + suffix, last)
    ensures ChainApplies(s + suffix, ws + [last])
    ensures ChainResult(s + suffix, ws + [last]) == Apply(ChainResult(s, ws) + suffix, last)
    ensures ChainCost(s + suffix, ws + [last], c) == ChainCost(s, ws, c) + RewriteCost(ChainResult(s, ws) + suffix, last, c)
    decreases |ws|
  {
    var all := ws + [last];
    if ws == [] {
      assert all[1..] == [];
    } else {
      assert all[0] == ws[0] && all[1..] == ws[1..] + [last];
      RewriteBelowSuffix(s, ws[0], suffix, c);
      ChainBelowSuffix(Apply(s, ws[0]), ws[1..], suffix, last, c);
    }
  }

  /** Every edit script can be carried out as a chain of rewrites of the same cost. */
  lemma {:induction false} ScriptAsChain(script: seq<Edit>, c: Costs) returns (ws: seq<Rewrite>)
    ensures ChainApplies(Source(script), ws)
    ensures ChainResult(Source(script), ws) == Target(script)
    ensures ChainCost(Source(script), ws, c) == ScriptCost(script, c)
  {
    if script == [] {
      ws := [];
      return;
    }
    var init, e := script[..|script| - 1], script[|script| - 1];
    var ws0 := ScriptAsChain(init, c);
    var at := |Target(init)|;
    var suffix := if e.Insert? then [] else [e.s];
    var last := match e case Insert(x) => InsertAt(at, x) case Delete(_) => DeleteAt(at) case Align(_, y) => ReplaceAt(at, y);
    ChainBelowSuffix(Source(init), ws0, suffix, last, c);
    ws := ws0 + [last];
  }

  /** The distance is the least cost of a chain of single-character rewrites from s to t. */
  lemma CheapestChain(s: string, t: string, c: Costs)
    requires CharMetric(c)
    ensures exists ws :: Rewrites(s, ws, t) && ChainCost(s, ws, c) == Dist(s, t, c)
    ensures forall ws :: Rewrites(s, ws, t) ==> Dist(s, t, c) <= ChainCost(s, ws, c)
  {
    var script := SomeScriptAttains(s, t, c);
    var chain := ScriptAsChain(script, c);
    assert Rewrites(s, chain, t);
    forall ws | Rewrites(s, ws, t)
      ensures Dist(s, t, c) <= ChainCost(s, ws, c)
    {
      NoChainIsCheaper(s, ws, c);
    }
  }

  // ---------- The price of a chain ----------

  function Inserts(ws: seq<Rewrite>): nat {
    if ws == [] then 0 else (if ws[0].InsertAt? then 1 else 0) + Inserts(ws[1..])
  }

  function Deletes(ws: seq<Rewrite>): nat {
    if ws == [] then 0 else (if ws[0].DeleteAt? then 1 else 0) + Deletes(ws[1..])
  }

  /** The replacements by another character; which characters count as the same is up to the caller. */
  function Replacements(s: string, ws: seq<Rewrite>, same: (char, char) -> bool): nat
    requires ChainApplies(s, ws)
    decreases |ws|
  {
    if ws == [] then 0
    else
      (if ws[0].ReplaceAt? && !same(s[ws[0].at], ws[0].x) then 1 else 0) + Replacements(Apply(s, ws[0]), ws[1..], same)
  }

  /** n times x, by addition. */
  function Times(x: real, n: nat): real {
    if n == 0 then 0.0 else x + Times(x, n - 1)
  }

  /** So much for every insertion, every deletion and every replacement by another character. */
  function Price(s: string, ws: seq<Rewrite>, same: (char, char) -> bool, ins: real, del: real, rep: real): real
    requires ChainApplies(s, ws)
  {
    Times(ins, Inserts(ws)) + Times(del, Deletes(ws)) + Times(rep, Replacements(s, ws, same))
  }

  /** r is the least price of a chain from s to t. */
  ghost predicate IsLeastPrice(r: real, s: string, t: string, same: (char, char) -> bool, ins: real, del: real, rep: real) {
    && (exists ws :: Rewrites(s, ws, t) && Price(s, ws, same, ins, del, rep) == r)
    && (forall ws :: Rewrites(s, ws, t) ==> r <= Price(s, ws, same, ins, del, rep))
  }

  /** One substitution price for all characters that are not the same. */
  ghost predicate OnePrice(c: Costs, same: (char, char) -> bool, rep: real) {
    forall x, y :: c.delta(x, y) == if same(x, y) then 0.0 else rep
  }

  function RewritePrice(s: string, w: Rewrite, same: (char, char) -> bool, ins: real, del: real, rep: real): real
    requires Applies(s, w)
  {
    match w
    case InsertAt(_, _) => ins
    case DeleteAt(_) => del
    case ReplaceAt(at, x) => if same(s[at], x) then 0.0 else rep
  }

  lemma OneMore(x: real, n: nat, m: nat)
    ensures m == n + 1 ==> Times(x, m) == x + Times(x, n)
  {}

  lemma CountsNext(s: string, ws: seq<Rewrite>, same: (char, char) -> bool)
    requires ws != [] && ChainApplies(s, ws)
    ensures var s', rest := Apply(s, ws[0]), ws[1..];
      && Inserts(ws) == Inserts(rest) + (if ws[0].InsertAt? then 1 else 0)
      && Deletes(ws) == Deletes(rest) + (if ws[0].DeleteAt? then 1 else 0)
      && Replacements(s, ws, same) == Replacements(s', rest, same) + (if ws[0].ReplaceAt? && !same(s[ws[0].at], ws[0].x) then 1 else 0)
  {}

  lemma PriceNext(s: string, ws: seq<Rewrite>, same: (char, char) -> bool, ins: real, del: real, rep: real)
    requires ws != [] && ChainApplies(s, ws)
    ensures Price(s, ws, same, ins, del, rep) ==
      RewritePrice(s, ws[0], same, ins, del, rep) + Price(Apply(s, ws[0]), ws[1..], same, ins, del, rep)
  {
    CountsNext(s, ws, same);
    var w, s', rest := ws[0], Apply(s, ws[0]), ws[1..];
    OneMore(ins, Inserts(rest), Inserts(ws));
    OneMore(del, Deletes(rest), Deletes(ws));
    OneMore(rep, Replacements(s', rest, same), Replacements(s, ws, same));
    match w
    case InsertAt(_, _) => case DeleteAt(_) => case ReplaceAt(_, _) =>
  }

  lemma {:induction false} CostIsPrice(s: string, ws: seq<Rewrite>, c: Costs, same: (char, char) -> bool, rep: real)
    requires ChainApplies(s, ws) && OnePrice(c, same, rep)
    ensures ChainCost(s, ws, c) == Price(s, ws, same, c.ins, c.del, rep)
    decreases |ws|
  {
    if ws != [] {
      CostIsPrice(Apply(s, ws[0]), ws[1..], c, same, rep);
      PriceNext(s, ws, same, c.ins, c.del, rep);
    }
  }

  /** The distance is the least price of a chain. */
  lemma DistIsLeastPrice(s: string, t: string, c: Costs, same: (char, char) -> bool, rep: real)
    requires CharMetric(c) && OnePrice(c, same, rep)
    ensures IsLeastPrice(Dist(s, t, c), s, t, same, c.ins, c.del, rep)
  {
    CheapestChain(s, t, c);
    forall ws | Rewrites(s, ws, t) ensures ChainCost(s, ws, c) == Price(s, ws, same, c.ins, c.del, rep) {
      CostIsPrice(s, ws, c, same, rep);
    }
  }

  // ---------- The fixed-cost wrapper ----------

  method GeneralizedLevenshteinDistance(source: string, target: string,
      insertCost: real := 1.0, deleteCost: real := 1.0, replaceCost: real := 1.0)
    returns (r: real)
    requires 0.0 <= insertCost && 0.0 <= deleteCost && 0.0 <= replaceCost
    ensures IsOptimum(r, source, target, MismatchCosts(insertCost, deleteCost, replaceCost))
    ensures r == Dist(source, target, MismatchCosts(insertCost, deleteCost, replaceCost))
    ensures IsLeastPrice(r, source, target, (x, y) => x == y, insertCost, deleteCost, replaceCost)
  {
    var costs := MismatchCosts(insertCost, deleteCost, replaceCost);
    r := GeneralizedLevenshteinDistanceCustomCost(source, target, costs);
    SwapUnnoticed(source, target, costs);
    OptimumIsUnique(r, source, target, costs);
    DistIsLeastPrice(source, target, costs, (x, y) => x == y, replaceCost);
  }

  /** One edit costs what the caller says, or one by default; a replacement never more than a deletion and an insertion. */
  lemma OneEdit(x: char, y: char, ins: real, del: real, rep: real)
    requires 0.0 <= ins && 0.0 <= del && 0.0 <= rep
    ensures var c := MismatchCosts(ins, del, rep);
      && Dist([], [x], c) == ins && Dist([x], [], c) == del
      && Dist([x], [y], c) == if x == y then 0.0 else if ins + del < rep then ins + del else rep
  {
    assert [x][..0] == [] && [y][..0] == [];
  }

  method DefaultCosts(x: char, y: char) returns (inserted: real, deleted: real, replaced: real)
    ensures inserted == 1.0 && deleted == 1.0 && replaced == if x == y then 0.0 else 1.0
  {
    inserted := GeneralizedLevenshteinDistance([], [x]);
    deleted := GeneralizedLevenshteinDistance([x], []);
    replaced := GeneralizedLevenshteinDistance([x], [y]);
    OneEdit(x, y, 1.0, 1.0, 1.0);
  }
}
