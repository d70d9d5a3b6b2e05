/**
  The delimiter splitter of vlr-util/strings.split.h. The list of all fields, empty ones included,
  is the reference; the three options say which of its empty fields are reported.
*/
module Splitter {

  /** The delimiters of a specification; an empty one stands for the two path separators. */
  function Delimiters(spec: seq<char>): set<char> {
    if |spec| > 0 then set c | c in spec else {'/', '\\'}
  }

  datatype Options = Options(prefix: bool := false, postfix: bool := false, consecutive: bool := false)

  // ---------- The fields of a string ----------

  /** The fields that a delimiter among the first i characters has ended. */
  function Closed(s: string, i: nat, ds: set<char>): seq<string>
    requires i <= |s|
  {
    if i == 0 then []
    else if s[i - 1] in ds then Closed(s, i - 1, ds) + [Open(s, i - 1, ds)]
    else Closed(s, i - 1, ds)
  }

  /** The field after the last delimiter among the first i characters. */
  function Open(s: string, i: nat, ds: set<char>): string
    requires i <= |s|
  {
    if i == 0 || s[i - 1] in ds then "" else Open(s, i - 1, ds) + [s[i - 1]]
  }

  function Fields(s: string, ds: set<char>): seq<string> {
    Closed(s, |s|, ds) + [Open(s, |s|, ds)]
  }

  /** The delimiters among the first i characters, in order. */
  function DelimitersIn(s: string, i: nat, ds: set<char>): string
    requires i <= |s|
  {
    if i == 0 then ""
    else if s[i - 1] in ds then DelimitersIn(s, i - 1, ds) + [s[i - 1]]
    else DelimitersIn(s, i - 1, ds)
  }

  /** f[0] seps[0] f[1] seps[1] ... last */
  function Interleave(f: seq<string>, last: string, seps: string): string
    requires |f| == |seps|
  {
    if f == [] then last
    else
      var n := |f| - 1;
      Interleave(f[..n], f[n], seps[..n]) + [seps[n]] + last
  }

  predicate DelimiterFree(s: string, ds: set<char>) {
    forall i :: 0 <= i < |s| ==> s[i] !in ds
  }

  ghost predicate AllDelimiterFree(f: seq<string>, ds: set<char>) {
    forall k :: 0 <= k < |f| ==> DelimiterFree(f[k], ds)
  }

  /** One more character continues the open field or closes it. */
  lemma NextCharacter(s: string, i: nat, ds: set<char>)
    requires i < |s|
    ensures s[i] in ds ==> Closed(s, i + 1, ds) == Closed(s, i, ds) + [Open(s, i, ds)] && Open(s, i + 1, ds) == ""
    ensures s[i] !in ds ==> Closed(s, i + 1, ds) == Closed(s, i, ds) && Open(s, i + 1, ds) == Open(s, i, ds) + [s[i]]
  {}

  lemma {:induction false} PrefixFree(s: string, i: nat, ds: set<char>)
    requires i <= |s|
    ensures AllDelimiterFree(Closed(s, i, ds), ds) && DelimiterFree(Open(s, i, ds), ds)
    decreases i
  {
    if i > 0 {
      PrefixFree(s, i - 1, ds);
      NextCharacter(s, i - 1, ds);
    }
  }

  lemma {:induction false} AsManyDelimiters(s: string, i: nat, ds: set<char>)
    requires i <= |s|
    ensures |Closed(s, i, ds)| == |DelimitersIn(s, i, ds)|
    decreases i
  {
    if i > 0 {
      AsManyDelimiters(s, i - 1, ds);
    }
  }

  /** The fields of the first i characters interleaved with the delimiters between them. */
  function Rebuilt(s: string, i: nat, ds: set<char>): string
    requires i <= |s|
  {
    AsManyDelimiters(s, i, ds);
    Interleave(Closed(s, i, ds), Open(s, i, ds), DelimitersIn(s, i, ds))
  }

  lemma {:induction false} PrefixRebuild(s: string, i: nat, ds: set<char>)
    requires i <= |s|
    ensures Rebuilt(s, i, ds) == s[..i]
    decreases i
  {
    if i > 0 {
      calc {
        Rebuilt(s, i, ds);
        { RebuildNext(s, i - 1, i, ds); }
        Rebuilt(s, i - 1, ds) + [s[i - 1]];
        { PrefixRebuild(s, i - 1, ds); }
        s[..i - 1] + [s[i - 1]];
        s[..i];
      }
    }
  }

  lemma RebuildNext(s: string, i: nat, n: nat, ds: set<char>)
    requires i < n == i + 1 <= |s|
    ensures Rebuilt(s, n, ds) == Rebuilt(s, i, ds) + [s[i]]
  {
    NextCharacter(s, i, ds);
    AsManyDelimiters(s, i, ds);
    var f, last, seps := Closed(s, i, ds), Open(s, i, ds), DelimitersIn(s, i, ds);
    if s[i] in ds {
      InterleaveClose(f, last, seps, s[i]);
    } else {
      InterleaveExtend(f, last, seps, s[i]);
    }
  }

  lemma InterleaveClose(f: seq<string>, last: string, seps: string, c: char)
    requires |f| == |seps|
    ensures Interleave(f + [last], "", seps + [c]) == Interleave(f, last, seps) + [c]
  {}

  lemma InterleaveExtend(f: seq<string>, last: string, seps: string, c: char)
    requires |f| == |seps|
    ensures Interleave(f, last + [c], seps) == Interleave(f, last, seps) + [c]
  {}

  /** There is one field more than there are delimiters, and interleaving rebuilds the string. */
  lemma FieldsRebuild(s: string, ds: set<char>)
    ensures |Fields(s, ds)| == |DelimitersIn(s, |s|, ds)| + 1
    ensures Interleave(Closed(s, |s|, ds), Open(s, |s|, ds), DelimitersIn(s, |s|, ds)) == s
    ensures AllDelimiterFree(Fields(s, ds), ds)
  {
    AsManyDelimiters(s, |s|, ds);
    PrefixRebuild(s, |s|, ds);
    PrefixFree(s, |s|, ds);
    assert s[..|s|] == s;
  }

  /** Fields only depend on the characters they come from. */
  lemma {:induction false} FieldsOfPrefix(s: string, t: string, i: nat, ds: set<char>)
    requires i <= |s| && i <= |t| && s[..i] == t[..i]
    ensures Closed(s, i, ds) == Closed(t, i, ds) && Open(s, i, ds) == Open(t, i, ds)
    decreases i
  {
    if i > 0 {
      assert s[..i][i - 1] == t[..i][i - 1];
      assert s[..i - 1] == s[..i][..i - 1] == t[..i - 1];
      FieldsOfPrefix(s, t, i - 1, ds);
    }
  }

  lemma {:induction false} FieldsOfExtension(s: string, c: char, u: string, ds: set<char>)
    requires u == s + [c]
    ensures Closed(u, |u|, ds) == if c in ds then Closed(s, |s|, ds) + [Open(s, |s|, ds)] else Closed(s, |s|, ds)
    ensures Open(u, |u|, ds) == if c in ds then "" else Open(s, |s|, ds) + [c]
  {
    FieldsOfPrefix(s, u, |s|, ds);
  }

  /** Delimiter-free strings interleaved with delimiters can only be the fields of the outcome. */
  lemma {:induction false} FieldsAreUnique(f: seq<string>, last: string, seps: string, ds: set<char>)
    requires |f| == |seps| && AllDelimiterFree(f, ds) && DelimiterFree(last, ds)
    requires forall i :: 0 <= i < |seps| ==> seps[i] in ds
    ensures var s := Interleave(f, last, seps); Closed(s, |s|, ds) == f && Open(s, |s|, ds) == last
    decreases |f|, |last|
  {
    var s := Interleave(f, last, seps);
    if last != "" {
      var n := |last| - 1;
      var s' := Interleave(f, last[..n], seps);
      assert last[..n] + [last[n]] == last;
      InterleaveExtend(f, last[..n], seps, last[n]);
      FieldsAreUnique(f, last[..n], seps, ds);
      FieldsOfExtension(s', last[n], s, ds);
    } else if f != [] {
      var n := |f| - 1;
      var s' := Interleave(f[..n], f[n], seps[..n]);
      assert f == f[..n] + [f[n]] && seps == seps[..n] + [seps[n]];
      InterleaveClose(f[..n], f[n], seps[..n], seps[n]);
      FieldsAreUnique(f[..n], f[n], seps[..n], ds);
      FieldsOfExtension(s', seps[n], s, ds);
    }
  }

  // ---------- Which fields are reported ----------

  /** Reports all but the last field: empty ones only where the options ask for them. */
  function KeepInner(f: seq<string>, o: Options): seq<string> {
    if f == [] then []
    else
      var n := |f| - 1;
      if f[n] != "" || (if n == 0 then o.prefix else o.consecutive)
      then KeepInner(f[..n], o) + [f[n]]
      else KeepInner(f[..n], o)
  }

  function Split(s: string, ds: set<char>, o: Options): seq<string> {
    var inner, last := KeepInner(Closed(s, |s|, ds), o), Open(s, |s|, ds);
    if last != "" || (s != "" && o.postfix) then inner + [last] else inner
  }

  lemma KeepNext(f: seq<string>, last: string, o: Options)
    ensures KeepInner(f + [last], o) ==
      if last != "" || (if f == [] then o.prefix else o.consecutive) then KeepInner(f, o) + [last] else KeepInner(f, o)
  {}

  /** Reports onto a list that already holds elements. */
  ghost function KeepOnto(elements: seq<string>, f: seq<string>, o: Options): seq<string> {
    elements + KeepInner(f, o)
  }

  lemma KeepOntoNext(elements: seq<string>, f: seq<string>, last: string, o: Options)
    ensures KeepOnto(elements, f + [last], o) ==
      if last != "" || (if f == [] then o.prefix else o.consecutive)
      then KeepOnto(elements, f, o) + [last] else KeepOnto(elements, f, o)
  {}

  lemma SplitOnto(elements: seq<string>, s: string, ds: set<char>, o: Options)
    ensures var inner, last := KeepOnto(elements, Closed(s, |s|, ds), o), Open(s, |s|, ds);
      elements + Split(s, ds, o) == if last != "" || (s != "" && o.postfix) then inner + [last] else inner
  {}

  method SplitStringAtDelimiter(s: string, spec: seq<char>, elements: seq<string>, o: Options)
    returns (result: seq<string>)
    ensures result == elements + Split(s, Delimiters(spec), o)
  {
    var ds := Delimiters(spec);
    result := elements;
    var start: int, length: nat := -1, 0;
    var currentIsDelimiter := false;
    ghost var closed: seq<string>, open: string := [], "";
    for i := 0 to |s|
      invariant closed == Closed(s, i, ds) && open == Open(s, i, ds)
      invariant result == KeepOnto(elements, closed, o)
      invariant start == -1 ==> open == "" && (closed == [] <==> i == 0)
      invariant start != -1 ==> 0 <= start < start + length == i && open == s[start..i]
      invariant currentIsDelimiter <==> i > 0 && start == -1
    {
      NextCharacter(s, i, ds);
      currentIsDelimiter := s[i] in ds;
      if !currentIsDelimiter {
        open := open + [s[i]];
        if start == -1 {
          start, length := i, 1;
        } else {
          length := length + 1;
        }
        assert open == s[start..i + 1];
        continue;
      }
      KeepOntoNext(elements, closed, open, o);
      closed, open := closed + [open], "";
      if i == 0 {
        if o.prefix {
          result := result + [""];
        }
        continue;
      }
      if start == -1 {
        if o.consecutive {
          result := result + [""];
        }
        continue;
      }
      result := result + [s[start..start + length]];
      start, length := -1, 0;
    }
    SplitOnto(elements, s, ds, o);
    if start != -1 {
      result := result + [s[start..start + length]];
    }
    if currentIsDelimiter && o.postfix {
      result := result + [""];
    }
  }

  // ---------- All options on, all options off ----------

  const ALL_EMPTY_FIELDS := Options(true, true, true)
  const NO_EMPTY_FIELDS := Options(false, false, false)

  lemma {:induction false} KeepAll(f: seq<string>)
    ensures KeepInner(f, ALL_EMPTY_FIELDS) == f
  {
    if f != [] {
      KeepAll(f[..|f| - 1]);
      assert f == f[..|f| - 1] + [f[|f| - 1]];
    }
  }

  /** With every option on, a nonempty string's elements are all its fields, from which it can be rebuilt. */
  lemma AllOptionsRebuild(s: string, ds: set<char>)
    requires s != ""
    ensures var elements, seps := Split(s, ds, ALL_EMPTY_FIELDS), DelimitersIn(s, |s|, ds);
      && |elements| == |seps| + 1
      && Interleave(elements[..|seps|], elements[|seps|], seps) == s
      && AllDelimiterFree(elements, ds)
  {
    KeepAll(Closed(s, |s|, ds));
    FieldsRebuild(s, ds);
  }

  /** The empty string has one field but never an element: rebuilding needs a nonempty string. */
  lemma EmptyStringHasNoElement(ds: set<char>, o: Options)
    ensures Split("", ds, o) == [] && |Fields("", ds)| == 1
  {}

  /** Where the delimiter-free run that ends at i begins. */
  function RunStart(s: string, i: nat, ds: set<char>): (b: nat)
    requires i <= |s|
    ensures b <= i && forall k :: b <= k < i ==> s[k] !in ds
    ensures b > 0 ==> s[b - 1] in ds
  {
    if i == 0 || s[i - 1] in ds then i else RunStart(s, i - 1, ds)
  }

  /** The maximal delimiter-free runs among the first i characters, in order. */
  function Runs(s: string, i: nat, ds: set<char>): seq<string>
    requires i <= |s|
  {
    var b := RunStart(s, i, ds);
    if i == 0 then []
    else if b == i then Runs(s, i - 1, ds)
    else Runs(s, b, ds) + [s[b..i]]
  }

  lemma RunsAtEnd(s: string, i: nat, ds: set<char>)
    requires i <= |s|
    ensures var b := RunStart(s, i, ds);
      Runs(s, i, ds) == if b == i then Runs(s, b, ds) else Runs(s, b, ds) + [s[b..i]]
  {}

  lemma {:induction false} OpenIsLastRun(s: string, i: nat, ds: set<char>)
    requires i <= |s|
    ensures Open(s, i, ds) == s[RunStart(s, i, ds)..i]
    decreases i
  {
    if i > 0 && s[i - 1] !in ds {
      OpenIsLastRun(s, i - 1, ds);
      var b := RunStart(s, i - 1, ds);
      assert s[b..i] == s[b..i - 1] + [s[i - 1]];
    }
  }

  lemma KeptAtDelimiter(s: string, i: nat, b: nat, ds: set<char>)
    requires i < |s| && s[i] in ds && b == RunStart(s, i, ds)
    requires KeepInner(Closed(s, i, ds), NO_EMPTY_FIELDS) == Runs(s, b, ds)
    ensures KeepInner(Closed(s, i + 1, ds), NO_EMPTY_FIELDS) == Runs(s, i + 1, ds)
  {
    OpenIsLastRun(s, i, ds);
    KeepNext(Closed(s, i, ds), Open(s, i, ds), NO_EMPTY_FIELDS);
    RunsAtEnd(s, i, ds);
  }

  lemma KeptInside(s: string, i: nat, ds: set<char>)
    requires i < |s| && s[i] !in ds
    ensures KeepInner(Closed(s, i + 1, ds), NO_EMPTY_FIELDS) == KeepInner(Closed(s, i, ds), NO_EMPTY_FIELDS)
    ensures RunStart(s, i + 1, ds) == RunStart(s, i, ds)
  {
    NextCharacter(s, i, ds);
  }

  lemma KeptNext(s: string, i: nat, n: nat, ds: set<char>)
    requires i < n == i + 1 <= |s|
    requires KeepInner(Closed(s, i, ds), NO_EMPTY_FIELDS) == Runs(s, RunStart(s, i, ds), ds)
    ensures KeepInner(Closed(s, n, ds), NO_EMPTY_FIELDS) == Runs(s, RunStart(s, n, ds), ds)
  {
    if s[i] in ds {
      KeptAtDelimiter(s, i, RunStart(s, i, ds), ds);
      assert RunStart(s, n, ds) == n;
    } else {
      KeptInside(s, i, ds);
    }
  }

  lemma {:induction false} KeptAreRuns(s: string, i: nat, ds: set<char>)
    requires i <= |s|
    ensures KeepInner(Closed(s, i, ds), NO_EMPTY_FIELDS) == Runs(s, RunStart(s, i, ds), ds)
    decreases i
  {
    if i > 0 {
      KeptAreRuns(s, i - 1, ds);
      KeptNext(s, i - 1, i, ds);
    }
  }

  /** By default the elements are exactly the maximal delimiter-free runs, in order. */
  lemma DefaultIsRuns(s: string, ds: set<char>)
    ensures Split(s, ds, NO_EMPTY_FIELDS) == Runs(s, |s|, ds)
  {
    KeptAreRuns(s, |s|, ds);
    OpenIsLastRun(s, |s|, ds);
    RunsAtEnd(s, |s|, ds);
  }

  // ---------- Each option by itself, and the default delimiters ----------

  /** The element at an index of the fields is reported if it is not empty, or the option for its place is on. */
  predicate IsReported(f: seq<string>, k: nat, o: Options)
    requires k < |f|
  {
    f[k] != "" || (if k == 0 then o.prefix else if k == |f| - 1 then o.postfix else o.consecutive)
  }

  /** The fields that are reported, in order. */
  function Reported(f: seq<string>, k: nat, o: Options): seq<string>
    requires k <= |f|
  {
    if k == 0 then []
    else if IsReported(f, k - 1, o) then Reported(f, k - 1, o) + [f[k - 1]]
    else Reported(f, k - 1, o)
  }

  lemma {:induction false} KeepIsReported(f: seq<string>, last: string, k: nat, o: Options)
    requires k <= |f|
    ensures Reported(f + [last], k, o) == KeepInner(f[..k], o)
    decreases k
  {
    if k > 0 {
      KeepIsReported(f, last, k - 1, o);
      assert f[..k] == f[..k - 1] + [f[k - 1]];
      KeepNext(f[..k - 1], f[k - 1], o);
    }
  }

  /** The options by place: an empty first, last or inner field is an element exactly if its option is on. */
  lemma SplitIsReported(s: string, ds: set<char>, o: Options)
    requires |Fields(s, ds)| > 1
    ensures Split(s, ds, o) == Reported(Fields(s, ds), |Fields(s, ds)|, o)
  {
    var f, last := Closed(s, |s|, ds), Open(s, |s|, ds);
    KeepIsReported(f, last, |f|, o);
    assert f[..|f|] == f && s != "";
  }

  /** Without a delimiter the string is its only element, under any options. */
  lemma NoDelimiterNoSplit(s: string, ds: set<char>, o: Options)
    requires s != "" && |Fields(s, ds)| == 1
    ensures Split(s, ds, o) == [s]
  {
    FieldsRebuild(s, ds);
  }

  /**
    Between two other characters, a character splits exactly if it is in the specification, or one of the
    two slashes if the specification is empty.
  */
  lemma DelimitsIff(spec: seq<char>, x: char, c: char, y: char, o: Options)
    requires x !in Delimiters(spec) && y !in Delimiters(spec)
    ensures Split([x, c, y], Delimiters(spec), o) ==
      if (if spec == [] then c == '/' || c == '\\' else c in spec) then [[x], [y]] else [[x, c, y]]
  {
    var s, ds := [x, c, y], Delimiters(spec);
    ThreeFields(s, ds);
    if c in ds {
      KeepNext([], [x], o);
      assert [] + [[x]] == [[x]] && [[x]] + [[y]] == [[x], [y]];
    } else {
      assert [] + [s] == [s];
    }
  }

  lemma ThreeFields(s: string, ds: set<char>)
    requires |s| == 3 && s[0] !in ds && s[2] !in ds
    ensures Closed(s, 3, ds) == if s[1] in ds then [[s[0]]] else []
    ensures Open(s, 3, ds) == if s[1] in ds then [s[2]] else s
  {
    NextCharacter(s, 0, ds);
    assert Closed(s, 1, ds) == [] && Open(s, 1, ds) == [s[0]];
    NextCharacter(s, 1, ds);
    assert Closed(s, 2, ds) == if s[1] in ds then [[s[0]]] else [];
    assert Open(s, 2, ds) == if s[1] in ds then "" else [s[0], s[1]];
    NextCharacter(s, 2, ds);
  }

  // ---------- Splitting a concatenation ----------

  /** Behind a delimiter the fields start afresh. */
  lemma {:induction false} FieldsAfter(u: string, n: nat, t: string, i: nat, m: nat, ds: set<char>)
    requires 0 < n <= |u| && u[n - 1] in ds && u[n..] == t && i <= |t| && m == n + i
    ensures Closed(u, m, ds) == Closed(u, n, ds) + Closed(t, i, ds)
    ensures Open(u, m, ds) == Open(t, i, ds)
    decreases i
  {
    if i > 0 {
      assert u[n..][i - 1] == u[m - 1];
      FieldsAfter(u, n, t, i - 1, m - 1, ds);
    }
  }

  lemma {:induction false} KeepAppend(f: seq<string>, g: seq<string>)
    ensures KeepInner(f + g, NO_EMPTY_FIELDS) == KeepInner(f, NO_EMPTY_FIELDS) + KeepInner(g, NO_EMPTY_FIELDS)
    decreases |g|
  {
    if g == [] {
      assert f + g == f;
    } else {
      var n := |g| - 1;
      KeepAppend(f, g[..n]);
      assert (f + g)[..|f + g| - 1] == f + g[..n];
    }
  }

  lemma ClosedAtDelimiter(s: string, u: string, ds: set<char>)
    requires s <= u && |s| < |u| && u[|s|] in ds
    ensures Closed(u, |s| + 1, ds) == Closed(s, |s|, ds) + [Open(s, |s|, ds)]
  {
    assert u[..|s|] == s[..|s|];
    FieldsOfPrefix(s, u, |s|, ds);
  }

  /** The elements from the closed fields f and the last field. */
  function Elements(f: seq<string>, last: string): seq<string> {
    KeepInner(f, NO_EMPTY_FIELDS) + if last != "" then [last] else []
  }

  lemma ElementsOfSplit(s: string, ds: set<char>)
    ensures Split(s, ds, NO_EMPTY_FIELDS) == Elements(Closed(s, |s|, ds), Open(s, |s|, ds))
  {}

  lemma ElementsAppend(f: seq<string>, mid: string, g: seq<string>, last: string)
    ensures Elements(f + [mid] + g, last) == Elements(f, mid) + Elements(g, last)
  {
    KeepAppend(f + [mid], g);
    KeepNext(f, mid, NO_EMPTY_FIELDS);
  }

  /** A delimiter only separates: by default the elements on its two sides follow one another. */
  lemma SplitAtDelimiter(s: string, d: char, t: string, ds: set<char>)
    requires d in ds
    ensures Split(s + [d] + t, ds, NO_EMPTY_FIELDS) == Split(s, ds, NO_EMPTY_FIELDS) + Split(t, ds, NO_EMPTY_FIELDS)
  {
    var u, n := s + [d] + t, |s| + 1;
    ElementsOfSplit(s, ds);
    ElementsOfSplit(t, ds);
    ElementsOfSplit(u, ds);
    FieldsOfConcatenation(s, d, t, u, ds);
    ElementsAppend(Closed(s, |s|, ds), Open(s, |s|, ds), Closed(t, |t|, ds), Open(t, |t|, ds));
  }

  lemma {:induction false} FieldsOfConcatenation(s: string, d: char, t: string, u: string, ds: set<char>)
    requires d in ds && u == s + [d] + t
    ensures Closed(u, |u|, ds) == Closed(s, |s|, ds) + [Open(s, |s|, ds)] + Closed(t, |t|, ds)
    ensures Open(u, |u|, ds) == Open(t, |t|, ds)
  {
    assert u[|s| + 1..] == t;
    FieldsAfter(u, |s| + 1, t, |t|, |u|, ds);
    ClosedAtDelimiter(s, u, ds);
  }

  // ---------- Trimming ----------

  /** From i to j the string starts and ends with characters to keep; outside there are none. */
  ghost predicate IsTrimmed(s: string, chars: string, i: nat, j: nat) {
    && i <= j <= |s|
    && (forall k :: 0 <= k < |s| && (k < i || j <= k) ==> s[k] in chars)
    && (i < j ==> s[i] !in chars && s[j - 1] !in chars)
  }

  method GetTrimmedStringView(s: string, chars: string) returns (r: string)
    ensures exists i: nat, j: nat :: IsTrimmed(s, chars, i, j) && r == s[i..j]
  {
    r := s;
    ghost var i: nat, j: nat := 0, |s|;
    while |r| > 0
      invariant i <= j <= |s| && r == s[i..j]
      invariant forall k :: 0 <= k < |s| && (k < i || j <= k) ==> s[k] in chars
    {
      if r[0] in chars {
        assert s[i] == r[0];
        r := r[1..];
        i := i + 1;
        continue;
      }
      if r[|r| - 1] in chars {
        assert s[j - 1] == r[|r| - 1];
        r := r[..|r| - 1];
        j := j - 1;
        continue;
      }
      break;
    }
    assert IsTrimmed(s, chars, i, j);
  }

  /** There is only one way to trim a string. */
  lemma TrimmedIsUnique(s: string, chars: string, i: nat, j: nat, k: nat, l: nat)
    requires IsTrimmed(s, chars, i, j) && IsTrimmed(s, chars, k, l)
    ensures s[i..j] == s[k..l]
  {}
}
