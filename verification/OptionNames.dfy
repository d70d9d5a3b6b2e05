/**
  Matching of option names, from vlr-util/AppOptionSpecifiedValue.cpp: names are split at ':' and
  '.', empty parts are dropped, and the parts are compared without regard to case.
*/
module OptionNames {
  import opened Splitter
  import opened StringCompare

  const NAME_DELIMITERS: set<char> := {':', '.'}

  /** The parts of a name; case does not matter, and neither do runs of delimiters. */
  function NameKey(name: string): seq<string> {
    UpperAll(Parts(name))
  }

  function Parts(name: string): seq<string> {
    Split(name, NAME_DELIMITERS, NO_EMPTY_FIELDS)
  }

  function UpperAll(parts: seq<string>): (u: seq<string>)
    ensures |u| == |parts|
  {
    seq(|parts|, i requires 0 <= i < |parts| => Upper(parts[i]))
  }

  predicate Matches(name: string, other: string) {
    NameKey(name) == NameKey(other)
  }

  function Chars(views: seq<View>): (parts: seq<string>)
    ensures |parts| == |views|
  {
    seq(|views|, i requires 0 <= i < |views| => views[i].chars)
  }

  /** Views of parts in a buffer; of their addresses it only matters that another name has another buffer. */
  function InBuffer(parts: seq<string>, buffer: nat): (views: seq<View>)
    ensures |views| == |parts| && forall i :: 0 <= i < |views| ==> views[i] == View(buffer, parts[i])
  {
    seq(|parts|, i requires 0 <= i < |parts| => View(buffer, parts[i]))
  }

  method PopulateOptionNameElements(name: string, buffer: nat) returns (elements: seq<View>)
    ensures elements == InBuffer(Parts(name), buffer)
  {
    var parts := SplitStringAtDelimiter(name, [':', '.'], [], Options());
    assert Delimiters([':', '.']) == NAME_DELIMITERS;
    elements := InBuffer(parts, buffer);
  }

  /** Whether the element lists agree one by one up to case. */
  method CheckElementsMatch(parts1: seq<View>, parts2: seq<View>) returns (match_: bool)
    requires forall i :: 0 <= i < |parts1| ==> IsView(parts1[i])
    requires forall i :: 0 <= i < |parts2| ==> IsView(parts2[i])
    requires forall i :: 0 <= i < |parts1| && i < |parts2| ==> Coherent(parts1[i], parts2[i])
    ensures match_ <==> UpperAll(Chars(parts1)) == UpperAll(Chars(parts2))
  {
    if |parts1| != |parts2| {
      return false;
    }
    for i := 0 to |parts1|
      invariant forall k :: 0 <= k < i ==> Upper(parts1[k].chars) == Upper(parts2[k].chars)
    {
      AreEqualIff(CaseInsensitive, parts1[i], parts2[i]);
      if !AreEqualStringViews(CaseInsensitive, parts1[i], parts2[i]) {
        assert UpperAll(Chars(parts1))[i] != UpperAll(Chars(parts2))[i];
        return false;
      }
    }
    return true;
  }

  method CheckOptionNameMatch(specifiedName: string, normalizedName: string) returns (match_: bool)
    ensures match_ <==> Matches(specifiedName, normalizedName)
    ensures match_ <==> EqualPartsUpToCase(RunsOf(specifiedName), RunsOf(normalizedName))
  {
    MatchesIffPartsEqual(specifiedName, normalizedName);
    var parts1 := PopulateOptionNameElements(specifiedName, 1);
    var parts2 := PopulateOptionNameElements(normalizedName, 2);
    assert Chars(parts1) == Parts(specifiedName) && Chars(parts2) == Parts(normalizedName);
    match_ := CheckElementsMatch(parts1, parts2);
  }

  /** Names match exactly when their maximal delimiter-free runs agree up to case. */
  lemma {:induction false} MatchesIffRunsAgree(name: string, other: string)
    ensures Matches(name, other) <==>
      UpperAll(Runs(name, |name|, NAME_DELIMITERS)) == UpperAll(Runs(other, |other|, NAME_DELIMITERS))
  {
    DefaultIsRuns(name, NAME_DELIMITERS);
    DefaultIsRuns(other, NAME_DELIMITERS);
  }

  /** The maximal runs without a colon or dot. */
  function RunsOf(name: string): seq<string> {
    Runs(name, |name|, {':', '.'})
  }

  predicate EqualPartsUpToCase(p: seq<string>, q: seq<string>) {
    |p| == |q| && forall i :: 0 <= i < |p| ==> EqualUpToCase(p[i], q[i])
  }

  lemma UpperAllEqualIff(p: seq<string>, q: seq<string>)
    ensures UpperAll(p) == UpperAll(q) <==> EqualPartsUpToCase(p, q)
  {
    forall i | 0 <= i < |p| && i < |q| ensures UpperAll(p)[i] == UpperAll(q)[i] <==> EqualUpToCase(p[i], q[i]) {
      UpperEqualIff(p[i], q[i]);
    }
    if UpperAll(p) == UpperAll(q) {
      assert |p| == |UpperAll(p)| == |q|;
    }
  }

  /** Names match exactly when their runs are the same up to the case of letters. */
  lemma MatchesIffPartsEqual(name: string, other: string)
    ensures Matches(name, other) <==> EqualPartsUpToCase(RunsOf(name), RunsOf(other))
  {
    MatchesIffRunsAgree(name, other);
    UpperAllEqualIff(RunsOf(name), RunsOf(other));
  }

  // ---------- What a match ignores ----------

  lemma UpperKeepsDelimiters(c: char)
    ensures ToUpper(c) in NAME_DELIMITERS <==> c in NAME_DELIMITERS
  {}

  lemma {:induction false} UpperFields(s: string, t: string, i: nat)
    requires |s| == |t| && i <= |s| && Upper(s) == Upper(t)
    ensures UpperAll(Closed(s, i, NAME_DELIMITERS)) == UpperAll(Closed(t, i, NAME_DELIMITERS))
    ensures Upper(Open(s, i, NAME_DELIMITERS)) == Upper(Open(t, i, NAME_DELIMITERS))
    decreases i
  {
    if i > 0 {
      UpperFields(s, t, i - 1);
      assert Upper(s)[i - 1] == Upper(t)[i - 1];
      UpperKeepsDelimiters(s[i - 1]);
      UpperKeepsDelimiters(t[i - 1]);
      if s[i - 1] in NAME_DELIMITERS {
        UpperAllAppend(Closed(s, i - 1, NAME_DELIMITERS), [Open(s, i - 1, NAME_DELIMITERS)]);
        UpperAllAppend(Closed(t, i - 1, NAME_DELIMITERS), [Open(t, i - 1, NAME_DELIMITERS)]);
      }
    }
  }

  lemma {:induction false} UpperKept(f: seq<string>, g: seq<string>)
    requires UpperAll(f) == UpperAll(g)
    ensures UpperAll(KeepInner(f, NO_EMPTY_FIELDS)) == UpperAll(KeepInner(g, NO_EMPTY_FIELDS))
    decreases |f|
  {
    assert |f| == |UpperAll(f)| == |g|;
    if f != [] {
      var n := |f| - 1;
      assert UpperAll(f)[n] == UpperAll(g)[n];
      assert |f[n]| == |Upper(f[n])| == |g[n]|;
      assert UpperAll(f[..n]) == UpperAll(f)[..n] == UpperAll(g[..n]);
      UpperKept(f[..n], g[..n]);
      UpperAllAppend(KeepInner(f[..n], NO_EMPTY_FIELDS), [f[n]]);
      UpperAllAppend(KeepInner(g[..n], NO_EMPTY_FIELDS), [g[n]]);
    }
  }

  lemma UpperAllAppend(p: seq<string>, q: seq<string>)
    ensures UpperAll(p + q) == UpperAll(p) + UpperAll(q)
  {}

  /** The case of a name's letters never decides a match. */
  lemma CaseIsIgnored(s: string, t: string)
    requires |s| == |t| && Upper(s) == Upper(t)
    ensures Matches(s, t)
  {
    var f, g := Closed(s, |s|, NAME_DELIMITERS), Closed(t, |t|, NAME_DELIMITERS);
    var l, m := Open(s, |s|, NAME_DELIMITERS), Open(t, |t|, NAME_DELIMITERS);
    UpperFields(s, t, |s|);
    UpperKept(f, g);
    assert |l| == |Upper(l)| == |m|;
    UpperAllAppend(KeepInner(f, NO_EMPTY_FIELDS), [l]);
    UpperAllAppend(KeepInner(g, NO_EMPTY_FIELDS), [m]);
  }

  lemma KeyOfPath(s: string, d: char, t: string)
    requires d in NAME_DELIMITERS
    ensures NameKey(s + [d] + t) == NameKey(s) + NameKey(t)
  {
    SplitAtDelimiter(s, d, t, NAME_DELIMITERS);
    UpperAllAppend(Parts(s), Parts(t));
  }

  lemma DelimiterAtEnds(s: string, d: char)
    requires d in NAME_DELIMITERS
    ensures NameKey(s + [d]) == NameKey(s) && NameKey([d] + s) == NameKey(s)
  {
    KeyOfPath(s, d, []);
    KeyOfPath([], d, s);
    assert s + [d] + [] == s + [d] && [] + [d] + s == [d] + s;
    assert NameKey([]) == [];
  }

  /** So neither the kind nor the number of delimiters between or around the parts decides a match. */
  lemma DelimitersAreIgnored(s: string, c: char, d: char, t: string)
    requires c in NAME_DELIMITERS && d in NAME_DELIMITERS
    ensures Matches(s + [c] + t, s + [d] + t)
    ensures Matches(s + [c] + ([d] + t), s + [d] + t)
    ensures Matches(s + [d], s) && Matches([d] + t, t)
  {
    KeyOfPath(s, c, t);
    KeyOfPath(s, d, t);
    KeyOfPath(s, c, [d] + t);
    DelimiterAtEnds(s, d);
    DelimiterAtEnds(t, d);
  }

  lemma KeyOfOne(c: char)
    requires c !in NAME_DELIMITERS
    ensures |NameKey([c])| == 1
  {
    NextCharacter([c], 0, NAME_DELIMITERS);
  }

  lemma KeyOfThree(c: char)
    requires c !in NAME_DELIMITERS
    ensures |NameKey(['a', c, 'b'])| == 1
  {
    var s := ['a', c, 'b'];
    NextCharacter(s, 0, NAME_DELIMITERS);
    NextCharacter(s, 1, NAME_DELIMITERS);
    NextCharacter(s, 2, NAME_DELIMITERS);
  }

  /** Exactly the colon and the dot separate parts. */
  lemma DelimiterIff(c: char)
    ensures Matches(['a', c, 'b'], "a:b") <==> c == ':' || c == '.'
  {
    KeyOfPath("a", ':', "b");
    KeyOfOne('a');
    KeyOfOne('b');
    assert "a" + [':'] + "b" == "a:b";
    if c in NAME_DELIMITERS {
      DelimitersAreIgnored("a", c, ':', "b");
      assert "a" + [c] + "b" == ['a', c, 'b'];
    } else {
      KeyOfThree(c);
    }
  }
}
