/**
  The codec for lists of NUL-terminated strings in vlr-util/util.data_adaptor.MultiSZ.h. A buffer is
  a sequence of code units.
*/
module MultiSz {
  import opened StringCompare

  const NUL: char := '\0'

  /** Whether a parse succeeded, and the strings it delivered, also those before a failure. */
  datatype Outcome = Outcome(ok: bool, values: seq<string>)

  /** The index of the first NUL from i on, or the length if there is none. */
  function NulIndex(s: string, i: nat): (k: nat)
    requires i <= |s|
    ensures i <= k <= |s| && (k < |s| ==> s[k] == NUL)
    ensures forall j :: i <= j < k ==> s[j] != NUL
    decreases |s| - i
  {
    if i == |s| || s[i] == NUL then i else NulIndex(s, i + 1)
  }

  function ParseFrom(s: string, i: nat): Outcome
    requires i <= |s|
    decreases |s| - i
  {
    var k := NulIndex(s, i);
    if k == |s| then Outcome(false, [])
    else if k == i then Outcome(true, [])
    else
      var rest := ParseFrom(s, k + 1);
      Outcome(rest.ok, [s[i..k]] + rest.values)
  }

  /** The parse of a span, which must hold at least the two terminators. */
  function Parse(s: string): Outcome {
    if |s| < 2 then Outcome(false, []) else ParseFrom(s, 0)
  }

  function Print(l: seq<string>): string {
    if l == [] then [NUL] else l[0] + [NUL] + Print(l[1..])
  }

  /** Strings that the format can hold: not empty and without NULs. */
  predicate Clean(l: seq<string>) {
    forall i :: 0 <= i < |l| ==> l[i] != "" && NulFree(l[i])
  }

  // ---------- The parsers ----------

  method ToStructuredData(span: string, listed: seq<string>) returns (ok: bool, result: seq<string>)
    ensures ok == Parse(span).ok && result == listed + Parse(span).values
  {
    result := listed;
    if |span| < 2 {
      return false, result;
    }
    var readIndex := 0;
    while true
      invariant readIndex <= |span|
      invariant Parse(span).ok == ParseFrom(span, readIndex).ok
      invariant listed + Parse(span).values == result + ParseFrom(span, readIndex).values
      decreases |span| - readIndex
    {
      if readIndex >= |span| {
        return false, result;
      }
      var len := 0;
      while span[readIndex + len] != NUL
        invariant readIndex + len < |span|
        invariant forall j :: readIndex <= j < readIndex + len ==> span[j] != NUL
        decreases |span| - len
      {
        len := len + 1;
        if readIndex + len >= |span| {
          assert NulIndex(span, readIndex) == |span|;
          return false, result;
        }
      }
      assert NulIndex(span, readIndex) == readIndex + len;
      if len == 0 {
        return true, result;
      }
      result := result + [span[readIndex..readIndex + len]];
      readIndex := readIndex + (len + 1);
    }
  }

  /** The overload for strings delivers nothing when the span is malformed. */
  method ToStrings(span: string, listed: seq<string>) returns (ok: bool, result: seq<string>)
    ensures ok == Parse(span).ok && result == if ok then listed + Parse(span).values else listed
  {
    var values: seq<string>;
    ok, values := ToStructuredData(span, []);
    result := listed;
    if !ok {
      return;
    }
    result := AppendAll(listed, values);
  }

  method AppendAll(listed: seq<string>, values: seq<string>) returns (result: seq<string>)
    ensures result == listed + values
  {
    result := listed;
    for i := 0 to |values|
      invariant result == listed + values[..i]
    {
      result := result + [values[i]];
    }
  }

  /** The overload without a length: the caller must know that the list is terminated. */
  method UnsizedToStructuredData(memory: string, listed: seq<string>) returns (result: seq<string>)
    requires ParseFrom(memory, 0).ok
    ensures result == listed + ParseFrom(memory, 0).values
  {
    result := listed;
    var at := 0;
    while memory[at] != NUL
      invariant at < |memory| && ParseFrom(memory, at).ok
      invariant listed + ParseFrom(memory, 0).values == result + ParseFrom(memory, at).values
      decreases |memory| - at
    {
      var end := NulIndex(memory, at);
      result := result + [memory[at..end]];
      at := end + 1;
    }
  }

  // ---------- The printer ----------

  /** The strings with their terminators, without the final one. */
  function Body(l: seq<string>): string {
    if l == [] then "" else Body(l[..|l| - 1]) + l[|l| - 1] + [NUL]
  }

  lemma BodyAppend(l: seq<string>, x: string)
    ensures Body(l + [x]) == Body(l) + x + [NUL]
  {
    assert (l + [x])[..|l|] == l;
  }

  lemma {:induction false} BodyCons(x: string, l: seq<string>)
    ensures Body([x] + l) == x + [NUL] + Body(l)
    decreases |l|
  {
    if l == [] {
      assert [x] + l == [] + [x];
      BodyAppend([], x);
    } else {
      var front, last := l[..|l| - 1], l[|l| - 1];
      BodyCons(x, front);
      assert [x] + l == [x] + front + [last];
      BodyAppend([x] + front, last);
      Regroup(x + [NUL], Body(front), last + [NUL]);
    }
  }

  lemma Regroup(s: string, t: string, u: string)
    ensures s + t + u == s + (t + u)
  {}

  lemma {:induction false} PrintIsBody(l: seq<string>)
    ensures Print(l) == Body(l) + [NUL]
  {
    if l != [] {
      var x, rest := l[0], l[1..];
      assert l == [x] + rest;
      PrintIsBody(rest);
      BodyCons(x, rest);
    }
  }

  lemma {:induction false} BodyGrows(l: seq<string>, i: nat)
    requires i <= |l|
    ensures |Body(l[..i])| <= |Body(l)|
    decreases |l| - i
  {
    if i == |l| {
      assert l[..i] == l;
    } else {
      BodyGrows(l, i + 1);
      BodyNext(l, i);
    }
  }

  lemma BodyNext(l: seq<string>, i: nat)
    requires i < |l|
    ensures Body(l[..i + 1]) == Body(l[..i]) + l[i] + [NUL]
  {
    assert l[..i + 1] == l[..i] + [l[i]];
    BodyAppend(l[..i], l[i]);
  }

  /** The number of code units before the final terminator. */
  method CountCharacters(values: seq<string>) returns (charCount: nat)
    ensures charCount == |Body(values)|
  {
    charCount := 0;
    for i := 0 to |values|
      invariant charCount == |Body(values[..i])|
    {
      BodyNext(values, i);
      charCount := charCount + |values[i]| + 1;
    }
    assert values[..|values|] == values;
  }

  /** Prints into a buffer that is sized before, and fills it exactly. */
  method ToMultiSz(values: seq<string>) returns (data: array<char>)
    ensures fresh(data) && data[..] == Print(values)
  {
    var charCount := CountCharacters(values);
    data := new char[charCount + 1];
    var written := 0;
    for i := 0 to |values|
      invariant written == |Body(values[..i])| <= charCount
      invariant data[..written] == Body(values[..i])
    {
      BodyNext(values, i);
      BodyGrows(values, i + 1);
      CopyTerminated(data, written, values[i]);
      written := written + |values[i]| + 1;
    }
    assert values[..|values|] == values;
    data[written] := NUL;
    PrintIsBody(values);
    assert data[..] == data[..written] + [NUL];
  }

  /** Copies a string and its terminator. */
  method CopyTerminated(data: array<char>, at: nat, s: string)
    requires at + |s| + 1 <= data.Length
    modifies data
    ensures data[..at + |s| + 1] == old(data[..at]) + s + [NUL]
  {
    for i := 0 to |s|
      invariant data[..at + i] == old(data[..at]) + s[..i]
    {
      data[at + i] := s[i];
      assert data[..at + i + 1] == data[..at + i] + [s[i]];
      assert s[..i + 1] == s[..i] + [s[i]];
    }
    data[at + |s|] := NUL;
    assert data[..at + |s| + 1] == data[..at + |s|] + [NUL];
  }

  // ---------- Printing and parsing ----------

  lemma PrintedFirst(x: string, r: string, s: string, i: nat)
    requires i <= |s| && NulFree(x) && x + [NUL] + r <= s[i..]
    ensures NulIndex(s, i) == i + |x| < |s|
    ensures s[i..i + |x|] == x && r <= s[i + |x| + 1..]
  {
    var p, t := x + [NUL] + r, s[i..];
    assert forall j :: 0 <= j < |p| ==> t[j] == p[j];
    assert forall j :: 0 <= j < |x| ==> s[i + j] == x[j];
    assert s[i + |x|] == t[|x|] == p[|x|] == NUL;
    assert p[|x| + 1..] == r && p[|x| + 1..] <= t[|x| + 1..] && t[|x| + 1..] == s[i + |x| + 1..];
  }

  lemma ParseNext(s: string, i: nat, k: nat, n: nat)
    requires i < k < |s| && k == NulIndex(s, i) && n == k + 1
    ensures ParseFrom(s, i) == Outcome(ParseFrom(s, n).ok, [s[i..k]] + ParseFrom(s, n).values)
  {}

  lemma {:induction false} PrintedIsParsed(l: seq<string>, s: string, i: nat)
    requires i <= |s| && Clean(l) && Print(l) <= s[i..]
    ensures ParseFrom(s, i) == Outcome(true, l)
    decreases |l|
  {
    if l == [] {
      assert s[i] == s[i..][0] == NUL;
    } else {
      var x, rest, n := l[0], l[1..], i + |l[0]| + 1;
      CleanSplit(l);
      PrintedFirst(x, Print(rest), s, i);
      PrintedIsParsed(rest, s, n);
      ParseNext(s, i, i + |x|, n);
      assert l == [x] + rest;
    }
  }

  lemma CleanSplit(l: seq<string>)
    requires l != []
    ensures Clean(l) <==> l[0] != "" && NulFree(l[0]) && Clean(l[1..])
  {
    var rest := l[1..];
    if l[0] != "" && NulFree(l[0]) && Clean(rest) {
      forall i | 0 <= i < |l| ensures l[i] != "" && NulFree(l[i]) {
        if i > 0 {
          assert l[i] == rest[i - 1];
        }
      }
    }
    if Clean(l) {
      forall i | 0 <= i < |rest| ensures rest[i] != "" && NulFree(rest[i]) {
        assert rest[i] == l[i + 1];
      }
    }
  }

  lemma {:induction false} ParsedIsPrinted(s: string, i: nat)
    requires i <= |s| && ParseFrom(s, i).ok
    ensures Clean(ParseFrom(s, i).values) && Print(ParseFrom(s, i).values) <= s[i..]
    decreases |s| - i
  {
    var k := NulIndex(s, i);
    if k == i {
      assert s[i..][0] == NUL;
    } else {
      var n := k + 1;
      ParsedIsPrinted(s, n);
      ParseNext(s, i, k, n);
      PrintCons(s, i, k, n, ParseFrom(s, n).values);
    }
  }

  lemma PrintCons(s: string, i: nat, k: nat, n: nat, l: seq<string>)
    requires i < k < |s| && n == k + 1 && s[k] == NUL && NulFree(s[i..k]) && Clean(l) && Print(l) <= s[n..]
    ensures Clean([s[i..k]] + l) && Print([s[i..k]] + l) <= s[i..]
  {
    var x := s[i..k];
    var both := [x] + l;
    assert both[0] == x && both[1..] == l;
    CleanSplit(both);
    assert s[i..] == x + [NUL] + s[n..];
  }

  /** A span parses to a list exactly when it starts with the list's print and holds two code units. */
  lemma ParseIff(s: string, l: seq<string>)
    ensures Parse(s) == Outcome(true, l) <==> |s| >= 2 && Clean(l) && Print(l) <= s
  {
    assert s[0..] == s;
    if |s| >= 2 {
      if ParseFrom(s, 0).ok {
        ParsedIsPrinted(s, 0);
      }
      if Clean(l) && Print(l) <= s {
        PrintedIsParsed(l, s, 0);
      }
    }
  }

  lemma PrintedLength(l: seq<string>)
    ensures |Print(l)| >= 2 <==> l != []
  {}

  /** A nonempty list of clean strings survives the round trip, whatever follows it in the buffer. */
  lemma RoundTrip(l: seq<string>, tail: string)
    requires l != [] && Clean(l)
    ensures Parse(Print(l) + tail) == Outcome(true, l)
  {
    PrintedLength(l);
    ParseIff(Print(l) + tail, l);
  }

  /** A list survives the round trip through a buffer of its own exactly when it is not empty and clean. */
  lemma RoundTripIff(l: seq<string>)
    ensures Parse(Print(l)) == Outcome(true, l) <==> l != [] && Clean(l)
  {
    PrintedLength(l);
    ParseIff(Print(l), l);
  }

  /** The empty list prints as a single NUL, which is one code unit too short; any second unit makes it good. */
  lemma EmptyListNeedsTwoUnits(next: char)
    ensures Print([]) == [NUL] && !Parse(Print([])).ok
    ensures Parse(Print([]) + [next]) == Outcome(true, [])
  {
    ParseIff([NUL, next], []);
  }

  /** Without the length check the empty list survives as well. */
  lemma UnsizedRoundTripIff(l: seq<string>, tail: string)
    ensures ParseFrom(Print(l) + tail, 0) == Outcome(true, l) <==> Clean(l)
  {
    var s := Print(l) + tail;
    assert s[0..] == s;
    if Clean(l) {
      PrintedIsParsed(l, s, 0);
    }
    if ParseFrom(s, 0).ok {
      ParsedIsPrinted(s, 0);
    }
  }

  // ---------- When a span is well formed ----------

  predicate DoubleNulFrom(s: string, i: nat) {
    exists k :: i <= k < |s| - 1 && s[k] == NUL && s[k + 1] == NUL
  }

  lemma {:induction false} ParsesFromIff(s: string, i: nat)
    requires i <= |s|
    ensures ParseFrom(s, i).ok <==> i < |s| && (s[i] == NUL || DoubleNulFrom(s, i))
    decreases |s| - i
  {
    var n := NulIndex(s, i);
    if i < n < |s| {
      ParsesFromIff(s, n + 1);
      if n + 1 < |s| && s[n + 1] == NUL {
        assert s[n] == NUL;
      }
    }
  }

  /** A span is accepted exactly when it starts with a NUL and has something after it, or has two adjacent NULs. */
  lemma ParsesIff(s: string)
    ensures Parse(s).ok <==> |s| >= 2 && (s[0] == NUL || DoubleNulFrom(s, 0))
  {
    if |s| >= 2 {
      ParsesFromIff(s, 0);
    }
  }

  // ---------- What a malformed span delivers ----------

  /** The rest of the span behind the strings of l has no NUL. */
  ghost predicate Unterminated(s: string, i: nat, l: seq<string>)
    requires i <= |s|
  {
    Clean(l) && Body(l) <= s[i..] && NulFree(s[i..][|Body(l)|..])
  }

  lemma UnterminatedFirst(s: string, i: nat, n: nat, x: string, rest: seq<string>)
    requires i <= |s| && Unterminated(s, i, [x] + rest) && n == i + |x| + 1
    ensures x != "" && n <= |s| && n - 1 == NulIndex(s, i) && s[i..n - 1] == x && Unterminated(s, n, rest)
  {
    var both := [x] + rest;
    assert both[0] == x && both[1..] == rest;
    CleanSplit(both);
    BodyCons(x, rest);
    PrintedFirst(x, Body(rest), s, i);
    BehindFirst(s, i, n, x, Body(rest));
  }

  lemma {:induction false} UnterminatedFails(s: string, i: nat, l: seq<string>)
    requires i <= |s| && Unterminated(s, i, l)
    ensures ParseFrom(s, i) == Outcome(false, l)
    decreases |l|
  {
    if l == [] {
      assert s[i..][0..] == s[i..];
      NoNulFrom(s, i);
    } else {
      var x, rest, n := l[0], l[1..], i + |l[0]| + 1;
      assert l == [x] + rest;
      UnterminatedFirst(s, i, n, x, rest);
      UnterminatedFails(s, n, rest);
      ParseNext(s, i, n - 1, n);
    }
  }

  lemma BehindFirst(s: string, i: nat, n: nat, x: string, r: string)
    requires n == i + |x| + 1 <= |s| && x + [NUL] + r <= s[i..]
    ensures r <= s[n..] && s[n..][|r|..] == s[i..][|x + [NUL] + r|..]
  {
    assert s[n..] == s[i..][|x| + 1..];
  }

  lemma NoNulFrom(s: string, i: nat)
    requires i <= |s|
    ensures NulFree(s[i..]) <==> NulIndex(s, i) == |s|
  {
    var k := NulIndex(s, i);
    forall j | i <= j < |s| ensures s[i..][j - i] == s[j] {}
    if k == |s| {
      assert forall j :: 0 <= j < |s| - i ==> s[i..][j] == s[i + j];
    }
  }

  lemma UnterminatedNext(s: string, i: nat, k: nat, n: nat, l: seq<string>)
    requires i < k < |s| && n == k + 1 && s[k] == NUL && NulFree(s[i..k]) && Unterminated(s, n, l)
    ensures Unterminated(s, i, [s[i..k]] + l)
  {
    var x := s[i..k];
    var both := [x] + l;
    assert both[0] == x && both[1..] == l;
    CleanSplit(both);
    BodyCons(x, l);
    assert s[i..] == x + [NUL] + s[n..];
    BehindFirst(s, i, n, x, Body(l));
  }

  lemma {:induction false} FailedIsUnterminated(s: string, i: nat)
    requires i <= |s| && !ParseFrom(s, i).ok
    ensures Unterminated(s, i, ParseFrom(s, i).values)
    decreases |s| - i
  {
    var k := NulIndex(s, i);
    if k < |s| {
      var n := k + 1;
      FailedIsUnterminated(s, n);
      ParseNext(s, i, k, n);
      UnterminatedNext(s, i, k, n, ParseFrom(s, n).values);
    } else {
      NoNulFrom(s, i);
      assert s[i..][0..] == s[i..];
    }
  }

  /** A span of two code units or more fails with exactly its terminated strings if what follows them has no NUL. */
  lemma FailsIff(s: string, l: seq<string>)
    ensures Parse(s) == Outcome(false, l) <==> if |s| < 2 then l == [] else Unterminated(s, 0, l)
  {
    if |s| >= 2 {
      if !ParseFrom(s, 0).ok {
        FailedIsUnterminated(s, 0);
      }
      if Unterminated(s, 0, l) {
        UnterminatedFails(s, 0, l);
      }
    }
  }
}
