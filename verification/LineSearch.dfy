/**
  The search of captured console output, from vlr-util/CaptureConsoleOut.h and
  vlr-util/CaptureConsoleOut.cpp: patterns looked for in the lines of the output, in their order.
*/
module LineSearch {
  import opened Splitter

  predicate OccursAt(line: string, pattern: string, i: nat) {
    i + |pattern| <= |line| && line[i..i + |pattern|] == pattern
  }

  predicate Contains(line: string, pattern: string) {
    exists i: nat | i <= |line| :: OccursAt(line, pattern, i)
  }

  /** A line contains a pattern exactly if it is the pattern with something before and something after it. */
  lemma ContainsIff(line: string, pattern: string)
    ensures Contains(line, pattern) <==> exists before, after :: line == before + pattern + after
  {
    if i: nat :| i <= |line| && OccursAt(line, pattern, i) {
      assert line == line[..i] + pattern + line[i + |pattern|..];
    }
    if before, after :| line == before + pattern + after {
      assert OccursAt(line, pattern, |before|);
    }
  }

  /** The first line from start on that contains the pattern, or the number of lines if there is none. */
  function Earliest(lines: seq<string>, pattern: string, start: nat): (i: nat)
    requires start <= |lines|
    ensures start <= i <= |lines|
    ensures i < |lines| ==> Contains(lines[i], pattern)
    ensures forall j :: start <= j < i ==> !Contains(lines[j], pattern)
    decreases |lines| - start
  {
    if start == |lines| || Contains(lines[start], pattern) then start else Earliest(lines, pattern, start + 1)
  }

  /** Every pattern is looked for from the line on where the one before it was first found. */
  predicate Greedy(lines: seq<string>, patterns: seq<string>, start: nat)
    requires start <= |lines|
  {
    patterns == [] ||
    var i := Earliest(lines, patterns[0], start);
    i < |lines| && Greedy(lines, patterns[1..], i)
  }

  /** A choice of lines for the patterns, none above the one before, from line start on. */
  ghost predicate InOrder(lines: seq<string>, patterns: seq<string>, start: nat, choice: seq<nat>) {
    && |choice| == |patterns|
    && (forall k :: 0 <= k < |choice| ==> start <= choice[k] < |lines| && Contains(lines[choice[k]], patterns[k]))
    && (forall j, k :: 0 <= j < k < |choice| ==> choice[j] <= choice[k])
  }

  lemma {:induction false} GreedyIsSound(lines: seq<string>, patterns: seq<string>, start: nat) returns (choice: seq<nat>)
    requires start <= |lines| && Greedy(lines, patterns, start)
    ensures InOrder(lines, patterns, start, choice)
    decreases |patterns|
  {
    choice := [];
    if patterns != [] {
      var i := Earliest(lines, patterns[0], start);
      var rest := GreedyIsSound(lines, patterns[1..], i);
      choice := [i] + rest;
    }
  }

  /** Taking the earliest line for a pattern never spoils a choice for the patterns after it. */
  lemma {:induction false} GreedyIsComplete(lines: seq<string>, patterns: seq<string>, start: nat, choice: seq<nat>)
    requires start <= |lines| && InOrder(lines, patterns, start, choice)
    ensures Greedy(lines, patterns, start)
    decreases |patterns|
  {
    if patterns != [] {
      var i := Earliest(lines, patterns[0], start);
      assert start <= choice[0] < |lines| && Contains(lines[choice[0]], patterns[0]);
      var rest := choice[1..];
      forall k | 0 <= k < |rest| ensures i <= rest[k] < |lines| && Contains(lines[rest[k]], patterns[1..][k]) {
        assert choice[0] <= choice[k + 1];
      }
      GreedyIsComplete(lines, patterns[1..], i, rest);
    }
  }

  lemma GreedyIff(lines: seq<string>, patterns: seq<string>)
    ensures Greedy(lines, patterns, 0) <==> exists choice :: InOrder(lines, patterns, 0, choice)
  {
    if Greedy(lines, patterns, 0) {
      var choice := GreedyIsSound(lines, patterns, 0);
    }
    if choice :| InOrder(lines, patterns, 0, choice) {
      GreedyIsComplete(lines, patterns, 0, choice);
    }
  }

  class CCaptureConsoleDataAnalysisHelper {
    var captured: string
    var textLines: seq<string>

    constructor (data: string)
      ensures captured == data && textLines == []
    {
      captured, textLines := data, [];
    }

    /** The lines that are searched: those cached before, else the nonempty lines of the captured text. */
    ghost function Lines(): seq<string>
      reads this
    {
      if textLines != [] then textLines else Runs(captured, |captured|, {'\n'})
    }

    method DecomposeCaptureDataInfoLines(lines: seq<string>) returns (result: seq<string>)
      ensures result == lines + Runs(captured, |captured|, {'\n'})
    {
      result := SplitStringAtDelimiter(captured, ['\n'], lines, NO_EMPTY_FIELDS);
      assert Delimiters(['\n']) == {'\n'};
      DefaultIsRuns(captured, {'\n'});
    }

    method GetAsTextLines() returns (lines: seq<string>)
      modifies this`textLines
      ensures lines == textLines == old(Lines()) == Lines()
    {
      if |textLines| > 0 {
        return textLines;
      }
      textLines := DecomposeCaptureDataInfoLines(textLines);
      lines := textLines;
    }

    /** The least index of a matching line from start on, or -1 for npos. */
    method FindMatchingLineIndex_Contains(findData: string, start: nat) returns (r: int)
      modifies this`textLines
      ensures Lines() == old(Lines())
      ensures r == -1 || (start <= r < |Lines()| && Contains(Lines()[r], findData))
      ensures forall j :: start <= j < (if r == -1 then |Lines()| else r) ==> !Contains(Lines()[j], findData)
    {
      var lines := GetAsTextLines();
      var currentIndex := start;
      while currentIndex < |lines|
        invariant start <= currentIndex && (start <= |lines| ==> currentIndex <= |lines|)
        invariant forall j :: start <= j < currentIndex ==> j < |lines| && !Contains(lines[j], findData)
      {
        var currentLine := lines[currentIndex];
        currentIndex := currentIndex + 1;
        if !Contains(currentLine, findData) {
          continue;
        }
        return currentIndex - 1;
      }
      return -1;
    }

    method DoesOutputContainContent(line: string) returns (found: bool)
      modifies this`textLines
      ensures Lines() == old(Lines())
      ensures found <==> exists j :: 0 <= j < |Lines()| && Contains(Lines()[j], line)
    {
      var r := FindMatchingLineIndex_Contains(line, 0);
      found := r != -1;
    }

    /** True exactly when lines can be chosen for the patterns, none above the one before. */
    method DoesOutputContainSequence(patterns: seq<string>) returns (found: bool)
      modifies this`textLines
      ensures Lines() == old(Lines())
      ensures found <==> exists choice :: InOrder(Lines(), patterns, 0, choice)
    {
      ghost var lines := Lines();
      GreedyIff(lines, patterns);
      var currentIndex: nat := 0;
      for k := 0 to |patterns|
        invariant Lines() == lines && currentIndex <= |lines|
        invariant Greedy(lines, patterns, 0) == Greedy(lines, patterns[k..], currentIndex)
      {
        var r := FindMatchingLineIndex_Contains(patterns[k], currentIndex);
        assert patterns[k..][0] == patterns[k] && patterns[k..][1..] == patterns[k + 1..];
        assert Earliest(lines, patterns[k], currentIndex) == if r == -1 then |lines| else r;
        if r == -1 {
          return false;
        }
        currentIndex := r;
      }
      return true;
    }
  }
}
