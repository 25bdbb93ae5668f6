/** Splitting a compile-time string on a delimiter character. */
module SplitString {
  /**
   Goes through the string: `current` is the part being read, `result` the parts read so far.  A delimiter
   ends a part that has begun and is skipped otherwise.
   */
  function SplitOnto(str: string, delimiter: char, current: string, result: seq<string>): seq<string>
    decreases |str|
  {
    if str == [] then
      if |current| != 0 then result + [current] else result
    else if current == [] then
      if str[0] == delimiter then SplitOnto(str[1..], delimiter, [], result)
      else SplitOnto(str[1..], delimiter, [str[0]], result)
    else if str[0] == delimiter then
      SplitOnto(str[1..], delimiter, [], result + [current])
    else
      SplitOnto(str[1..], delimiter, current + [str[0]], result)
  }

  function Split(str: string, delimiter: char): seq<string> {
    SplitOnto(str, delimiter, [], [])
  }

  // ----- maximal runs

  /** `s[i..j]` is a longest stretch without delimiters, and not empty. */
  ghost predicate MaximalRun(s: string, delimiter: char, i: nat, j: nat) {
    && i < j <= |s|
    && (forall k :: i <= k < j ==> s[k] != delimiter)
    && (i == 0 || s[i - 1] == delimiter)
    && (j == |s| || s[j] == delimiter)
  }

  /** A stretch of a string. */
  datatype Span = Span(start: nat, end: nat)

  /** The parts are the maximal runs that start, and then end, below `bound`, in order: those at `spans`. */
  ghost predicate AreRuns(s: string, delimiter: char, parts: seq<string>, spans: seq<Span>, bound: nat) {
    && |spans| == |parts|
    && (forall k :: 0 <= k < |spans| ==>
          && MaximalRun(s, delimiter, spans[k].start, spans[k].end)
          && spans[k].end < bound
          && parts[k] == s[spans[k].start..spans[k].end])
    && (forall j, k :: 0 <= j < k < |spans| ==> spans[j].end < spans[k].start)
    && (forall i: nat, j: nat :: MaximalRun(s, delimiter, i, j) && i < bound ==> Span(i, j) in spans)
  }

  /** Where the reader stands at `at` with the current part begun at `begun`. */
  ghost predicate Reading(s: string, delimiter: char, begun: nat, at: nat) {
    && begun <= at <= |s|
    && (forall k :: begun <= k < at ==> s[k] != delimiter)
    && (begun == 0 || s[begun - 1] == delimiter)
  }

  lemma OnlyRunHere(s: string, delimiter: char, begun: nat, at: nat, i: nat, j: nat)
    requires Reading(s, delimiter, begun, at) && (at == |s| || s[at] == delimiter)
    requires MaximalRun(s, delimiter, i, j) && i <= at
    ensures i < begun || (i == begun && j == at)
  {
  }

  /** A run that begins where the current part began ends where a delimiter, or the end, is read. */
  lemma RunFound(s: string, delimiter: char, begun: nat, at: nat, parts: seq<string>, spans: seq<Span>)
    requires Reading(s, delimiter, begun, at) && begun < at && (at == |s| || s[at] == delimiter)
    requires AreRuns(s, delimiter, parts, spans, begun)
    ensures AreRuns(s, delimiter, parts + [s[begun..at]], spans + [Span(begun, at)], at + 1)
  {
    var more := spans + [Span(begun, at)];
    forall i: nat, j: nat | MaximalRun(s, delimiter, i, j) && i < at + 1
      ensures Span(i, j) in more
    {
      OnlyRunHere(s, delimiter, begun, at, i, j);
      assert more[|spans|] == Span(begun, at);
      if i < begun {
        var k :| 0 <= k < |spans| && spans[k] == Span(i, j);
        assert more[k] == Span(i, j);
      }
    }
  }

  /** The parts once the current one, if it has begun, is over. */
  function WithPart(s: string, begun: nat, at: nat, parts: seq<string>): seq<string>
    requires begun <= at <= |s|
  {
    if begun < at then parts + [s[begun..at]] else parts
  }

  lemma NoRunHere(s: string, delimiter: char, at: nat, parts: seq<string>, spans: seq<Span>)
    requires Reading(s, delimiter, at, at) && (at == |s| || s[at] == delimiter)
    requires AreRuns(s, delimiter, parts, spans, at)
    ensures AreRuns(s, delimiter, parts, spans, at + 1)
  {
    forall i: nat, j: nat | MaximalRun(s, delimiter, i, j) && i < at + 1
      ensures i < at
    {
      OnlyRunHere(s, delimiter, at, at, i, j);
    }
  }

  lemma PartRead(s: string, delimiter: char, begun: nat, at: nat, parts: seq<string>, spans: seq<Span>)
    returns (more: seq<Span>)
    requires Reading(s, delimiter, begun, at) && (at == |s| || s[at] == delimiter)
    requires AreRuns(s, delimiter, parts, spans, begun)
    ensures AreRuns(s, delimiter, WithPart(s, begun, at, parts), more, at + 1)
  {
    if begun < at {
      RunFound(s, delimiter, begun, at, parts, spans);
      more := spans + [Span(begun, at)];
    } else {
      NoRunHere(s, delimiter, at, parts, spans);
      more := spans;
    }
  }

  /** What the splitter does with the next character, or at the end. */
  lemma ReadOne(s: string, delimiter: char, begun: nat, at: nat, parts: seq<string>)
    requires begun <= at <= |s|
    ensures var parts' := WithPart(s, begun, at, parts);
      SplitOnto(s[at..], delimiter, s[begun..at], parts) ==
        if at == |s| then parts'
        else if s[at] == delimiter then SplitOnto(s[at + 1..], delimiter, s[at + 1..at + 1], parts')
        else SplitOnto(s[at + 1..], delimiter, s[begun..at + 1], parts)
  {
    if at < |s| {
      assert s[at..][0] == s[at] && s[at..][1..] == s[at + 1..];
      assert s[begun..at + 1] == s[begun..at] + [s[at]];
      assert s[at + 1..at + 1] == [];
      assert begun == at ==> s[begun..at] == [] && s[begun..at + 1] == [s[at]];
    }
  }

  lemma {:induction false} SplitOntoFindsRuns(s: string, delimiter: char, begun: nat, at: nat,
                                              parts: seq<string>, spans: seq<Span>)
    returns (all: seq<Span>)
    requires Reading(s, delimiter, begun, at)
    requires AreRuns(s, delimiter, parts, spans, begun)
    ensures AreRuns(s, delimiter, SplitOnto(s[at..], delimiter, s[begun..at], parts), all, |s| + 1)
    decreases |s| - at
  {
    hide AreRuns, SplitOnto;
    ReadOne(s, delimiter, begun, at, parts);
    if at < |s| && s[at] != delimiter {
      all := SplitOntoFindsRuns(s, delimiter, begun, at + 1, parts, spans);
    } else {
      all := PartRead(s, delimiter, begun, at, parts, spans);
      if at < |s| {
        all := SplitOntoFindsRuns(s, delimiter, at + 1, at + 1, WithPart(s, begun, at, parts), all);
      }
    }
  }

  /** Splitting yields exactly the maximal non-empty runs without delimiters, in their order. */
  lemma SplitYieldsMaximalRuns(s: string, delimiter: char) returns (spans: seq<Span>)
    ensures AreRuns(s, delimiter, Split(s, delimiter), spans, |s| + 1)
  {
    spans := SplitOntoFindsRuns(s, delimiter, 0, 0, [], []);
    assert s[0..] == s && s[0..0] == [];
  }

  // ----- joining

  /** A part that can stand between delimiters. */
  predicate Clean(part: string, delimiter: char) {
    part != [] && delimiter !in part
  }

  function Join(parts: seq<string>, delimiter: char): string {
    if parts == [] then []
    else if |parts| == 1 then parts[0]
    else parts[0] + [delimiter] + Join(parts[1..], delimiter)
  }

  /** All parts of all strings, one after the other. */
  function SplitEach(parts: seq<string>, delimiter: char): seq<string> {
    if parts == [] then [] else Split(parts[0], delimiter) + SplitEach(parts[1..], delimiter)
  }

  lemma {:induction false} ResultComesFirst(str: string, delimiter: char, current: string, result: seq<string>)
    ensures SplitOnto(str, delimiter, current, result) == result + SplitOnto(str, delimiter, current, [])
    decreases |str|
  {
    if str != [] {
      if str[0] == delimiter && current != [] {
        ResultComesFirst(str[1..], delimiter, [], result + [current]);
        ResultComesFirst(str[1..], delimiter, [], [current]);
        assert [] + [current] == [current];
        assert result + [current] + SplitOnto(str[1..], delimiter, [], [])
            == result + ([current] + SplitOnto(str[1..], delimiter, [], []));
      } else if str[0] == delimiter {
        ResultComesFirst(str[1..], delimiter, [], result);
      } else {
        ResultComesFirst(str[1..], delimiter, current + [str[0]], result);
        assert [] + [str[0]] == [str[0]];
      }
    }
  }

  /** A part that has begun is not lost. */
  lemma {:induction false} BegunYieldsPart(str: string, delimiter: char, current: string, result: seq<string>)
    requires current != [] || result != []
    ensures SplitOnto(str, delimiter, current, result) != []
    decreases |str|
  {
    if str != [] {
      if str[0] != delimiter {
        BegunYieldsPart(str[1..], delimiter, current + [str[0]], result);
        assert [] + [str[0]] == [str[0]];
      } else {
        BegunYieldsPart(str[1..], delimiter, [], if current == [] then result else result + [current]);
      }
    }
  }

  /** A delimiter between two strings keeps their parts apart. */
  lemma {:induction false} SplitAtDelimiter(a: string, b: string, delimiter: char, current: string)
    ensures SplitOnto(a + [delimiter] + b, delimiter, current, [])
         == SplitOnto(a, delimiter, current, []) + Split(b, delimiter)
    decreases |a|
  {
    var s := a + [delimiter] + b;
    if a == [] {
      assert s[1..] == b && s[0] == delimiter;
      ResultComesFirst(b, delimiter, [], [current]);
      assert [] + [current] == [current];
    } else {
      assert s[0] == a[0] && s[1..] == a[1..] + [delimiter] + b;
      if a[0] == delimiter {
        SplitAtDelimiter(a[1..], b, delimiter, []);
        ResultComesFirst(s[1..], delimiter, [], [current]);
        ResultComesFirst(a[1..], delimiter, [], [current]);
        assert [] + [current] == [current];
      } else {
        SplitAtDelimiter(a[1..], b, delimiter, current + [a[0]]);
        assert [] + [a[0]] == [a[0]];
      }
    }
  }

  /** Splitting a join splits each of its parts. */
  lemma {:induction false} SplitOfJoin(parts: seq<string>, delimiter: char)
    ensures Split(Join(parts, delimiter), delimiter) == SplitEach(parts, delimiter)
    decreases |parts|
  {
    if |parts| == 1 {
      assert parts[1..] == [];
    } else if |parts| > 1 {
      SplitOfJoin(parts[1..], delimiter);
      SplitAtDelimiter(parts[0], Join(parts[1..], delimiter), delimiter, []);
    }
  }

  lemma {:induction false} SplitOfClean(part: string, delimiter: char, current: string)
    requires delimiter !in part && current + part != []
    ensures SplitOnto(part, delimiter, current, []) == [current + part]
    decreases |part|
  {
    if part == [] {
      assert current + part == current;
    } else {
      SplitOfClean(part[1..], delimiter, current + [part[0]]);
      assert current + [part[0]] + part[1..] == current + part;
      assert [] + [part[0]] == [part[0]];
    }
  }

  /** What splitting yields is clean. */
  lemma PartsAreClean(s: string, delimiter: char)
    ensures forall part :: part in Split(s, delimiter) ==> Clean(part, delimiter)
  {
    var spans := SplitYieldsMaximalRuns(s, delimiter);
  }

  lemma {:induction false} SplitEachIsClean(parts: seq<string>, delimiter: char)
    ensures forall part :: part in SplitEach(parts, delimiter) ==> Clean(part, delimiter)
  {
    if parts != [] {
      PartsAreClean(parts[0], delimiter);
      SplitEachIsClean(parts[1..], delimiter);
    }
  }

  lemma {:induction false} SplitEachOfClean(parts: seq<string>, delimiter: char)
    requires forall part :: part in parts ==> Clean(part, delimiter)
    ensures SplitEach(parts, delimiter) == parts
  {
    if parts != [] {
      assert Clean(parts[0], delimiter);
      SplitOfClean(parts[0], delimiter, []);
      assert [] + parts[0] == parts[0];
      SplitEachOfClean(parts[1..], delimiter);
    }
  }

  /** Splitting undoes joining exactly if the parts are clean. */
  lemma SplitUndoesJoinExactly(parts: seq<string>, delimiter: char)
    ensures Split(Join(parts, delimiter), delimiter) == parts
       <==> (forall part :: part in parts ==> Clean(part, delimiter))
  {
    SplitOfJoin(parts, delimiter);
    SplitEachIsClean(parts, delimiter);
    if forall part :: part in parts ==> Clean(part, delimiter) {
      SplitEachOfClean(parts, delimiter);
    }
  }
}
