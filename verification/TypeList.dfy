/** Compile-time lists of types, as sequences of whatever stands for a type. */
module TypeList {
  import opened Wrappers
  import opened Sequences

  /** The position of a type's first occurrence, or -1. */
  function IndexOf<T(==)>(list: seq<T>, search: T): (i: int)
    ensures -1 <= i < |list|
    ensures i == -1 <==> search !in list
    ensures i >= 0 ==> list[i] == search && search !in list[..i]
  {
    if list == [] then -1
    else
      var deeper := IndexOf(list[1..], search);
      if search == list[0] then 0
      else if deeper == -1 then -1
      else
        assert list[..deeper + 1] == [list[0]] + list[1..][..deeper];
        deeper + 1
  }

  function At<T>(list: seq<T>, index: nat): (t: T)
    requires index < |list|
    ensures t == list[index]
  {
    if index == 0 then list[0] else At(list[1..], index - 1)
  }

  /** Adds the types of one list to `uniques`, leaving out those already there. */
  function AddUnique<T(==)>(uniques: seq<T>, list: seq<T>): seq<T>
    decreases |list|
  {
    if list == [] then uniques
    else if |list| == 1 then
      if IndexOf(uniques, list[0]) >= 0 then uniques else uniques + list
    else AddUnique(AddUnique(uniques, [list[0]]), list[1..])
  }

  /** Adds one list after the other; the original has no instance for no lists at all. */
  function ConcatUniqueOnto<T(==)>(uniques: seq<T>, lists: seq<seq<T>>): seq<T>
    requires |lists| > 0
    decreases |lists|
  {
    if |lists| == 1 then AddUnique(uniques, lists[0])
    else if lists[0] == [] then ConcatUniqueOnto(uniques, lists[1..])
    else ConcatUniqueOnto(AddUnique(uniques, lists[0]), lists[1..])
  }

  function ConcatUnique<T(==)>(lists: seq<seq<T>>): seq<T>
    requires |lists| > 0
  {
    ConcatUniqueOnto([], lists)
  }

  /** Moves the types that pass the filter from `list` to the end of `filtered`. */
  function FilterOnto<T>(filtered: seq<T>, list: seq<T>, pass: T -> bool): seq<T>
    decreases |list|
  {
    if list == [] then filtered
    else if pass(list[0]) then FilterOnto(filtered + [list[0]], list[1..], pass)
    else FilterOnto(filtered, list[1..], pass)
  }

  function Filter<T>(list: seq<T>, pass: T -> bool): seq<T> {
    FilterOnto([], list, pass)
  }

  lemma SliceOfRest<T>(list: seq<T>, start: nat, end: nat)
    requires 0 < start <= end <= |list|
    ensures list[start..end] == list[1..][start - 1..end - 1]
  {
    var rest := list[1..];
    assert forall i :: 0 <= i < |rest| ==> rest[i] == list[i + 1];
    assert |list[start..end]| == |rest[start - 1..end - 1]|;
  }

  lemma SliceFromFirst<T>(list: seq<T>, end: nat)
    requires 0 < end <= |list|
    ensures list[0..end] == [list[0]] + list[1..][0..end - 1]
  {
  }

  /** Moves the types at `[start, end)` to the end of `results`; nothing is moved before `start` is reached. */
  function SliceOnto<T>(results: seq<T>, list: seq<T>, start: nat, end: nat): (slice: seq<T>)
    requires start <= end <= |list| && (start > 0 ==> results == [])
    ensures slice == results + list[start..end]
    decreases |list|
  {
    if start == end then
      results
    else if start == 0 then
      SliceFromFirst(list, end);
      SliceOnto(results + [list[0]], list[1..], 0, end - 1)
    else
      SliceOfRest(list, start, end);
      SliceOnto([], list[1..], start - 1, end - 1)
  }

  function Slice<T>(list: seq<T>, start: nat, end: nat): (slice: seq<T>)
    requires start <= end <= |list|
    ensures slice == list[start..end]
  {
    SliceOnto([], list, start, end)
  }

  /** The type a run-time tag selects; the original throws if there is none. */
  function Dispatch<T>(list: seq<T>, tag: int): Option<T> {
    if 0 <= tag < |list| then Some(list[tag]) else None
  }

  // ----- duplicates

  function Flatten<T>(lists: seq<seq<T>>): seq<T> {
    if lists == [] then [] else lists[0] + Flatten(lists[1..])
  }

  /** Whether position `i` is where its type occurs first. */
  ghost predicate IsFirst<T>(s: seq<T>, i: nat) {
    i < |s| && s[i] !in s[..i]
  }

  /** `kept` consists of the first occurrences of `s`, in order: those at `positions`. */
  ghost predicate KeepsFirst<T>(s: seq<T>, kept: seq<T>, positions: seq<nat>) {
    && |positions| == |kept|
    && (forall k :: 0 <= k < |kept| ==> IsFirst(s, positions[k]) && kept[k] == s[positions[k]])
    && (forall j, k :: 0 <= j < k < |kept| ==> positions[j] < positions[k])
    && (forall i :: IsFirst(s, i) ==> i in positions)
  }

  lemma {:induction false} FirstOccurrence<T>(s: seq<T>, x: T) returns (i: nat)
    requires x in s
    ensures IsFirst(s, i) && s[i] == x
  {
    var last := |s| - 1;
    if x in s[..last] {
      i := FirstOccurrence(s[..last], x);
      assert s[..last][..i] == s[..i];
    } else {
      i := last;
    }
  }

  /** Keeping first occurrences keeps every type, and keeps it once. */
  lemma KeepsFirstKeepsAll<T>(s: seq<T>, kept: seq<T>, positions: seq<nat>)
    requires KeepsFirst(s, kept, positions)
    ensures Distinct(kept)
    ensures forall x :: x in kept <==> x in s
  {
    forall j, k | 0 <= j < k < |kept|
      ensures kept[j] != kept[k]
    {
      assert s[..positions[k]][positions[j]] == kept[j];
    }
    forall x | x in s
      ensures x in kept
    {
      var i := FirstOccurrence(s, x);
      var k :| 0 <= k < |positions| && positions[k] == i;
    }
  }

  /** One more type leaves earlier first occurrences as they were, and is one itself if it is new. */
  lemma FirstInLonger<T>(s: seq<T>, x: T)
    ensures forall i: nat :: i < |s| ==> (IsFirst(s + [x], i) <==> IsFirst(s, i))
    ensures IsFirst(s + [x], |s|) <==> x !in s
    ensures forall i: nat :: IsFirst(s + [x], i) ==> i <= |s|
  {
    forall i: nat | i <= |s|
      ensures (s + [x])[..i] == s[..i]
    {
    }
    assert s[..|s|] == s;
  }

  /** Adding one type keeps first occurrences. */
  lemma AddOneKeepsFirst<T>(s: seq<T>, kept: seq<T>, positions: seq<nat>, x: T) returns (more: seq<nat>)
    requires KeepsFirst(s, kept, positions)
    ensures KeepsFirst(s + [x], AddUnique(kept, [x]), more)
  {
    KeepsFirstKeepsAll(s, kept, positions);
    FirstInLonger(s, x);
    if x in kept {
      more := positions;
    } else {
      more := positions + [|s|];
      assert more[|positions|] == |s|;
    }
    forall i: nat | IsFirst(s + [x], i)
      ensures i in more
    {
      if i < |s| {
        assert i in positions;
      }
    }
  }

  lemma {:induction false} AddUniqueKeepsFirst<T>(s: seq<T>, kept: seq<T>, positions: seq<nat>, list: seq<T>)
    returns (more: seq<nat>)
    requires KeepsFirst(s, kept, positions)
    ensures KeepsFirst(s + list, AddUnique(kept, list), more)
    decreases |list|
  {
    if list == [] {
      more := positions;
      assert s + list == s;
    } else {
      more := AddOneKeepsFirst(s, kept, positions, list[0]);
      if |list| == 1 {
        assert list == [list[0]];
      } else {
        more := AddUniqueKeepsFirst(s + [list[0]], AddUnique(kept, [list[0]]), more, list[1..]);
        assert s + [list[0]] + list[1..] == s + list;
      }
    }
  }

  lemma {:induction false} ConcatUniqueOntoKeepsFirst<T>(s: seq<T>, kept: seq<T>, positions: seq<nat>,
                                                         lists: seq<seq<T>>)
    returns (more: seq<nat>)
    requires |lists| > 0 && KeepsFirst(s, kept, positions)
    ensures KeepsFirst(s + Flatten(lists), ConcatUniqueOnto(kept, lists), more)
    decreases |lists|
  {
    more := AddUniqueKeepsFirst(s, kept, positions, lists[0]);
    if |lists| == 1 {
      assert Flatten(lists) == lists[0] + [] == lists[0];
    } else {
      assert s + lists[0] + Flatten(lists[1..]) == s + Flatten(lists);
      more := ConcatUniqueOntoKeepsFirst(s + lists[0], AddUnique(kept, lists[0]), more, lists[1..]);
    }
  }

  /** Concatenating without duplicates keeps just the first occurrences, in their order. */
  lemma ConcatUniqueKeepsFirst<T>(lists: seq<seq<T>>) returns (positions: seq<nat>)
    requires |lists| > 0
    ensures KeepsFirst(Flatten(lists), ConcatUnique(lists), positions)
  {
    positions := ConcatUniqueOntoKeepsFirst([], [], [], lists);
    assert [] + Flatten(lists) == Flatten(lists);
  }

  lemma {:induction false} RisingPositions(positions: seq<nat>, k: nat)
    requires forall i, j :: 0 <= i < j < |positions| ==> positions[i] < positions[j]
    requires k < |positions|
    ensures positions[k] >= k
  {
    if k > 0 {
      RisingPositions(positions, k - 1);
    }
  }

  lemma {:induction false} RisingPositionsAbove(positions: seq<nat>, bound: nat, k: nat)
    requires forall i, j :: 0 <= i < j < |positions| ==> positions[i] < positions[j]
    requires forall i :: 0 <= i < |positions| ==> positions[i] < bound
    requires k < |positions|
    ensures positions[k] <= bound - (|positions| - k)
    decreases |positions| - k
  {
    if k < |positions| - 1 {
      RisingPositionsAbove(positions, bound, k + 1);
    }
  }

  lemma {:induction false} DistinctLosesNothing<T>(uniques: seq<T>, list: seq<T>)
    requires Distinct(uniques + list)
    ensures AddUnique(uniques, list) == uniques + list
    decreases |list|
  {
    if list != [] {
      var next := uniques + [list[0]];
      assert uniques + list == next + list[1..];
      assert list[0] !in uniques by {
        assert (uniques + list)[|uniques|] == list[0];
        assert forall i :: 0 <= i < |uniques| ==> (uniques + list)[i] == uniques[i];
      }
      if |list| == 1 {
        assert list == [list[0]];
      } else {
        DistinctLosesNothing(next, list[1..]);
      }
    } else {
      assert uniques + list == uniques;
    }
  }

  /** The check a variant makes on its types: nothing gets lost exactly if there are no duplicates. */
  lemma DuplicateCheckExactly<T>(list: seq<T>)
    ensures |ConcatUnique([list])| == |list| <==> Distinct(list)
    ensures Distinct(list) ==> ConcatUnique([list]) == list
  {
    var kept := ConcatUnique([list]);
    var positions := ConcatUniqueKeepsFirst([list]);
    assert Flatten([list]) == list + [] == list;
    if |kept| == |list| {
      forall k | 0 <= k < |list|
        ensures positions[k] == k
      {
        RisingPositions(positions, k);
        RisingPositionsAbove(positions, |list|, k);
      }
      KeepsFirstKeepsAll(list, kept, positions);
      assert kept == list;
    }
    if Distinct(list) {
      DistinctLosesNothing([], list);
      assert [] + list == list;
    }
  }

  /** Tags and types determine each other, and a tag selects the type it was taken from, exactly without duplicates. */
  lemma TagsAreExact<T>(list: seq<T>)
    ensures (forall i :: 0 <= i < |list| ==> IndexOf(list, At(list, i)) == i) <==> Distinct(list)
    ensures forall x :: x in list ==> Dispatch(list, IndexOf(list, x)) == Some(x)
    ensures forall x :: x !in list ==> Dispatch(list, IndexOf(list, x)) == None
  {
    if Distinct(list) {
      forall i | 0 <= i < |list|
        ensures IndexOf(list, At(list, i)) == i
      {
        var j := IndexOf(list, list[i]);
        assert list[j] == list[i];
      }
    } else {
      var i, j :| 0 <= i < j < |list| && list[i] == list[j];
      assert IndexOf(list, At(list, i)) == IndexOf(list, At(list, j));
    }
  }

  // ----- filters

  /** `kept` is the sublist of `list`, in order, of what passes: the types at `positions`. */
  ghost predicate IsSublist<T>(list: seq<T>, pass: T -> bool, kept: seq<T>, positions: seq<nat>) {
    && |positions| == |kept|
    && (forall k :: 0 <= k < |kept| ==> positions[k] < |list| && kept[k] == list[positions[k]] && pass(kept[k]))
    && (forall j, k :: 0 <= j < k < |kept| ==> positions[j] < positions[k])
    && (forall i :: 0 <= i < |list| && pass(list[i]) ==> i in positions)
  }

  lemma {:induction false} FilterOntoIsSublist<T>(done: seq<T>, filtered: seq<T>, positions: seq<nat>,
                                                  list: seq<T>, pass: T -> bool)
    returns (more: seq<nat>)
    requires IsSublist(done, pass, filtered, positions)
    ensures IsSublist(done + list, pass, FilterOnto(filtered, list, pass), more)
    decreases |list|
  {
    if list == [] {
      more := positions;
      assert done + list == done;
    } else {
      var next := done + [list[0]];
      assert next + list[1..] == done + list;
      if pass(list[0]) {
        more := positions + [|done|];
        forall i | 0 <= i < |next| && pass(next[i])
          ensures i in more
        {
          assert i == |done| ==> more[|positions|] == i;
        }
        more := FilterOntoIsSublist(next, filtered + [list[0]], more, list[1..], pass);
      } else {
        more := FilterOntoIsSublist(next, filtered, positions, list[1..], pass);
      }
    }
  }

  /** A filter keeps just what passes, in its order. */
  lemma FilterIsSublist<T>(list: seq<T>, pass: T -> bool) returns (positions: seq<nat>)
    ensures IsSublist(list, pass, Filter(list, pass), positions)
  {
    positions := FilterOntoIsSublist([], [], [], list, pass);
    assert [] + list == list;
  }
}
