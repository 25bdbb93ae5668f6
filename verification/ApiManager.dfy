/** Finding advertised APIs: which modules advertise any, and which advertisements a query matches. */
module ApiManager {
  import opened Wrappers
  import opened TypeList
  import opened SplitString
  import opened Modular

  /** An API as a module advertises it. */
  datatype Demarcation = Demarcation(categorization: seq<string>, name: string, allocator: string)

  const DELIMITER := '/'

  // ----- matching

  /** Equal strings at equal positions. */
  function SameStrings(a: seq<string>, b: seq<string>): (r: bool)
    requires |a| == |b|
    ensures r <==> a == b
  {
    a == [] || (a[0] == b[0] && SameStrings(a[1..], b[1..]))
  }

  /** Whether the first categorization is the second one or leads up to it. */
  function CategorizationsMatch(c1: seq<string>, c2: seq<string>): (r: bool)
    ensures r <==> c1 <= c2
    decreases |c2|
  {
    if |c1| == |c2| then SameStrings(c1, c2)
    else if |c1| < |c2| then CategorizationsMatch(c1, Slice(c2, 0, |c1|))
    else false
  }

  predicate MatchesExactly(query: seq<string>, d: Demarcation)
    requires query != []
  {
    && CategorizationsMatch(Slice(query, 0, |query| - 1), d.categorization)
    && At(query, |query| - 1) == d.name
  }

  predicate MatchesInexactly(query: seq<string>, d: Demarcation) {
    CategorizationsMatch(query, d.categorization)
  }

  datatype Matches = Matches(exact: seq<Demarcation>, inexact: seq<Demarcation>)

  function FindMatching(ds: seq<Demarcation>, query: string): Matches {
    var split := Split(query, DELIMITER);
    if |split| == 0 then
      Matches([], ds)
    else
      Matches(Filter(ds, d => MatchesExactly(split, d)), Filter(ds, d => MatchesInexactly(split, d)))
  }

  /** `kept` is what satisfies a condition, in its order: the demarcations at `positions`. */
  ghost predicate Picks(ds: seq<Demarcation>, kept: seq<Demarcation>, positions: seq<nat>, wanted: set<nat>) {
    && |positions| == |kept|
    && (forall k :: 0 <= k < |kept| ==> positions[k] < |ds| && kept[k] == ds[positions[k]])
    && (forall j, k :: 0 <= j < k < |kept| ==> positions[j] < positions[k])
    && (forall i :: i in positions <==> i in wanted)
  }

  /**
   For a query of at least one part, the exact matches are those whose name is the last part and whose
   category begins with the other parts; the inexact ones are those whose category begins with all parts.
   Both come in the order of the list.
   */
  lemma MatchesAreThese(ds: seq<Demarcation>, query: string) returns (exact: seq<nat>, inexact: seq<nat>)
    requires Split(query, DELIMITER) != []
    ensures var parts := Split(query, DELIMITER); var most, last := parts[..|parts| - 1], parts[|parts| - 1];
      && Picks(ds, FindMatching(ds, query).exact, exact,
               set i | 0 <= i < |ds| && most <= ds[i].categorization && last == ds[i].name)
      && Picks(ds, FindMatching(ds, query).inexact, inexact,
               set i | 0 <= i < |ds| && parts <= ds[i].categorization)
  {
    var split := Split(query, DELIMITER);
    exact := FilterIsSublist(ds, d => MatchesExactly(split, d));
    inexact := FilterIsSublist(ds, d => MatchesInexactly(split, d));
  }

  // ----- querying by the full path

  /** The query that spells out an API's category and name. */
  function FullPath(d: Demarcation): string {
    Join(d.categorization + [d.name], DELIMITER)
  }

  /** Nothing but delimiters. */
  predicate Blank(part: string) {
    forall c :: c in part ==> c == DELIMITER
  }

  lemma {:induction false} BlankHasNoParts(part: string)
    ensures Split(part, DELIMITER) == [] <==> Blank(part)
  {
    if part != [] {
      assert forall c :: c in part <==> c == part[0] || c in part[1..];
      if part[0] == DELIMITER {
        BlankHasNoParts(part[1..]);
      } else {
        BegunYieldsPart(part[1..], DELIMITER, [part[0]], []);
        assert part[0] in part;
      }
    }
  }

  ghost predicate SpellableUpTo(category: seq<string>, k: nat) {
    && k <= |category|
    && (forall i :: 0 <= i < k ==> Clean(category[i], DELIMITER))
    && (forall i :: k <= i < |category| ==> Blank(category[i]))
  }

  /** The category is made of parts that can be spelled in a query, followed by none or only blank ones. */
  ghost predicate Spellable(category: seq<string>) {
    exists k: nat :: SpellableUpTo(category, k)
  }

  lemma SplitOfCleanPart(part: string)
    requires Clean(part, DELIMITER)
    ensures Split(part, DELIMITER) == [part]
  {
    SplitOfClean(part, DELIMITER, []);
    assert [] + part == part;
  }

  lemma {:induction false} SplitEachTogether(a: seq<string>, b: seq<string>)
    ensures SplitEach(a + b, DELIMITER) == SplitEach(a, DELIMITER) + SplitEach(b, DELIMITER)
    decreases |a|
  {
    if a == [] {
      assert a + b == b;
    } else {
      assert (a + b)[1..] == a[1..] + b;
      SplitEachTogether(a[1..], b);
    }
  }

  lemma PrefixOfRest(rest: seq<string>, category: seq<string>)
    requires category != []
    ensures [category[0]] + rest <= category <==> rest <= category[1..]
  {
    assert category == [category[0]] + category[1..];
    assert ([category[0]] + rest)[1..] == rest;
  }

  lemma CleanFirst(category: seq<string>)
    requires category != [] && Clean(category[0], DELIMITER)
    ensures SplitEach(category, DELIMITER) <= category <==> SplitEach(category[1..], DELIMITER) <= category[1..]
  {
    SplitOfCleanPart(category[0]);
    PrefixOfRest(SplitEach(category[1..], DELIMITER), category);
  }

  lemma CleanIsNotBlank(part: string)
    requires Clean(part, DELIMITER)
    ensures !Blank(part)
  {
    assert part[0] in part;
  }

  lemma CleanFirstIsSpellable(category: seq<string>)
    requires category != [] && Clean(category[0], DELIMITER)
    ensures Spellable(category) <==> Spellable(category[1..])
  {
    var rest := category[1..];
    CleanIsNotBlank(category[0]);
    if k: nat :| SpellableUpTo(rest, k) {
      assert forall i :: 0 < i < |category| ==> category[i] == rest[i - 1];
      assert SpellableUpTo(category, k + 1);
    }
    if k: nat :| SpellableUpTo(category, k) {
      assert forall i :: 0 <= i < |rest| ==> rest[i] == category[i + 1];
      assert SpellableUpTo(rest, k - 1);
    }
  }

  lemma {:induction false} BlankExactly(category: seq<string>)
    ensures SplitEach(category, DELIMITER) == [] <==> forall i :: 0 <= i < |category| ==> Blank(category[i])
  {
    if category != [] {
      BlankHasNoParts(category[0]);
      BlankExactly(category[1..]);
      assert forall i :: 0 < i < |category| ==> category[i] == category[1..][i - 1];
    }
  }

  /** A category that starts with a part that cannot be spelled has to be blank throughout. */
  lemma UncleanFirst(category: seq<string>)
    requires category != [] && !Clean(category[0], DELIMITER)
    ensures SplitEach(category, DELIMITER) <= category <==> Spellable(category)
  {
    SplitEachIsClean(category, DELIMITER);
    BlankExactly(category);
    if SplitEach(category, DELIMITER) == [] {
      assert SpellableUpTo(category, 0);
    } else {
      assert SplitEach(category, DELIMITER)[0] in SplitEach(category, DELIMITER);
    }
  }

  /** What a category's parts are split into leads up to the category exactly if it is spellable. */
  lemma {:induction false} SplitLeadsUpExactly(category: seq<string>)
    ensures SplitEach(category, DELIMITER) <= category <==> Spellable(category)
  {
    if category == [] {
      assert SpellableUpTo(category, 0);
    } else {
      var first, rest := category[0], category[1..];
      SplitLeadsUpExactly(rest);
      PartsAreClean(first, DELIMITER);
      SplitEachIsClean(category, DELIMITER);
      if Clean(first, DELIMITER) {
        CleanFirst(category);
        CleanFirstIsSpellable(category);
      } else {
        UncleanFirst(category);
      }
    }
  }

  /** Whether a name is the last thing it is split into. */
  lemma LastOfSplit(name: string)
    ensures Split(name, DELIMITER) != [] && Split(name, DELIMITER)[|Split(name, DELIMITER)| - 1] == name
       <==> Clean(name, DELIMITER)
  {
    PartsAreClean(name, DELIMITER);
    if Clean(name, DELIMITER) {
      SplitOfCleanPart(name);
    }
  }

  lemma FullPathSplits(d: Demarcation)
    ensures Split(FullPath(d), DELIMITER) == SplitEach(d.categorization, DELIMITER) + Split(d.name, DELIMITER)
  {
    hide Split, Join;
    SplitOfJoin(d.categorization + [d.name], DELIMITER);
    SplitEachTogether(d.categorization, [d.name]);
    assert SplitEach([d.name], DELIMITER) == Split(d.name, DELIMITER) + [];
  }

  /**
   Querying an API by its full path finds it among the exact matches exactly if its name can be spelled in
   a query and its category is spellable.  That holds of all categories and names without empty parts and
   slashes.
   */
  lemma FullPathFindsExactly(d: Demarcation)
    ensures var query := Split(FullPath(d), DELIMITER);
      query != [] && MatchesExactly(query, d) <==> Clean(d.name, DELIMITER) && Spellable(d.categorization)
  {
    hide Split, SplitEach, Join, Clean, Spellable;
    var category, name := SplitEach(d.categorization, DELIMITER), Split(d.name, DELIMITER);
    var query := Split(FullPath(d), DELIMITER);
    FullPathSplits(d);
    LastOfSplit(d.name);
    SplitLeadsUpExactly(d.categorization);
    SplitEachIsClean(d.categorization, DELIMITER);
    if Clean(d.name, DELIMITER) {
      SplitOfCleanPart(d.name);
      assert query[..|query| - 1] == category;
    } else if query != [] {
      if name == [] {
        assert query == category && query[|query| - 1] in category;
      } else {
        assert query[|query| - 1] == name[|name| - 1];
      }
    }
  }

  /** An advertised API with a category and a name in good order is found by its full path. */
  lemma FullPathFinds(ds: seq<Demarcation>, d: Demarcation)
    requires d in ds && Clean(d.name, DELIMITER) && forall part :: part in d.categorization ==> Clean(part, DELIMITER)
    ensures d in FindMatching(ds, FullPath(d)).exact
  {
    assert SpellableUpTo(d.categorization, |d.categorization|);
    FullPathFindsExactly(d);
    var exact, inexact := MatchesAreThese(ds, FullPath(d));
    var i :| 0 <= i < |ds| && ds[i] == d;
    assert i in exact;
  }

  /** A query of nothing but delimiters has no exact match, and every advertisement as an inexact one. */
  lemma BlankQueryMatches(ds: seq<Demarcation>, query: string)
    requires Blank(query)
    ensures FindMatching(ds, query).exact == [] && FindMatching(ds, query).inexact == ds
  {
    BlankHasNoParts(query);
  }

  // ----- allocating by a query

  /** What the allocator allocates: the one exact match, as long as there is no other and no inexact one. */
  function Allocated(ds: seq<Demarcation>, query: string): Option<Demarcation> {
    var matches := FindMatching(ds, query);
    if |matches.exact| == 1 && |matches.inexact| == 0 then Some(matches.exact[0]) else None
  }

  /** The parts name the API, as being somewhere in the category of all but the last. */
  predicate Name(parts: seq<string>, d: Demarcation) {
    parts != [] && parts[..|parts| - 1] <= d.categorization && parts[|parts| - 1] == d.name
  }

  lemma PicksNone(ds: seq<Demarcation>, kept: seq<Demarcation>, positions: seq<nat>, wanted: set<nat>)
    requires Picks(ds, kept, positions, wanted)
    ensures kept == [] <==> wanted == {}
  {
    assert kept == [] ==> forall i :: i !in positions;
    assert kept != [] ==> positions[0] in positions;
  }

  lemma PicksOne(ds: seq<Demarcation>, kept: seq<Demarcation>, positions: seq<nat>, wanted: set<nat>, i: nat)
    requires Picks(ds, kept, positions, wanted) && i in wanted
    ensures i < |ds| && ds[i] in kept
    ensures |kept| == 1 <==> wanted == {i}
  {
    var k :| 0 <= k < |positions| && positions[k] == i;
    assert kept[k] == ds[i];
    assert forall j :: j in wanted ==> j in positions;
    if |kept| > 1 {
      assert positions[0] in positions && positions[1] in positions;
      assert positions[0] < positions[1];
    }
  }

  /**
   A query that names an API allocates it exactly if it names no other, and is not the beginning of any
   API's category.
   */
  lemma AllocatesExactly(ds: seq<Demarcation>, query: string, i: nat)
    requires i < |ds| && Name(Split(query, DELIMITER), ds[i])
    ensures var parts := Split(query, DELIMITER);
      Allocated(ds, query) == Some(ds[i]) <==>
        && (forall j :: 0 <= j < |ds| && j != i ==> !Name(parts, ds[j]))
        && (forall j :: 0 <= j < |ds| ==> !(parts <= ds[j].categorization))
  {
    hide Picks, FindMatching;
    var parts := Split(query, DELIMITER);
    var most, last := parts[..|parts| - 1], parts[|parts| - 1];
    var exact, inexact := MatchesAreThese(ds, query);
    var named := set j | 0 <= j < |ds| && most <= ds[j].categorization && last == ds[j].name;
    var below := set j | 0 <= j < |ds| && parts <= ds[j].categorization;
    PicksOne(ds, FindMatching(ds, query).exact, exact, named, i);
    PicksNone(ds, FindMatching(ds, query).inexact, inexact, below);
    assert forall j :: 0 <= j < |ds| ==> (Name(parts, ds[j]) <==> j in named);
    assert forall j :: j in below <==> 0 <= j < |ds| && parts <= ds[j].categorization;
    assert (forall j :: 0 <= j < |ds| && j != i ==> !Name(parts, ds[j])) <==> named == {i};
  }

  /** A category's leading parts that can be spelled in a query. */
  function CleanParts(category: seq<string>): seq<string> {
    if category == [] || !Clean(category[0], DELIMITER) then [] else [category[0]] + CleanParts(category[1..])
  }

  /** What is left of an API's full path once it is split. */
  function Spelled(d: Demarcation): seq<string> {
    CleanParts(d.categorization) + [d.name]
  }

  lemma {:induction false} SpellableIsCleanParts(category: seq<string>)
    requires Spellable(category)
    ensures SplitEach(category, DELIMITER) == CleanParts(category)
  {
    if category != [] {
      if Clean(category[0], DELIMITER) {
        SplitOfCleanPart(category[0]);
        CleanFirstIsSpellable(category);
        SpellableIsCleanParts(category[1..]);
      } else {
        var k: nat :| SpellableUpTo(category, k);
        BlankExactly(category);
      }
    }
  }

  /** Nothing is allocated but what matches exactly. */
  lemma AllocatedMatches(ds: seq<Demarcation>, query: string)
    requires Allocated(ds, query).Some?
    ensures Split(query, DELIMITER) != []
    ensures MatchesExactly(Split(query, DELIMITER), Allocated(ds, query).value)
  {
    var split := Split(query, DELIMITER);
    var positions := FilterIsSublist(ds, d => MatchesExactly(split, d));
  }

  /**
   An API's own full path allocates it exactly if the path can be spelled and no other API has its name in
   its category or below, nor any API a category that begins with its category and name.
   */
  lemma FullPathAllocatesExactly(ds: seq<Demarcation>, i: nat)
    requires i < |ds|
    ensures Allocated(ds, FullPath(ds[i])) == Some(ds[i]) <==>
      && Clean(ds[i].name, DELIMITER) && Spellable(ds[i].categorization)
      && (forall j :: 0 <= j < |ds| && j != i ==> !Name(Spelled(ds[i]), ds[j]))
      && (forall j :: 0 <= j < |ds| ==> !(Spelled(ds[i]) <= ds[j].categorization))
  {
    hide Split, SplitEach, Clean, Spellable, CleanParts, FullPath, Allocated;
    var d := ds[i];
    FullPathFindsExactly(d);
    if Clean(d.name, DELIMITER) && Spellable(d.categorization) {
      FullPathSplits(d);
      SplitOfCleanPart(d.name);
      SpellableIsCleanParts(d.categorization);
      AllocatesExactly(ds, FullPath(d), i);
    } else if Allocated(ds, FullPath(d)).Some? {
      AllocatedMatches(ds, FullPath(d));
    }
  }

  /** The exact matches are in the query's own category exactly if no API of that name is in one below it. */
  lemma MatchesOwnCategoryExactly(ds: seq<Demarcation>, query: string)
    requires Split(query, DELIMITER) != []
    ensures var parts := Split(query, DELIMITER); var most, last := parts[..|parts| - 1], parts[|parts| - 1];
      (forall d :: d in FindMatching(ds, query).exact ==> d.categorization == most) <==>
        forall d :: d in ds && d.name == last ==> !(most < d.categorization)
  {
    var exact, _ := MatchesAreThese(ds, query);
    var parts, found := Split(query, DELIMITER), FindMatching(ds, query).exact;
    hide FindMatching, Split;
    forall d
      ensures d in found <==> d in ds && Name(parts, d)
    {
      if d in found {
        var k :| 0 <= k < |found| && found[k] == d;
        assert exact[k] in exact;
      }
      if d in ds && Name(parts, d) {
        var i :| 0 <= i < |ds| && ds[i] == d;
        assert i in exact;
      }
    }
  }

  // ----- what the modules advertise

  datatype Advertised<M, D, A> = Advertised(target: Module<M, D>, path: seq<D>, apis: seq<A>)

  /** The accumulator that records the advertisements of a module that has any. */
  function Advertise<M, D, A>(advertised: M -> seq<A>)
      : (Module<M, D>, seq<D>, seq<Advertised<M, D, A>>) -> seq<Advertised<M, D, A>>
  {
    (m: Module<M, D>, path: seq<D>, state: seq<Advertised<M, D, A>>) =>
      if advertised(m.kind) == [] then state else state + [Advertised(m, path, advertised(m.kind))]
  }

  function HasApis<M, D, A>(advertised: M -> seq<A>): Entry<M, D> -> bool {
    (e: Entry<M, D>) => advertised(e.target.kind) != []
  }

  function Records<M, D, A>(entries: seq<Entry<M, D>>, advertised: M -> seq<A>): seq<Advertised<M, D, A>> {
    seq(|entries|, i requires 0 <= i < |entries| =>
      Advertised(entries[i].target, entries[i].path, advertised(entries[i].target.kind)))
  }

  lemma {:induction false} FoldAdvertises<M, D, A>(entries: seq<Entry<M, D>>, filtered: seq<Entry<M, D>>,
                                                   advertised: M -> seq<A>)
    ensures Fold(entries, Records(filtered, advertised), Advertise<M, D, A>(advertised))
         == Records(FilterOnto(filtered, entries, HasApis<M, D, A>(advertised)), advertised)
    decreases |entries|
  {
    if entries != [] {
      var e := entries[0];
      if advertised(e.target.kind) == [] {
        FoldAdvertises(entries[1..], filtered, advertised);
      } else {
        FoldAdvertises(entries[1..], filtered + [e], advertised);
        assert Records(filtered + [e], advertised)
            == Records(filtered, advertised) + [Advertised(e.target, e.path, advertised(e.target.kind))];
      }
    }
  }

  /** Collecting advertisements over the tree is the tree's listing, cut down to the modules that have any. */
  lemma WalkAdvertises<M, D, A>(m: Module<M, D>, advertised: M -> seq<A>)
    ensures Walk(m, [], [], Advertise<M, D, A>(advertised))
         == Records(Filter(Listing(m, []), HasApis<M, D, A>(advertised)), advertised)
  {
    WalkIsFold(m, [], [], Advertise<M, D, A>(advertised));
    FoldAdvertises(Listing(m, []), [], advertised);
    assert Records<M, D, A>([], advertised) == [];
  }

  lemma RecordsOfFiltered<M, D, A>(entries: seq<Entry<M, D>>, advertised: M -> seq<A>, a: Advertised<M, D, A>)
    ensures a in Records(Filter(entries, HasApis<M, D, A>(advertised)), advertised) <==>
      Entry(a.target, a.path) in entries && a.apis == advertised(a.target.kind) != []
  {
    var has, e := HasApis<M, D, A>(advertised), Entry(a.target, a.path);
    var kept := Filter(entries, has);
    var positions := FilterIsSublist(entries, has);
    hide Filter;
    if e in entries && has(e) {
      var i :| 0 <= i < |entries| && entries[i] == e;
      var k :| 0 <= k < |positions| && positions[k] == i;
      assert Records(kept, advertised)[k] == Advertised(a.target, a.path, advertised(a.target.kind));
    }
    if a in Records(kept, advertised) {
      var k :| 0 <= k < |kept| && Records(kept, advertised)[k] == a;
      assert kept[k] == e && entries[positions[k]] == e;
    }
  }

  /** What is collected is, for every module that a path leads to, just what it advertises, if it does. */
  lemma AdvertisedExactly<M, D, A>(m: Module<M, D>, advertised: M -> seq<A>, a: Advertised<M, D, A>)
    ensures a in Walk(m, [], [], Advertise<M, D, A>(advertised)) <==>
      Leads(m, a.path, a.target) && a.apis == advertised(a.target.kind) != []
  {
    hide *;
    WalkAdvertises(m, advertised);
    ListingHasWhatPathsLeadTo(m, [], a.path, a.target);
    assert [] + a.path == a.path;
    RecordsOfFiltered(Listing(m, []), advertised, a);
  }
}
