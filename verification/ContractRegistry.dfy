/** The registry of contracts: a permanent record per name, and the object space it is given. */
module ContractRegistry {
  import opened Wrappers
  import opened Sequences
  import opened Uint8
  import opened Exceptions
  import TableMonitor
  import TypeList

  const FIRST_AVAILABLE_SPACE_ID: nat := 10

  /** The space of the contract with the given record number, cut down to eight bits. */
  function SpaceOfRecord(number: nat): uint8 {
    (FIRST_AVAILABLE_SPACE_ID + number) % 256
  }

  lemma RemainderOfNext(x: nat)
    ensures (x + 1) % 256 == if x % 256 == 255 then 0 else x % 256 + 1
  {
    var q, r := x / 256, x % 256;
    assert x == 256 * q + r;
    if r == 255 {
      assert x + 1 == 256 * (q + 1);
    } else {
      assert x + 1 == 256 * q + (r + 1);
    }
  }

  /** The first record's space is the first available one, and each next record's the next, from 255 on to 0. */
  lemma SpacesAreConsecutive(number: nat)
    ensures SpaceOfRecord(0) == 10
    ensures SpaceOfRecord(number + 1) == if SpaceOfRecord(number) == 255 then 0 else SpaceOfRecord(number) + 1
  {
    RemainderOfNext(FIRST_AVAILABLE_SPACE_ID + number);
  }

  /** How a contract's own initialiser may end. */
  datatype InitOutcome = Accepted | Refused | Threw(e: Exception)

  /** The names on record in the order of their record numbers, and the contracts loaded in each space. */
  datatype Registry = Registry(records: seq<string>, loaded: map<uint8, string>)

  function NumberOf(records: seq<string>, name: string): (i: nat)
    requires name in records
    ensures i < |records| && records[i] == name
    ensures name !in records[..i]
  {
    if records[0] == name then 0
    else
      var i := NumberOf(records[1..], name);
      assert records[..i + 1] == [records[0]] + records[1..][..i];
      i + 1
  }

  /** The space a recorded name was given. */
  function IdOf(records: seq<string>, name: string): uint8
    requires name in records
  {
    SpaceOfRecord(NumberOf(records, name))
  }

  function WithRecord(records: seq<string>, name: string): seq<string> {
    if name in records then records else records + [name]
  }

  /** Loading never replaces what a space already holds. */
  function WithLoaded(loaded: map<uint8, string>, id: uint8, name: string): map<uint8, string> {
    if id in loaded then loaded else loaded[id := name]
  }

  function Initialized(r: Registry, name: string, outcome: InitOutcome): Registry {
    var records := WithRecord(r.records, name);
    Registry(records, if outcome == Accepted then WithLoaded(r.loaded, IdOf(records, name), name) else r.loaded)
  }

  /** The first space, in ascending order from `from`, that holds the name. */
  function FirstSpace(loaded: map<uint8, string>, name: string, from: nat): (found: Option<uint8>)
    requires from <= 256
    ensures match found
      case Some(id) => from <= id && id in loaded && loaded[id] == name
                    && forall k :: from <= k < id && k in loaded ==> loaded[k] != name
      case None => forall k :: from <= k < 256 && k in loaded ==> loaded[k] != name
    decreases 256 - from
  {
    if from == 256 then None
    else if from in loaded && loaded[from] == name then Some(from)
    else FirstSpace(loaded, name, from + 1)
  }

  /** A contract under observation. */
  datatype Monitor = Monitor(contractName: string, spaceId: uint8)

  function MonitorOf(m: TableMonitor.MultiTableMonitor): Monitor {
    Monitor(m.contractName, m.spaceId)
  }

  /** What comes of observing a contract: no space of that name is an error, as is a table that throws. */
  function Observed(loaded: map<uint8, string>, name: string, tables: seq<TableMonitor.Table>)
      : (r: Result<Monitor, Exception>)
    ensures r.Success? ==>
      && r.value.contractName == name && r.value.spaceId in loaded && loaded[r.value.spaceId] == name
      && forall k :: 0 <= k < r.value.spaceId && k in loaded ==> loaded[k] != name
    ensures r.Success? <==> name in loaded.Values && forall t :: t in tables ==> !t.attachment.Thrown?
    ensures name !in loaded.Values ==> r == Failure(OtherException)
    ensures name in loaded.Values && r.Failure? ==>
      exists i :: 0 <= i < |tables| && tables[i].attachment == TableMonitor.Thrown(r.error)
               && forall k :: 0 <= k < i ==> !tables[k].attachment.Thrown?
  {
    match FirstSpace(loaded, name, 0)
    case None => Failure(OtherException)
    case Some(id) =>
      match TableMonitor.ThrownBy(tables)
      case Some(e) => Failure(e)
      case None => Success(Monitor(name, id))
  }

  /** The types of the tables that observing a contract puts monitors on, whether or not it succeeds. */
  function PutOn(loaded: map<uint8, string>, name: string, tables: seq<TableMonitor.Table>): seq<uint8> {
    if FirstSpace(loaded, name, 0).None? then []
    else TableMonitor.ObservedTypes(tables[..TableMonitor.FirstThrow(tables)])
  }

  /** These are the tables that take a monitor and come before any that throws: the tables at `positions`, in order. */
  lemma PutOnAre(loaded: map<uint8, string>, name: string, tables: seq<TableMonitor.Table>)
    returns (positions: seq<nat>)
    ensures var types := PutOn(loaded, name, tables);
      if name !in loaded.Values then types == []
      else
        && |positions| == |types|
        && (forall k :: 0 <= k < |types| ==> positions[k] < |tables| && types[k] == tables[positions[k]].typeId)
        && (forall j, k :: 0 <= j < k < |types| ==> positions[j] < positions[k])
        && forall i: nat :: i in positions <==>
             && i < |tables| && tables[i].attachment == TableMonitor.Attached
             && forall k :: 0 <= k < i ==> !tables[k].attachment.Thrown?
  {
    var first := TableMonitor.FirstThrow(tables);
    assert FirstSpace(loaded, name, 0).Some? <==> name in loaded.Values;
    hide FirstSpace;
    positions := TableMonitor.ObservedTypesAre(tables, first);
  }

  /**
   Observing a contract leaves monitors behind whose signals are destroyed exactly if its space is found and
   some table takes a monitor before the first one that throws.
   */
  lemma DanglingExactly(loaded: map<uint8, string>, name: string, tables: seq<TableMonitor.Table>)
    ensures Observed(loaded, name, tables).Failure? && PutOn(loaded, name, tables) != [] <==>
      && FirstSpace(loaded, name, 0).Some?
      && exists i :: 0 <= i < TableMonitor.FirstThrow(tables) < |tables|
                  && tables[i].attachment == TableMonitor.Attached
  {
    hide FirstSpace;
    var reached := tables[..TableMonitor.FirstThrow(tables)];
    TableMonitor.ObservesSome(reached);
    assert forall i :: 0 <= i < |reached| ==> reached[i] == tables[i];
  }

  class ChainHandler {
    /** The persistence database: record number `i` holds the name at index `i`. */
    var persistence: seq<string>
    var loadedContracts: map<uint8, string>
    /** The monitors that are on tables of the chain's database. */
    var tableMonitors: seq<TableMonitor.TableMonitor>

    /** A start of the node: the records are those of the last run, and nothing is loaded yet. */
    constructor (records: seq<string>)
      ensures View() == Registry(records, map[]) && tableMonitors == []
    {
      persistence, loadedContracts, tableMonitors := records, map[], [];
    }

    ghost function View(): Registry
      reads this
    {
      Registry(persistence, loadedContracts)
    }

    /**
     `outcome` is how the initialiser ends when it is called with `spaceId`, the name's space; throwing ends
     this call too.
     */
    method InitializeContract(name: string, outcome: InitOutcome)
        returns (r: Result<bool, Exception>, spaceId: uint8)
      modifies this`persistence, this`loadedContracts
      ensures View() == Initialized(old(View()), name, outcome)
      ensures persistence == old(persistence) + if name in old(persistence) then [] else [name]
      ensures name in persistence && spaceId == IdOf(persistence, name)
      ensures loadedContracts ==
        if outcome == Accepted && spaceId !in old(loadedContracts) then old(loadedContracts)[spaceId := name]
        else old(loadedContracts)
      ensures match outcome
        case Accepted => r == Success(true)
        case Refused => r == Success(false)
        case Threw(e) => r == Failure(e)
    {
      var number: nat;
      if name in persistence {
        number := NumberOf(persistence, name);
      } else {
        persistence := persistence + [name];
        number := |persistence| - 1;
        assert NumberOf(persistence, name) == number;
      }
      spaceId := SpaceOfRecord(number);
      if outcome.Threw? {
        return Failure(outcome.e), spaceId;
      }
      if outcome == Accepted {
        loadedContracts := WithLoaded(loadedContracts, spaceId, name);
        return Success(true), spaceId;
      }
      return Success(false), spaceId;
    }

    /** Fails, with an assertion in the original, if no space holds the name. */
    method GetSpaceId(contractName: string) returns (found: Option<uint8>)
      ensures found == FirstSpace(loadedContracts, contractName, 0)
    {
      for id := 0 to 256
        invariant FirstSpace(loadedContracts, contractName, 0) == FirstSpace(loadedContracts, contractName, id)
      {
        if id in loadedContracts && loadedContracts[id] == contractName {
          return Some(id);
        }
      }
      return None;
    }

    /**
     Puts monitors on the tables of the contract's space, should it have one.  The monitors it put on stay in
     the database also if it fails, and then refer to signals that are destroyed.
     */
    method ObserveContract(name: string, tables: seq<TableMonitor.Table>)
        returns (r: Result<TableMonitor.MultiTableMonitor, Exception>)
      modifies this`tableMonitors
      ensures match Observed(loadedContracts, name, tables)
        case Failure(e) => r == Failure(e)
        case Success(m) =>
          && r.Success? && fresh(r.value) && MonitorOf(r.value) == m
          && r.value.Watches(TableMonitor.ObservedTypes(tables))
          && tableMonitors == old(tableMonitors) + r.value.monitors
      ensures var types := PutOn(loadedContracts, name, tables);
        && |tableMonitors| == |old(tableMonitors)| + |types|
        && tableMonitors[..|old(tableMonitors)|] == old(tableMonitors)
        && forall i :: 0 <= i < |types| ==>
             var monitor := tableMonitors[|old(tableMonitors)| + i];
             && fresh(monitor) && monitor.typeId == types[i]
             && monitor.signals != null && fresh(monitor.signals)
             && (monitor.signals.alive <==> r.Success?)
    {
      var found := GetSpaceId(name);
      if found.None? {
        return Failure(OtherException);
      }
      var monitor := new TableMonitor.MultiTableMonitor(name, found.value);
      var thrown := monitor.Attach(tables);
      tableMonitors := tableMonitors + monitor.monitors;
      if thrown.Some? {
        return Failure(thrown.value);
      }
      assert tables[..|tables|] == tables;
      return Success(monitor);
    }
  }

  // ----- all histories

  datatype Event = Initialize(name: string, outcome: InitOutcome) | Restart

  function After(history: seq<Event>): Registry {
    if history == [] then Registry([], map[])
    else
      var before := After(history[..|history| - 1]);
      match history[|history| - 1]
      case Initialize(name, outcome) => Initialized(before, name, outcome)
      case Restart => Registry(before.records, map[])
  }

  /** The contracts whose initialiser has accepted since the last start. */
  function Running(history: seq<Event>): set<string> {
    if history == [] then {}
    else
      match history[|history| - 1]
      case Initialize(name, outcome) =>
        Running(history[..|history| - 1]) + if outcome == Accepted then {name} else {}
      case Restart => {}
  }

  lemma NumberInDistinct(records: seq<string>, i: nat)
    requires Distinct(records) && i < |records|
    ensures NumberOf(records, records[i]) == i
  {
  }

  /** A longer list of records gives a name the number the shorter one gave it. */
  lemma NumberInPrefix(records: seq<string>, more: seq<string>, name: string)
    requires records <= more && name in records
    ensures name in more && NumberOf(more, name) == NumberOf(records, name)
  {
    var i, j := NumberOf(records, name), NumberOf(more, name);
    assert more[i] == records[i] == name;
    assert forall k :: 0 <= k < j ==> more[k] == more[..j][k] != name;
    assert forall k :: 0 <= k < i ==> more[k] == records[..i][k] != name;
  }

  lemma IdInPrefix(records: seq<string>, more: seq<string>, name: string)
    requires records <= more && name in records
    ensures name in more && IdOf(more, name) == IdOf(records, name)
  {
    hide NumberOf, SpaceOfRecord;
    NumberInPrefix(records, more, name);
  }

  lemma {:induction false} RecordsOnlyGrow(history: seq<Event>, i: nat)
    requires i <= |history|
    ensures After(history[..i]).records <= After(history).records
  {
    if i < |history| {
      var before := history[..|history| - 1];
      assert before[..i] == history[..i];
      RecordsOnlyGrow(before, i);
    } else {
      assert history[..i] == history;
    }
  }

  /** The names that were ever initialised, in order. */
  function NamesInitialized(history: seq<Event>): seq<string> {
    if history == [] then []
    else
      var last := history[|history| - 1];
      NamesInitialized(history[..|history| - 1]) + if last.Initialize? then [last.name] else []
  }

  lemma RecordsAfterOne(r: Registry, name: string, outcome: InitOutcome)
    ensures Initialized(r, name, outcome).records == TypeList.AddUnique(r.records, [name])
  {
  }

  /**
   Over all histories, the records are the first occurrences of the names ever initialised, in order, however
   the initialisers ended: those at `positions`.
   */
  lemma {:induction false} RecordsAreFirsts(history: seq<Event>) returns (positions: seq<nat>)
    ensures TypeList.KeepsFirst(NamesInitialized(history), After(history).records, positions)
  {
    positions := [];
    if history != [] {
      var before, last := history[..|history| - 1], history[|history| - 1];
      positions := RecordsAreFirsts(before);
      if last.Initialize? {
        RecordsAfterOne(After(before), last.name, last.outcome);
        hide TypeList.KeepsFirst, TypeList.AddUnique;
        positions := TypeList.AddOneKeepsFirst(NamesInitialized(before), After(before).records, positions, last.name);
      } else {
        assert NamesInitialized(history) == NamesInitialized(before);
      }
    }
  }

  /** A name keeps its space for ever, whatever is initialised later and however often the node restarts. */
  lemma SpaceIsForever(history: seq<Event>, i: nat, name: string)
    requires i <= |history| && name in After(history[..i]).records
    ensures name in After(history).records
    ensures IdOf(After(history).records, name) == IdOf(After(history[..i]).records, name)
  {
    RecordsOnlyGrow(history, i);
    IdInPrefix(After(history[..i]).records, After(history).records, name);
  }

  /** The space with which an initialiser is called, be it the first time for its name or again. */
  function SpaceGiven(history: seq<Event>, i: nat): uint8
    requires i < |history| && history[i].Initialize?
  {
    IdOf(WithRecord(After(history[..i]).records, history[i].name), history[i].name)
  }

  lemma InitializedIsRecorded(history: seq<Event>, i: nat)
    requires i < |history| && history[i].Initialize?
    ensures var records := After(history[..i + 1]).records;
      history[i].name in records && IdOf(records, history[i].name) == SpaceGiven(history, i)
  {
    assert history[..i + 1][..i] == history[..i];
  }

  /**
   Once an initialiser was called, whatever came of it, its name is on record for ever with the space it was
   called with; so every later call for the name is made with that space too.
   */
  lemma SpaceGivenIsForever(history: seq<Event>, i: nat)
    requires i < |history| && history[i].Initialize?
    ensures history[i].name in After(history).records
    ensures IdOf(After(history).records, history[i].name) == SpaceGiven(history, i)
    ensures forall j :: i <= j < |history| && history[j].Initialize? && history[j].name == history[i].name ==>
      SpaceGiven(history, j) == SpaceGiven(history, i)
  {
    hide After, IdOf, WithRecord;
    InitializedIsRecorded(history, i);
    SpaceIsForever(history, i + 1, history[i].name);
    forall j | i <= j < |history| && history[j].Initialize? && history[j].name == history[i].name
      ensures SpaceGiven(history, j) == SpaceGiven(history, i)
    {
      InitializedIsRecorded(history, j);
      SpaceIsForever(history, j + 1, history[j].name);
    }
  }

  /** Each name is on record once, and each space holds a name that was given it. */
  ghost predicate Sound(r: Registry) {
    && Distinct(r.records)
    && forall id :: id in r.loaded ==> r.loaded[id] in r.records && IdOf(r.records, r.loaded[id]) == id
  }

  lemma InitializedIsSound(r: Registry, name: string, outcome: InitOutcome)
    requires Sound(r)
    ensures Sound(Initialized(r, name, outcome))
  {
    hide IdOf;
    var records := WithRecord(r.records, name);
    forall id | id in r.loaded
      ensures r.loaded[id] in records && IdOf(records, r.loaded[id]) == id
    {
      IdInPrefix(r.records, records, r.loaded[id]);
    }
  }

  /** Every running contract has its space taken, by itself or by another. */
  ghost predicate Housed(r: Registry, running: set<string>) {
    && (forall name :: name in running ==> name in r.records && IdOf(r.records, name) in r.loaded)
    && (forall id :: id in r.loaded ==> r.loaded[id] in running)
  }

  lemma {:induction false} AfterIsSound(history: seq<Event>)
    ensures Sound(After(history)) && Housed(After(history), Running(history))
  {
    if history != [] {
      var before := history[..|history| - 1];
      AfterIsSound(before);
      var r, event := After(before), history[|history| - 1];
      if event.Initialize? {
        InitializedIsSound(r, event.name, event.outcome);
        forall name | name in r.records
          ensures name in After(history).records && IdOf(After(history).records, name) == IdOf(r.records, name)
        {
          IdInPrefix(r.records, After(history).records, name);
        }
      }
    }
  }

  /** What a space holds it keeps until the node restarts. */
  lemma {:induction false} LoadedStays(history: seq<Event>, i: nat, id: uint8)
    requires i <= |history| && id in After(history[..i]).loaded
    requires forall k :: i <= k < |history| ==> !history[k].Restart?
    ensures id in After(history).loaded && After(history).loaded[id] == After(history[..i]).loaded[id]
  {
    if i < |history| {
      var before := history[..|history| - 1];
      assert before[..i] == history[..i];
      LoadedStays(before, i, id);
      hide IdOf, WithRecord;
    } else {
      assert history[..i] == history;
    }
  }

  /** No two of the given names share a space. */
  ghost predicate SpacesDiffer(records: seq<string>, names: set<string>) {
    forall a, b :: a in names && b in names && a in records && b in records && a != b
      ==> IdOf(records, a) != IdOf(records, b)
  }

  /** All recorded names have spaces of their own exactly while there are no more than 256 of them. */
  lemma SpacesDifferExactly(records: seq<string>)
    requires Distinct(records)
    ensures SpacesDiffer(records, set name | name in records) <==> |records| <= 256
  {
    if |records| > 256 {
      NumberInDistinct(records, 0);
      NumberInDistinct(records, 256);
      assert IdOf(records, records[0]) == IdOf(records, records[256]) && records[0] != records[256];
    }
  }

  /** All recorded names keep clear of the spaces below the first available one exactly up to 246 names. */
  lemma SpacesAvailableExactly(records: seq<string>)
    requires Distinct(records)
    ensures (forall name :: name in records ==> IdOf(records, name) >= FIRST_AVAILABLE_SPACE_ID)
       <==> |records| <= 246
  {
    if |records| > 246 {
      NumberInDistinct(records, 246);
      assert IdOf(records, records[246]) == 0;
    }
  }

  /** A lookup never finds a wrong space; what it may do is find none. */
  lemma LookupIsRight(r: Registry, name: string)
    requires Sound(r) && FirstSpace(r.loaded, name, 0).Some?
    ensures name in r.records && FirstSpace(r.loaded, name, 0) == Some(IdOf(r.records, name))
  {
  }

  /** Looking up a recorded name succeeds exactly if its space is held by that name. */
  lemma LookupFindsOwner(r: Registry, name: string)
    requires Sound(r) && name in r.records
    ensures FirstSpace(r.loaded, name, 0) == Some(IdOf(r.records, name))
       <==> (IdOf(r.records, name) in r.loaded && r.loaded[IdOf(r.records, name)] == name)
  {
  }

  /**
   After any history, every running contract is found under its space exactly if no two running contracts
   share one.
   */
  lemma LookupExactly(history: seq<Event>)
    ensures var r := After(history);
      (forall name :: name in Running(history) ==>
        name in r.records && FirstSpace(r.loaded, name, 0) == Some(IdOf(r.records, name)))
      <==> SpacesDiffer(r.records, Running(history))
  {
    AfterIsSound(history);
    var r := After(history);
    if SpacesDiffer(r.records, Running(history)) {
      forall name | name in Running(history)
        ensures FirstSpace(r.loaded, name, 0) == Some(IdOf(r.records, name))
      {
        assert r.loaded[IdOf(r.records, name)] in Running(history);
        LookupFindsOwner(r, name);
      }
    }
  }

  /** With at most 256 names on record, hence also with 246, every running contract is found. */
  lemma LookupUpTo256(history: seq<Event>, name: string)
    requires |After(history).records| <= 256 && name in Running(history)
    ensures var r := After(history);
      name in r.records && FirstSpace(r.loaded, name, 0) == Some(IdOf(r.records, name))
  {
    AfterIsSound(history);
    SpacesDifferExactly(After(history).records);
    LookupExactly(history);
  }

  /** The history in which the given contracts are initialised one after the other. */
  function AllAccepted(names: seq<string>): seq<Event> {
    seq(|names|, i requires 0 <= i < |names| => Initialize(names[i], Accepted))
  }

  lemma AllAcceptedSplits(names: seq<string>)
    requires names != []
    ensures var before, last := names[..|names| - 1], names[|names| - 1];
      && names == before + [last]
      && After(AllAccepted(names)) == Initialized(After(AllAccepted(before)), last, Accepted)
      && Running(AllAccepted(names)) == Running(AllAccepted(before)) + {last}
  {
    var before, last := names[..|names| - 1], names[|names| - 1];
    var history := AllAccepted(names);
    assert history[..|history| - 1] == AllAccepted(before) && history[|history| - 1] == Initialize(last, Accepted);
  }

  lemma NewRecord(r: Registry, name: string)
    requires name !in r.records
    ensures Initialized(r, name, Accepted).records == r.records + [name]
  {
  }

  lemma NothingAccepted()
    ensures After(AllAccepted([])) == Registry([], map[]) && Running(AllAccepted([])) == {}
  {
  }

  lemma {:induction false} AfterAllAccepted(names: seq<string>)
    requires Distinct(names)
    ensures After(AllAccepted(names)).records == names
    ensures Running(AllAccepted(names)) == set name | name in names
  {
    if names != [] {
      var before, last := names[..|names| - 1], names[|names| - 1];
      assert Distinct(before) && last !in before;
      hide *;
      AllAcceptedSplits(names);
      AfterAllAccepted(before);
      NewRecord(After(AllAccepted(before)), last);
      assert forall name :: name in names <==> name in before || name == last;
    } else {
      NothingAccepted();
    }
  }

  lemma FirstIsLoaded(r: Registry, name: string)
    requires r == Registry([], map[])
    ensures Initialized(r, name, Accepted).loaded == map[10 := name]
  {
  }

  lemma {:induction false} FirstComesFirst(names: seq<string>)
    requires Distinct(names) && |names| > 0
    ensures var loaded := After(AllAccepted(names)).loaded; 10 in loaded && loaded[10] == names[0]
  {
    hide AllAccepted, After, Running;
    var before := names[..|names| - 1];
    AllAcceptedSplits(names);
    AfterAllAccepted(before);
    if before != [] {
      FirstComesFirst(before);
    } else {
      NothingAccepted();
      FirstIsLoaded(After(AllAccepted(before)), names[0]);
    }
  }

  /** The 257th contract of a node is loaded like the others, and cannot be found. */
  lemma TooManyContracts(names: seq<string>)
    requires Distinct(names) && |names| > 256
    ensures names[256] in Running(AllAccepted(names))
    ensures FirstSpace(After(AllAccepted(names)).loaded, names[256], 0) == None
  {
    AfterAllAccepted(names);
    AfterIsSound(AllAccepted(names));
    FirstComesFirst(names);
    NumberInDistinct(names, 256);
    var r := After(AllAccepted(names));
    if FirstSpace(r.loaded, names[256], 0).Some? {
      LookupIsRight(r, names[256]);
    }
  }
}
