/** How plugins are found, loaded, initialised and given up, over start-up and any number of rescans. */
module PluginLifecycle {
  import opened Wrappers
  import opened Sequences
  import opened Exceptions
  import opened ContractRegistry
  import TableMonitor

  type Path = string

  /** What a plugin's own functions come to when it is initialised. */
  datatype Behaviour = MissingSymbol | Accepts | Refuses | Throws(e: Exception)

  /** A plugin, with the tables found in its contract's space once that has been initialised. */
  datatype Plugin = Plugin(contractName: string, behaviour: Behaviour, tables: seq<TableMonitor.Table>)

  /** A file in a plugin directory: its path, whether its extension is a library's, and the plugin it holds. */
  datatype Candidate = Candidate(path: Path, isLibrary: bool, plugin: Option<Plugin>)

  /** The node: its libraries, its monitors, the contract registry, and which paths it has initialised. */
  datatype Node = Node(libraries: map<Path, Plugin>, monitors: seq<Monitor>, registry: Registry, initialised: seq<Path>)

  datatype PluginResult = Initialised | Failed | Escaped

  function OutcomeOf(behaviour: Behaviour): InitOutcome {
    match behaviour
    case Accepts => Accepted
    case Throws(e) => Threw(e)
    case _ => Refused
  }

  /** Only boost's exceptions are caught where plugins are initialised. */
  function Caught(e: Exception): PluginResult {
    if e == BoostException then Failed else Escaped
  }

  /** The registry once a plugin has had its turn. */
  function RegisteredBy(r: Registry, plugin: Plugin): Registry {
    if plugin.behaviour == MissingSymbol then r
    else Initialized(r, plugin.contractName, OutcomeOf(plugin.behaviour))
  }

  /** Initialising one plugin, up to the monitor that is put on its contract. */
  function InitializeOne(n: Node, plugin: Plugin): (Node, PluginResult) {
    var m := n.(registry := RegisteredBy(n.registry, plugin));
    match plugin.behaviour
    case Accepts =>
      (match Observed(m.registry.loaded, plugin.contractName, plugin.tables)
       case Success(monitor) => (m.(monitors := n.monitors + [monitor]), Initialised)
       case Failure(e) => (m, Caught(e)))
    case Throws(e) => (m, Caught(e))
    case _ => (m, Failed)
  }

  /** Paths that were just loaded: in the libraries, and each listed once. */
  ghost predicate Fresh(libraries: map<Path, Plugin>, paths: seq<Path>) {
    Distinct(paths) && forall path :: path in paths ==> path in libraries
  }

  /** Initialising newly loaded plugins: a failed one is dropped, an escaping exception ends the pass. */
  function InitializeAll(n: Node, paths: seq<Path>): (r: (Node, bool))
    requires Fresh(n.libraries, paths)
    decreases |paths|
  {
    if paths == [] then
      (n, false)
    else
      var path := paths[0];
      var (m, result) := InitializeOne(n, n.libraries[path]);
      match result
      case Initialised => InitializeAll(m.(initialised := m.initialised + [path]), paths[1..])
      case Failed => InitializeAll(m.(libraries := m.libraries - {path}), paths[1..])
      case Escaped => (m, true)
  }

  /** A file is loaded if it is a library, not loaded already, and turns out to be a plugin. */
  predicate Loads(libraries: map<Path, Plugin>, file: Candidate) {
    file.isLibrary && file.path !in libraries && file.plugin.Some?
  }

  /** The libraries once a directory's files have been gone through. */
  function Loaded(libraries: map<Path, Plugin>, files: seq<Candidate>): map<Path, Plugin> {
    if files == [] then libraries
    else
      var file := files[|files| - 1];
      var before := Loaded(libraries, files[..|files| - 1]);
      if Loads(before, file) then before[file.path := file.plugin.value] else before
  }

  /** The paths newly loaded from a directory, in the order of its files. */
  function NewPaths(libraries: map<Path, Plugin>, files: seq<Candidate>): (paths: seq<Path>)
    ensures Distinct(paths)
    ensures forall path :: path in paths ==> path !in libraries && path in Loaded(libraries, files)
    ensures Loaded(libraries, files).Keys == libraries.Keys + set path | path in paths
    ensures forall path :: path in libraries ==> Loaded(libraries, files)[path] == libraries[path]
  {
    if files == [] then []
    else
      var file := files[|files| - 1];
      var before := files[..|files| - 1];
      NewPaths(libraries, before) + if Loads(Loaded(libraries, before), file) then [file.path] else []
  }

  lemma LoadsOneMore(libraries: map<Path, Plugin>, files: seq<Candidate>, i: nat)
    requires i < |files|
    ensures var before := Loaded(libraries, files[..i]);
      && Loaded(libraries, files[..i + 1])
         == (if Loads(before, files[i]) then before[files[i].path := files[i].plugin.value] else before)
      && NewPaths(libraries, files[..i + 1])
         == NewPaths(libraries, files[..i]) + if Loads(before, files[i]) then [files[i].path] else []
  {
    assert files[..i + 1][..i] == files[..i];
  }

  lemma NothingLoadedYet(libraries: map<Path, Plugin>, files: seq<Candidate>)
    ensures Loaded(libraries, files[..0]) == libraries && NewPaths(libraries, files[..0]) == []
  {
  }

  /** The search of a directory: the files it goes through, and whether it then throws. */
  datatype Search = NoDirectory | Directory(files: seq<Candidate>, throws: bool)

  function FilesOf(search: Search): seq<Candidate> {
    if search.NoDirectory? then [] else search.files
  }

  predicate Breaks(search: Search) {
    search.Directory? && search.throws
  }

  /** The searches of the two plugin directories at one start-up or signal. */
  datatype Scan = Scan(first: Search, second: Search)

  /** No file of the second directory is gone through if the search of the first one throws. */
  function SecondFiles(scan: Scan): seq<Candidate> {
    if Breaks(scan.first) then [] else FilesOf(scan.second)
  }

  predicate SearchThrows(scan: Scan) {
    Breaks(scan.first) || Breaks(scan.second)
  }

  /** The libraries once the directories have been searched. */
  function LoadedBy(libraries: map<Path, Plugin>, scan: Scan): map<Path, Plugin> {
    Loaded(Loaded(libraries, FilesOf(scan.first)), SecondFiles(scan))
  }

  /** The paths the searches pick up. */
  function PickedUp(libraries: map<Path, Plugin>, scan: Scan): (paths: seq<Path>)
    ensures Fresh(LoadedBy(libraries, scan), paths)
    ensures forall path :: path in paths ==> path !in libraries
    ensures LoadedBy(libraries, scan).Keys == libraries.Keys + set path | path in paths
    ensures forall path :: path in libraries ==> LoadedBy(libraries, scan)[path] == libraries[path]
  {
    var found := NewPaths(libraries, FilesOf(scan.first));
    var more := NewPaths(Loaded(libraries, FilesOf(scan.first)), SecondFiles(scan));
    DistinctTogether(found, more);
    found + more
  }

  // ----- what a search finds

  /** Whether a file holds a plugin that is to be had at a path. */
  predicate OffersAt(file: Candidate, path: Path) {
    file.path == path && file.isLibrary && file.plugin.Some?
  }

  ghost predicate Offers(files: seq<Candidate>, path: Path) {
    exists i :: 0 <= i < |files| && OffersAt(files[i], path)
  }

  /** File `i` is the first one to offer a plugin at the path. */
  ghost predicate FirstOffer(files: seq<Candidate>, i: nat, path: Path) {
    i < |files| && OffersAt(files[i], path) && forall k :: 0 <= k < i ==> !OffersAt(files[k], path)
  }

  /** A file holding a plugin is picked up exactly if its path is not among the libraries. */
  lemma {:induction false} EligibleExactly(libraries: map<Path, Plugin>, files: seq<Candidate>, path: Path)
    ensures path in NewPaths(libraries, files) <==> path !in libraries && Offers(files, path)
  {
    if files != [] {
      var before, last := files[..|files| - 1], files[|files| - 1];
      EligibleExactly(libraries, before, path);
      assert forall i :: 0 <= i < |before| ==> before[i] == files[i];
    }
  }

  /**
   The paths come in the order in which the files first offer them, at `positions`, and the plugins loaded
   are those of these files.
   */
  ghost predicate InFileOrder(files: seq<Candidate>, paths: seq<Path>, positions: seq<nat>, loaded: map<Path, Plugin>) {
    && |positions| == |paths|
    && (forall k :: 0 <= k < |paths| ==>
          && FirstOffer(files, positions[k], paths[k])
          && paths[k] in loaded && loaded[paths[k]] == files[positions[k]].plugin.value)
    && forall j, k :: 0 <= j < k < |paths| ==> positions[j] < positions[k]
  }

  lemma InLongerList(files: seq<Candidate>, paths: seq<Path>, positions: seq<nat>,
                     loaded: map<Path, Plugin>, more: map<Path, Plugin>)
    requires files != [] && InFileOrder(files[..|files| - 1], paths, positions, loaded)
    requires forall path :: path in paths ==> path in more && path in loaded && more[path] == loaded[path]
    ensures InFileOrder(files, paths, positions, more)
    ensures forall k :: 0 <= k < |positions| ==> positions[k] < |files| - 1
  {
    var before := files[..|files| - 1];
    assert forall i :: 0 <= i < |before| ==> before[i] == files[i];
    forall k | 0 <= k < |paths|
      ensures FirstOffer(files, positions[k], paths[k])
    {
      assert FirstOffer(before, positions[k], paths[k]);
    }
  }

  lemma LastIsFirstOffer(files: seq<Candidate>)
    requires files != []
    requires var last := files[|files| - 1];
      last.isLibrary && last.plugin.Some? && !Offers(files[..|files| - 1], last.path)
    ensures FirstOffer(files, |files| - 1, files[|files| - 1].path)
  {
    var before := files[..|files| - 1];
    assert forall i :: 0 <= i < |before| ==> before[i] == files[i] && !OffersAt(before[i], files[|files| - 1].path);
  }

  lemma OneMoreInOrder(files: seq<Candidate>, paths: seq<Path>, positions: seq<nat>, loaded: map<Path, Plugin>)
    requires files != [] && InFileOrder(files, paths, positions, loaded)
    requires forall k :: 0 <= k < |positions| ==> positions[k] < |files| - 1
    requires var last := files[|files| - 1];
      FirstOffer(files, |files| - 1, last.path) && last.path in loaded && loaded[last.path] == last.plugin.value
    ensures InFileOrder(files, paths + [files[|files| - 1].path], positions + [|files| - 1], loaded)
  {
    hide FirstOffer;
  }

  /** One file more keeps what was loaded, and offers for the first time what it adds. */
  lemma LastFileAdds(libraries: map<Path, Plugin>, files: seq<Candidate>)
    requires files != []
    ensures var before, last := files[..|files| - 1], files[|files| - 1];
      var paths, loaded, more := NewPaths(libraries, before), Loaded(libraries, before), Loaded(libraries, files);
      && (forall path :: path in paths ==> path in loaded && path in more && more[path] == loaded[path])
      && NewPaths(libraries, files) == paths + (if Loads(loaded, last) then [last.path] else [])
      && (Loads(loaded, last) ==>
            && last.path in more && last.plugin.Some? && more[last.path] == last.plugin.value
            && FirstOffer(files, |files| - 1, last.path))
  {
    var last := |files| - 1;
    LoadsOneMore(libraries, files, last);
    assert files[..last + 1] == files;
    EligibleExactly(libraries, files[..last], files[last].path);
    hide Loaded, NewPaths, Offers, FirstOffer;
    if Loads(Loaded(libraries, files[..last]), files[last]) {
      LastIsFirstOffer(files);
    }
  }

  /** The new paths come in the order in which the files first offer them, with the plugins of those files. */
  lemma {:induction false} NewPathsInOrder(libraries: map<Path, Plugin>, files: seq<Candidate>)
    returns (positions: seq<nat>)
    ensures InFileOrder(files, NewPaths(libraries, files), positions, Loaded(libraries, files))
  {
    positions := [];
    if files != [] {
      var before, last := files[..|files| - 1], files[|files| - 1];
      positions := NewPathsInOrder(libraries, before);
      LastFileAdds(libraries, files);
      hide Loaded, NewPaths, InFileOrder, FirstOffer, Loads;
      var paths := NewPaths(libraries, before);
      InLongerList(files, paths, positions, Loaded(libraries, before), Loaded(libraries, files));
      if Loads(Loaded(libraries, before), last) {
        OneMoreInOrder(files, paths, positions, Loaded(libraries, files));
        positions := positions + [|files| - 1];
      }
    }
  }

  ghost predicate OfferedBy(search: Search, path: Path) {
    match search
    case NoDirectory => false
    case Directory(files, _) => Offers(files, path)
  }

  lemma NothingOffered(path: Path)
    ensures !Offers([], path)
  {
  }

  /**
   What both searches pick up: what is not loaded and the first directory offers, or the second one unless
   the search of the first throws.
   */
  lemma PickedUpExactly(libraries: map<Path, Plugin>, scan: Scan, path: Path)
    ensures path in PickedUp(libraries, scan) <==>
      && path !in libraries
      && (OfferedBy(scan.first, path)
          || (!(scan.first.Directory? && scan.first.throws) && OfferedBy(scan.second, path)))
  {
    EligibleExactly(libraries, FilesOf(scan.first), path);
    EligibleExactly(Loaded(libraries, FilesOf(scan.first)), SecondFiles(scan), path);
    hide NewPaths, Loaded, Offers;
    NothingOffered(path);
  }

  lemma SameLoaded(files: seq<Candidate>, paths: seq<Path>, positions: seq<nat>,
                   loaded: map<Path, Plugin>, more: map<Path, Plugin>)
    requires InFileOrder(files, paths, positions, loaded)
    requires forall path :: path in paths ==> path in more && path in loaded && more[path] == loaded[path]
    ensures InFileOrder(files, paths, positions, more)
  {
  }

  lemma EmptyDirectory(paths: seq<Path>, positions: seq<nat>, loaded: map<Path, Plugin>)
    requires InFileOrder([], paths, positions, loaded)
    ensures paths == []
  {
    assert |paths| > 0 ==> FirstOffer([], positions[0], paths[0]);
  }

  /**
   The paths of the first directory come before those that only the second one offers, each directory's in
   the order of its files.
   */
  lemma PickedUpInOrder(libraries: map<Path, Plugin>, scan: Scan) returns (split: nat, here: seq<nat>, there: seq<nat>)
    ensures var paths, loaded := PickedUp(libraries, scan), LoadedBy(libraries, scan);
      && split <= |paths|
      && (split > 0 ==> scan.first.Directory? && InFileOrder(scan.first.files, paths[..split], here, loaded))
      && (split < |paths| ==> scan.second.Directory? && InFileOrder(scan.second.files, paths[split..], there, loaded))
      && forall k :: split <= k < |paths| ==> !OfferedBy(scan.first, paths[k])
  {
    var between, loaded := Loaded(libraries, FilesOf(scan.first)), LoadedBy(libraries, scan);
    var found, more := NewPaths(libraries, FilesOf(scan.first)), NewPaths(between, SecondFiles(scan));
    here := NewPathsInOrder(libraries, FilesOf(scan.first));
    there := NewPathsInOrder(between, SecondFiles(scan));
    split := |found|;
    assert PickedUp(libraries, scan) == found + more;
    assert (found + more)[..split] == found && (found + more)[split..] == more;
    forall path | path in more
      ensures !OfferedBy(scan.first, path)
    {
      EligibleExactly(libraries, FilesOf(scan.first), path);
    }
    hide NewPaths, Loaded, Offers, OfferedBy, InFileOrder, PickedUp;
    SameLoaded(FilesOf(scan.first), found, here, between, loaded);
    if FilesOf(scan.first) == [] {
      EmptyDirectory(found, here, between);
    }
    if SecondFiles(scan) == [] {
      EmptyDirectory(more, there, loaded);
    }
  }

  // ----- the node

  /** One pass: both plugin directories are searched, and what was found is initialised unless a search throws. */
  function Scanned(n: Node, scan: Scan): (r: (Node, bool)) {
    var l := n.(libraries := LoadedBy(n.libraries, scan));
    if SearchThrows(scan) then (l, true) else InitializeAll(l, PickedUp(n.libraries, scan))
  }

  function MonitorsOf(monitors: seq<TableMonitor.MultiTableMonitor>): seq<Monitor> {
    seq(|monitors|, i requires 0 <= i < |monitors| => MonitorOf(monitors[i]))
  }

  class ContractNode {
    const chainHandler: ChainHandler
    var loadedLibraries: map<Path, Plugin>
    var contractMonitors: seq<TableMonitor.MultiTableMonitor>
    /** Every path whose plugin was initialised, in order. */
    ghost var initialised: seq<Path>

    constructor (chainHandler: ChainHandler)
      ensures this.chainHandler == chainHandler
      ensures View() == Node(map[], [], chainHandler.View(), [])
    {
      this.chainHandler := chainHandler;
      loadedLibraries, contractMonitors, initialised := map[], [], [];
    }

    ghost function View(): Node
      reads this, chainHandler
    {
      Node(loadedLibraries, MonitorsOf(contractMonitors), chainHandler.View(), initialised)
    }

    /**
     Loads one library.  One without the registration function, or that fails to load, is let go; what is
     there under its path already stays.
     */
    method LoadPlugin(file: Candidate) returns (loaded: bool)
      modifies this`loadedLibraries
      ensures loaded <==> file.plugin.Some?
      ensures loadedLibraries
           == if loaded && file.path !in old(loadedLibraries) then
                old(loadedLibraries)[file.path := file.plugin.value]
              else
                old(loadedLibraries)
    {
      if file.plugin.Some? {
        if file.path !in loadedLibraries {
          loadedLibraries := loadedLibraries[file.path := file.plugin.value];
        }
        return true;
      }
      return false;
    }

    /** Goes through a directory; the libraries loaded so far stay if that throws. */
    method LoadPlugins(directory: Search) returns (loadedPlugins: seq<Path>, threw: bool)
      modifies this`loadedLibraries
      ensures threw <==> directory.Directory? && directory.throws
      ensures loadedLibraries == Loaded(old(loadedLibraries), FilesOf(directory))
      ensures loadedPlugins == NewPaths(old(loadedLibraries), FilesOf(directory))
    {
      loadedPlugins := [];
      if directory.NoDirectory? {
        return [], false;
      }
      var files := directory.files;
      hide Loaded, NewPaths;
      NothingLoadedYet(loadedLibraries, files);
      for i := 0 to |files|
        invariant loadedLibraries == Loaded(old(loadedLibraries), files[..i])
        invariant loadedPlugins == NewPaths(old(loadedLibraries), files[..i])
      {
        LoadsOneMore(old(loadedLibraries), files, i);
        if files[i].isLibrary && files[i].path !in loadedLibraries {
          var loaded := LoadPlugin(files[i]);
          if loaded {
            loadedPlugins := loadedPlugins + [files[i].path];
          }
        }
      }
      assert files[..|files|] == files;
      threw := directory.throws;
    }

    method SearchForPlugins(scan: Scan) returns (loadedPlugins: seq<Path>, threw: bool)
      modifies this`loadedLibraries
      ensures threw <==>
        (scan.first.Directory? && scan.first.throws) || (scan.second.Directory? && scan.second.throws)
      ensures loadedLibraries == LoadedBy(old(loadedLibraries), scan)
      ensures !threw ==> loadedPlugins == PickedUp(old(loadedLibraries), scan)
    {
      loadedPlugins, threw := LoadPlugins(scan.first);
      if threw {
        return;
      }
      var more;
      more, threw := LoadPlugins(scan.second);
      loadedPlugins := loadedPlugins + more;
    }

    method InitializePlugin(plugin: Plugin) returns (result: PluginResult)
      modifies this`contractMonitors, chainHandler
      ensures (View(), result) == InitializeOne(old(View()), plugin)
      ensures match plugin.behaviour
        case Accepts => true
        case Throws(OtherException) => result == Escaped
        case _ => result == Failed
      ensures result == Initialised ==>
        && |contractMonitors| == |old(contractMonitors)| + 1
        && contractMonitors[..|old(contractMonitors)|] == old(contractMonitors)
        && contractMonitors[|old(contractMonitors)|].Watches(TableMonitor.ObservedTypes(plugin.tables))
    {
      hide Initialized, Observed, PutOn, FirstSpace, IdOf, NumberOf;
      if plugin.behaviour == MissingSymbol {
        return Failed;
      }
      var accepted, _ := chainHandler.InitializeContract(plugin.contractName, OutcomeOf(plugin.behaviour));
      if accepted.Failure? {
        return Caught(accepted.error);
      }
      if accepted.value {
        var monitor := chainHandler.ObserveContract(plugin.contractName, plugin.tables);
        if monitor.Failure? {
          return Caught(monitor.error);
        }
        contractMonitors := contractMonitors + [monitor.value];
        assert MonitorsOf(contractMonitors) == MonitorsOf(old(contractMonitors)) + [MonitorOf(monitor.value)];
        return Initialised;
      }
      return Failed;
    }

    method InitializePlugins(pluginPaths: seq<Path>) returns (escaped: bool)
      requires Fresh(loadedLibraries, pluginPaths)
      modifies this, chainHandler
      ensures (View(), escaped) == InitializeAll(old(View()), pluginPaths)
    {
      for i := 0 to |pluginPaths|
        invariant Fresh(loadedLibraries, pluginPaths[i..])
        invariant InitializeAll(View(), pluginPaths[i..]) == InitializeAll(old(View()), pluginPaths)
      {
        var path := pluginPaths[i];
        assert pluginPaths[i..][0] == path && pluginPaths[i..][1..] == pluginPaths[i + 1..];
        var result := InitializePlugin(loadedLibraries[path]);
        match result {
          case Initialised => initialised := initialised + [path];
          case Failed => loadedLibraries := loadedLibraries - {path};
          case Escaped => return true;
        }
      }
      return false;
    }

    /** A pass over the plugin directories: what start-up does, and SIGUSR1 again. */
    method ScanForPlugins(scan: Scan) returns (escaped: bool)
      modifies this, chainHandler
      ensures (View(), escaped) == Scanned(old(View()), scan)
    {
      var loadedPlugins, threw := SearchForPlugins(scan);
      if threw {
        return true;
      }
      escaped := InitializePlugins(loadedPlugins);
    }
  }

  // ----- what passes keep

  /** A monitor watches the space its contract was given, and that space holds the contract. */
  predicate WellAimed(r: Registry, m: Monitor) {
    && m.contractName in r.records && m.spaceId == IdOf(r.records, m.contractName)
    && m.spaceId in r.loaded && r.loaded[m.spaceId] == m.contractName
  }

  /** What holds at all times: nothing is initialised twice, and each initialisation left one live monitor. */
  ghost predicate Consistent(n: Node) {
    && Sound(n.registry)
    && Distinct(n.initialised)
    && (forall path :: path in n.initialised ==> path in n.libraries)
    && |n.monitors| == |n.initialised|
    && forall i :: 0 <= i < |n.monitors| ==> WellAimed(n.registry, n.monitors[i])
  }

  /** What should hold between passes: the libraries are exactly the initialised ones. */
  ghost predicate Settled(n: Node) {
    Consistent(n) && forall path :: path in n.libraries ==> path in n.initialised
  }

  /** Once settled there is one monitor per library. */
  lemma SettledCounts(n: Node)
    requires Settled(n)
    ensures |n.monitors| == |n.libraries|
  {
    DistinctCardinality(n.initialised);
    assert n.libraries.Keys == set path | path in n.initialised;
  }

  lemma RegisteredIsSound(r: Registry, plugin: Plugin)
    requires Sound(r)
    ensures Sound(RegisteredBy(r, plugin))
    ensures r.records <= RegisteredBy(r, plugin).records
  {
    InitializedIsSound(r, plugin.contractName, OutcomeOf(plugin.behaviour));
  }

  lemma RegisteredKeepsAim(r: Registry, plugin: Plugin, monitor: Monitor)
    requires WellAimed(r, monitor)
    ensures WellAimed(RegisteredBy(r, plugin), monitor)
  {
    if plugin.behaviour != MissingSymbol {
      NumberInPrefix(r.records, RegisteredBy(r, plugin).records, monitor.contractName);
    }
  }

  lemma ObservedIsAimed(r: Registry, name: string, tables: seq<TableMonitor.Table>)
    requires Sound(r) && Observed(r.loaded, name, tables).Success?
    ensures WellAimed(r, Observed(r.loaded, name, tables).value)
  {
    LookupIsRight(r, name);
  }

  /** Monitors stay well aimed, and an initialised plugin adds one more. */
  lemma InitializeOneKeeps(n: Node, plugin: Plugin)
    requires Sound(n.registry)
    ensures var (m, result) := InitializeOne(n, plugin);
      && m.libraries == n.libraries && m.initialised == n.initialised
      && m.registry == RegisteredBy(n.registry, plugin) && Sound(m.registry)
      && (forall monitor :: WellAimed(n.registry, monitor) ==> WellAimed(m.registry, monitor))
      && if result == Initialised then
           |m.monitors| == |n.monitors| + 1 && m.monitors[..|n.monitors|] == n.monitors
             && WellAimed(m.registry, m.monitors[|n.monitors|])
             && m.monitors[|n.monitors|].contractName == plugin.contractName
         else
           m.monitors == n.monitors
  {
    hide RegisteredBy, Sound, WellAimed, Observed;
    var r := RegisteredBy(n.registry, plugin);
    RegisteredIsSound(n.registry, plugin);
    forall monitor | WellAimed(n.registry, monitor)
      ensures WellAimed(r, monitor)
    {
      RegisteredKeepsAim(n.registry, plugin, monitor);
    }
    if Observed(r.loaded, plugin.contractName, plugin.tables).Success? {
      ObservedIsAimed(r, plugin.contractName, plugin.tables);
    }
  }

  /** In the middle of a pass: the paths still to be gone through are loaded and not initialised. */
  ghost predicate Underway(n: Node, paths: seq<Path>) {
    Consistent(n) && Fresh(n.libraries, paths) && forall path :: path in paths ==> path !in n.initialised
  }

  /** A library that was loaded and never initialised, nor given up. */
  ghost predicate Orphan(n: Node, path: Path) {
    path in n.libraries && path !in n.initialised
  }

  lemma ConsistentAfterOne(n: Node, paths: seq<Path>)
    requires Underway(n, paths) && paths != []
    ensures var (m, result) := InitializeOne(n, n.libraries[paths[0]]);
      && (result == Initialised ==> Underway(m.(initialised := m.initialised + [paths[0]]), paths[1..]))
      && (result == Failed ==> Underway(m.(libraries := m.libraries - {paths[0]}), paths[1..]))
      && (result == Escaped ==> Consistent(m) && Orphan(m, paths[0]))
  {
    hide InitializeOne, Sound, WellAimed;
    InitializeOneKeeps(n, n.libraries[paths[0]]);
    DistinctTogether(n.initialised, [paths[0]]);
  }

  /**
   Going through the new paths keeps the node consistent and keeps older orphans.  It leaves a new orphan
   behind exactly if an exception escapes.
   */
  lemma {:induction false} InitializeAllKeeps(n: Node, paths: seq<Path>)
    requires Underway(n, paths)
    ensures var (m, escaped) := InitializeAll(n, paths);
      && Consistent(m) && n.initialised <= m.initialised
      && (forall path :: Orphan(n, path) && path !in paths ==> Orphan(m, path))
      && (escaped <==> exists path :: path in paths && Orphan(m, path))
      && (forall path :: Orphan(m, path) ==> Orphan(n, path))
    decreases |paths|
  {
    if paths != [] {
      var path := paths[0];
      var (m, result) := InitializeOne(n, n.libraries[path]);
      ConsistentAfterOne(n, paths);
      InitializeOneKeeps(n, n.libraries[path]);
      hide InitializeOne, Consistent;
      match result
      case Initialised =>
        InitializeAllKeeps(m.(initialised := m.initialised + [path]), paths[1..]);
      case Failed =>
        InitializeAllKeeps(m.(libraries := m.libraries - {path}), paths[1..]);
      case Escaped =>
        assert path in paths && Orphan(m, path);
    }
  }

  /** What the searches pick up is loaded and not initialised. */
  lemma PickedUpIsUnderway(n: Node, scan: Scan)
    requires Consistent(n)
    ensures var l := n.(libraries := LoadedBy(n.libraries, scan)); var paths := PickedUp(n.libraries, scan);
      && Underway(l, paths)
      && (forall path :: Orphan(l, path) <==> Orphan(n, path) || path in paths)
      && (forall path :: path in paths ==> !Orphan(n, path))
  {
    hide LoadedBy, PickedUp, Sound, WellAimed;
    var paths := PickedUp(n.libraries, scan);
    assert forall path :: path in n.initialised ==> path !in paths;
  }

  /** One pass: orphans stay, and new ones come exactly from an exception that escapes once something was found. */
  lemma ScanKeeps(n: Node, scan: Scan)
    requires Consistent(n)
    ensures var (m, escaped) := Scanned(n, scan);
      && Consistent(m) && n.initialised <= m.initialised
      && (forall path :: Orphan(n, path) ==> Orphan(m, path))
      && (escaped && PickedUp(n.libraries, scan) != [] <==> exists path :: Orphan(m, path) && !Orphan(n, path))
  {
    hide LoadedBy, PickedUp, Consistent, Orphan, InitializeAll, SearchThrows;
    var paths := PickedUp(n.libraries, scan);
    var l := n.(libraries := LoadedBy(n.libraries, scan));
    PickedUpIsUnderway(n, scan);
    if SearchThrows(scan) {
      assert paths != [] ==> paths[0] in paths;
    } else {
      InitializeAllKeeps(l, paths);
    }
  }

  // ----- which exceptions escape

  /** An exception of the plugin's own, or of one of its contract's tables, that is not boost's. */
  predicate ThrowsUncaught(plugin: Plugin) {
    || plugin.behaviour == Throws(OtherException)
    || (plugin.behaviour == Accepts && TableMonitor.ThrownBy(plugin.tables) == Some(OtherException))
  }

  /** Whether the space that a name has, or would be given, holds another contract. */
  predicate Occupied(r: Registry, name: string) {
    var id := IdOf(WithRecord(r.records, name), name);
    id in r.loaded && r.loaded[id] != name
  }

  /** Whether an exception escapes when the plugin has its turn, told from what is there before. */
  predicate Escapes(r: Registry, plugin: Plugin) {
    ThrowsUncaught(plugin) || (plugin.behaviour == Accepts && Occupied(r, plugin.contractName))
  }

  predicate Initialises(r: Registry, plugin: Plugin) {
    && plugin.behaviour == Accepts
    && TableMonitor.ThrownBy(plugin.tables) == None && !Occupied(r, plugin.contractName)
  }

  /** An accepted contract is found exactly if its space was not occupied. */
  lemma AcceptedIsFound(r: Registry, name: string)
    requires Sound(r)
    ensures FirstSpace(Initialized(r, name, Accepted).loaded, name, 0).Some? <==> !Occupied(r, name)
  {
    var after := Initialized(r, name, Accepted);
    InitializedIsSound(r, name, Accepted);
    LookupFindsOwner(after, name);
    if FirstSpace(after.loaded, name, 0).Some? {
      LookupIsRight(after, name);
    }
    hide Sound, FirstSpace;
  }

  /** What a plugin's turn does to the registry: nothing without its symbols, else a record, and more if it accepts. */
  lemma RegisteredExactly(r: Registry, plugin: Plugin)
    ensures var after := RegisteredBy(r, plugin);
      if plugin.behaviour == MissingSymbol then
        after == r
      else
        && plugin.contractName in after.records
        && after.records == r.records + (if plugin.contractName in r.records then [] else [plugin.contractName])
        && var id := IdOf(after.records, plugin.contractName);
           after.loaded ==
             if plugin.behaviour == Accepts && id !in r.loaded then r.loaded[id := plugin.contractName] else r.loaded
  {
  }

  /** Beside uncaught exceptions of the plugin or its tables, only an occupied space makes one escape. */
  lemma EscapeExactly(n: Node, plugin: Plugin)
    requires Sound(n.registry)
    ensures InitializeOne(n, plugin).1 == Escaped <==> Escapes(n.registry, plugin)
    ensures InitializeOne(n, plugin).1 == Initialised <==> Initialises(n.registry, plugin)
  {
    hide Occupied, FirstSpace, Initialized, Sound;
    AcceptedIsFound(n.registry, plugin.contractName);
  }

  /** With at most 256 names on record, this plugin's among them, no space is occupied. */
  lemma NotOccupiedUpTo256(r: Registry, name: string)
    requires Sound(r) && |WithRecord(r.records, name)| <= 256
    ensures !Occupied(r, name)
  {
    var records := WithRecord(r.records, name);
    InitializedIsSound(r, name, Refused);
    SpacesDifferExactly(records);
    var id := IdOf(records, name);
    if id in r.loaded {
      NumberInPrefix(r.records, records, r.loaded[id]);
      assert r.loaded[id] in records && name in records;
    }
  }

  lemma NoEscapeUpTo256(n: Node, plugin: Plugin)
    requires Sound(n.registry) && |WithRecord(n.registry.records, plugin.contractName)| <= 256
    ensures InitializeOne(n, plugin).1 == Escaped <==> ThrowsUncaught(plugin)
  {
    EscapeExactly(n, plugin);
    NotOccupiedUpTo256(n.registry, plugin.contractName);
  }

  /**
   If what escapes from putting monitors on the tables is boost's, the library is given up although its
   contract stays loaded.
   */
  lemma DroppedWhileLoaded(n: Node, plugin: Plugin)
    requires Sound(n.registry) && plugin.behaviour == Accepts
    ensures var (m, result) := InitializeOne(n, plugin);
      && FirstSpace(m.registry.loaded, plugin.contractName, 0).Some? == !Occupied(n.registry, plugin.contractName)
      && (result == Failed <==>
            && !Occupied(n.registry, plugin.contractName)
            && TableMonitor.ThrownBy(plugin.tables) == Some(BoostException))
  {
    hide Occupied, FirstSpace, Initialized, Sound;
    AcceptedIsFound(n.registry, plugin.contractName);
  }

  // ----- passes foreseen

  function PluginsAt(libraries: map<Path, Plugin>, paths: seq<Path>): seq<Plugin>
    requires forall path :: path in paths ==> path in libraries
  {
    seq(|paths|, i requires 0 <= i < |paths| => libraries[paths[i]])
  }

  /** The registry once the plugins have had their turns, one after the other. */
  function RegisteredByAll(r: Registry, plugins: seq<Plugin>): Registry
    decreases |plugins|
  {
    if plugins == [] then r else RegisteredByAll(RegisteredBy(r, plugins[0]), plugins[1..])
  }

  /** Some plugin throws uncaught, or finds its space occupied when it has its turn. */
  ghost predicate SomeEscapes(r: Registry, plugins: seq<Plugin>) {
    exists i :: 0 <= i < |plugins| && Escapes(RegisteredByAll(r, plugins[..i]), plugins[i])
  }

  lemma SomeEscapesSplits(r: Registry, plugins: seq<Plugin>)
    requires plugins != []
    ensures SomeEscapes(r, plugins) <==>
      Escapes(r, plugins[0]) || SomeEscapes(RegisteredBy(r, plugins[0]), plugins[1..])
  {
    hide Escapes, RegisteredBy;
    var rest := plugins[1..];
    forall i | 0 < i <= |plugins|
      ensures RegisteredByAll(r, plugins[..i]) == RegisteredByAll(RegisteredBy(r, plugins[0]), rest[..i - 1])
    {
      assert plugins[..i][1..] == rest[..i - 1];
    }
    assert RegisteredByAll(r, plugins[..0]) == r;
    if SomeEscapes(RegisteredBy(r, plugins[0]), rest) {
      var i :| 0 <= i < |rest| && Escapes(RegisteredByAll(RegisteredBy(r, plugins[0]), rest[..i]), rest[i]);
      assert Escapes(RegisteredByAll(r, plugins[..i + 1]), plugins[i + 1]);
    }
    if Escapes(r, plugins[0]) {
      assert Escapes(RegisteredByAll(r, plugins[..0]), plugins[0]);
    }
  }

  /** The libraries that a pass keeps if no exception escapes. */
  function Kept(r: Registry, libraries: map<Path, Plugin>, paths: seq<Path>): map<Path, Plugin>
    requires Fresh(libraries, paths)
    decreases |paths|
  {
    if paths == [] then libraries
    else
      var path, plugin := paths[0], libraries[paths[0]];
      Kept(RegisteredBy(r, plugin), if Initialises(r, plugin) then libraries else libraries - {path}, paths[1..])
  }

  /** Dropping the first path leaves the others' plugins. */
  lemma PluginsAtRest(libraries: map<Path, Plugin>, paths: seq<Path>)
    requires Fresh(libraries, paths) && paths != []
    ensures Fresh(libraries, paths[1..]) && Fresh(libraries - {paths[0]}, paths[1..])
    ensures PluginsAt(libraries, paths[1..]) == PluginsAt(libraries, paths)[1..]
    ensures PluginsAt(libraries - {paths[0]}, paths[1..]) == PluginsAt(libraries, paths)[1..]
  {
  }

  /** Of the paths it goes through, a pass keeps those whose plugins initialise at their turn; it leaves the others. */
  lemma {:induction false} KeptExactly(r: Registry, libraries: map<Path, Plugin>, paths: seq<Path>, path: Path)
    requires Fresh(libraries, paths)
    ensures path !in paths ==> (path in Kept(r, libraries, paths) <==> path in libraries)
    ensures path in Kept(r, libraries, paths) ==>
      path in libraries && Kept(r, libraries, paths)[path] == libraries[path]
    ensures forall i :: 0 <= i < |paths| && paths[i] == path ==>
      (path in Kept(r, libraries, paths) <==>
        Initialises(RegisteredByAll(r, PluginsAt(libraries, paths)[..i]), libraries[path]))
    decreases |paths|
  {
    if paths != [] {
      var plugin, rest := libraries[paths[0]], paths[1..];
      var plugins := PluginsAt(libraries, paths);
      var left := if Initialises(r, plugin) then libraries else libraries - {paths[0]};
      PluginsAtRest(libraries, paths);
      KeptExactly(RegisteredBy(r, plugin), left, rest, path);
      forall i | 0 < i < |paths|
        ensures RegisteredByAll(r, plugins[..i]) == RegisteredByAll(RegisteredBy(r, plugin), plugins[1..][..i - 1])
      {
        assert plugins[..i][1..] == plugins[1..][..i - 1];
      }
      assert RegisteredByAll(r, plugins[..0]) == r;
      assert forall i :: 0 < i < |paths| ==> paths[i] == rest[i - 1];
      hide Initialises, RegisteredBy;
    }
  }

  /**
   An exception escapes from a pass exactly if one of its plugins throws uncaught or finds its space
   occupied.  If none does, the pass does just what is foreseen.
   */
  lemma {:induction false} PassEscapesExactly(n: Node, paths: seq<Path>)
    requires Sound(n.registry) && Fresh(n.libraries, paths)
    ensures var plugins := PluginsAt(n.libraries, paths);
      var (m, escaped) := InitializeAll(n, paths);
      && (escaped <==> SomeEscapes(n.registry, plugins))
      && (!escaped ==>
            && m.registry == RegisteredByAll(n.registry, plugins)
            && m.libraries == Kept(n.registry, n.libraries, paths))
    decreases |paths|
  {
    if paths != [] {
      var path, plugin := paths[0], n.libraries[paths[0]];
      var (m, result) := InitializeOne(n, plugin);
      PluginsAtRest(n.libraries, paths);
      SomeEscapesSplits(n.registry, PluginsAt(n.libraries, paths));
      InitializeOneKeeps(n, plugin);
      EscapeExactly(n, plugin);
      hide InitializeOne, SomeEscapes, Escapes, Initialises, RegisteredBy, Sound;
      match result
      case Initialised =>
        PassEscapesExactly(m.(initialised := m.initialised + [path]), paths[1..]);
      case Failed =>
        PassEscapesExactly(m.(libraries := m.libraries - {path}), paths[1..]);
      case Escaped =>
    }
  }

  lemma {:induction false} RegisteredByAllIsSound(r: Registry, plugins: seq<Plugin>)
    requires Sound(r)
    ensures Sound(RegisteredByAll(r, plugins)) && r.records <= RegisteredByAll(r, plugins).records
    decreases |plugins|
  {
    if plugins != [] {
      RegisteredIsSound(r, plugins[0]);
      RegisteredByAllIsSound(RegisteredBy(r, plugins[0]), plugins[1..]);
      hide Sound, RegisteredBy;
    }
  }

  lemma {:induction false} RegisteredByAllSplits(r: Registry, plugins: seq<Plugin>, i: nat)
    requires i <= |plugins|
    ensures RegisteredByAll(r, plugins) == RegisteredByAll(RegisteredByAll(r, plugins[..i]), plugins[i..])
    decreases |plugins|
  {
    if i > 0 {
      assert plugins[..i][1..] == plugins[1..][..i - 1] && plugins[1..][i - 1..] == plugins[i..];
      RegisteredByAllSplits(RegisteredBy(r, plugins[0]), plugins[1..], i - 1);
    } else {
      assert plugins[0..] == plugins;
    }
  }

  lemma SomeEscapesUpTo256(r: Registry, plugins: seq<Plugin>)
    requires Sound(r) && |RegisteredByAll(r, plugins).records| <= 256
    ensures SomeEscapes(r, plugins) <==> exists i :: 0 <= i < |plugins| && ThrowsUncaught(plugins[i])
  {
    forall i | 0 <= i < |plugins|
      ensures Escapes(RegisteredByAll(r, plugins[..i]), plugins[i]) <==> ThrowsUncaught(plugins[i])
    {
      var before := RegisteredByAll(r, plugins[..i]);
      RegisteredByAllIsSound(r, plugins[..i]);
      RegisteredByAllSplits(r, plugins, i);
      RegisteredIsSound(before, plugins[i]);
      RegisteredByAllIsSound(RegisteredBy(before, plugins[i]), plugins[i + 1..]);
      assert plugins[i..][1..] == plugins[i + 1..];
      if plugins[i].behaviour == Accepts {
        NotOccupiedUpTo256(before, plugins[i].contractName);
      }
    }
    hide Escapes, ThrowsUncaught, RegisteredByAll;
  }

  /** A pass comes to `m` that ends at path `i`, where the first exception escapes. */
  ghost predicate StopsAt(r: Registry, libraries: map<Path, Plugin>, paths: seq<Path>, initialised: seq<Path>,
                          m: Node, i: nat)
    requires Fresh(libraries, paths)
  {
    var plugins := PluginsAt(libraries, paths);
    && i < |paths| && Fresh(libraries, paths[..i])
    && Escapes(RegisteredByAll(r, plugins[..i]), plugins[i])
    && (forall k :: 0 <= k < i ==> !Escapes(RegisteredByAll(r, plugins[..k]), plugins[k]))
    && m.registry == RegisteredByAll(r, plugins[..i + 1])
    && m.libraries == Kept(r, libraries, paths[..i])
    && forall path :: path in m.initialised ==> path in initialised || path in paths[..i]
  }

  lemma TurnsOfRest(r: Registry, plugins: seq<Plugin>, k: nat)
    requires k < |plugins|
    ensures RegisteredByAll(r, plugins[..k + 1]) == RegisteredByAll(RegisteredBy(r, plugins[0]), plugins[1..][..k])
  {
    assert plugins[..k + 1][1..] == plugins[1..][..k];
  }

  lemma KeptOfRest(r: Registry, libraries: map<Path, Plugin>, paths: seq<Path>, k: nat)
    requires Fresh(libraries, paths) && k < |paths|
    ensures var plugin := libraries[paths[0]];
      var left := if Initialises(r, plugin) then libraries else libraries - {paths[0]};
      && Fresh(libraries, paths[..k + 1]) && Fresh(left, paths[1..][..k])
      && Kept(r, libraries, paths[..k + 1]) == Kept(RegisteredBy(r, plugin), left, paths[1..][..k])
  {
    hide Initialises, RegisteredBy;
    assert paths[..k + 1][1..] == paths[1..][..k];
  }

  lemma NoTurns(r: Registry, plugins: seq<Plugin>)
    ensures RegisteredByAll(r, plugins[..0]) == r
  {
  }

  lemma PathsOfRest(paths: seq<Path>, k: nat)
    requires k < |paths|
    ensures forall path :: path in paths[..k + 1] <==> path == paths[0] || path in paths[1..][..k]
  {
    assert paths[..k + 1] == [paths[0]] + paths[1..][..k];
  }

  lemma StopsLater(r: Registry, libraries: map<Path, Plugin>, paths: seq<Path>, initialised: seq<Path>,
                   left: map<Path, Plugin>, now: seq<Path>, m: Node, i: nat)
    requires Fresh(libraries, paths) && paths != [] && Fresh(left, paths[1..])
    requires !Escapes(r, libraries[paths[0]])
    requires left == if Initialises(r, libraries[paths[0]]) then libraries else libraries - {paths[0]}
    requires now == initialised || now == initialised + [paths[0]]
    requires StopsAt(RegisteredBy(r, libraries[paths[0]]), left, paths[1..], now, m, i)
    ensures StopsAt(r, libraries, paths, initialised, m, i + 1)
  {
    hide Escapes, Initialises, RegisteredBy, RegisteredByAll, Kept;
    var plugins := PluginsAt(libraries, paths);
    PluginsAtRest(libraries, paths);
    KeptOfRest(r, libraries, paths, i);
    TurnsOfRest(r, plugins, i);
    TurnsOfRest(r, plugins, i + 1);
    NoTurns(r, plugins);
    forall k | 0 <= k < i + 1
      ensures !Escapes(RegisteredByAll(r, plugins[..k]), plugins[k])
    {
      if k > 0 {
        TurnsOfRest(r, plugins, k - 1);
        assert plugins[1..][k - 1] == plugins[k];
      }
    }
    PathsOfRest(paths, i);
  }

  lemma StopsNow(n: Node, paths: seq<Path>, m: Node)
    requires Fresh(n.libraries, paths) && paths != [] && Escapes(n.registry, n.libraries[paths[0]])
    requires m.registry == RegisteredBy(n.registry, n.libraries[paths[0]])
    requires m.libraries == n.libraries && m.initialised == n.initialised
    ensures StopsAt(n.registry, n.libraries, paths, n.initialised, m, 0)
  {
    hide Escapes, RegisteredBy;
    NoTurns(n.registry, PluginsAt(n.libraries, paths));
    TurnsOfRest(n.registry, PluginsAt(n.libraries, paths), 0);
    NoTurns(RegisteredBy(n.registry, n.libraries[paths[0]]), PluginsAt(n.libraries, paths)[1..]);
    assert paths[..0] == [];
  }

  /**
   An escaping exception ends the pass at the plugin it comes from, the first to escape: the registry has
   seen it and those before it only, and the libraries from it on stay as they were loaded.
   */
  lemma {:induction false} PassStops(n: Node, paths: seq<Path>) returns (i: nat)
    requires Sound(n.registry) && Fresh(n.libraries, paths) && InitializeAll(n, paths).1
    ensures StopsAt(n.registry, n.libraries, paths, n.initialised, InitializeAll(n, paths).0, i)
    decreases |paths|
  {
    var path, plugin := paths[0], n.libraries[paths[0]];
    var (m, result) := InitializeOne(n, plugin);
    PluginsAtRest(n.libraries, paths);
    InitializeOneKeeps(n, plugin);
    EscapeExactly(n, plugin);
    var all := InitializeAll(n, paths).0;
    hide InitializeOne, Escapes, Initialises, RegisteredBy, Sound, StopsAt;
    match result
    case Escaped =>
      i := 0;
      StopsNow(n, paths, m);
    case Initialised =>
      var next := m.(initialised := m.initialised + [path]);
      i := PassStops(next, paths[1..]);
      StopsLater(n.registry, n.libraries, paths, n.initialised, next.libraries, next.initialised, all, i);
      i := i + 1;
    case Failed =>
      var next := m.(libraries := m.libraries - {path});
      i := PassStops(next, paths[1..]);
      StopsLater(n.registry, n.libraries, paths, n.initialised, next.libraries, next.initialised, all, i);
      i := i + 1;
  }

  /** With at most 256 names on record in the end, only uncaught exceptions of plugins and tables escape. */
  lemma PassUpTo256(n: Node, paths: seq<Path>)
    requires Sound(n.registry) && Fresh(n.libraries, paths)
    requires |RegisteredByAll(n.registry, PluginsAt(n.libraries, paths)).records| <= 256
    ensures InitializeAll(n, paths).1 <==> exists path :: path in paths && ThrowsUncaught(n.libraries[path])
  {
    var plugins := PluginsAt(n.libraries, paths);
    PassEscapesExactly(n, paths);
    SomeEscapesUpTo256(n.registry, plugins);
    if i :| 0 <= i < |plugins| && ThrowsUncaught(plugins[i]) {
      assert paths[i] in paths;
    }
    if path :| path in paths && ThrowsUncaught(n.libraries[path]) {
      var i :| 0 <= i < |paths| && paths[i] == path;
      assert ThrowsUncaught(plugins[i]);
    }
    hide InitializeAll, SomeEscapes, ThrowsUncaught;
  }

  // ----- all runs of a node

  function AfterScans(n: Node, scans: seq<Scan>): Node {
    if scans == [] then n else Scanned(AfterScans(n, scans[..|scans| - 1]), scans[|scans| - 1]).0
  }

  /** A node at start: records of earlier runs, nothing loaded. */
  function Started(records: seq<string>): Node {
    Node(map[], [], Registry(records, map[]), [])
  }

  /** What can be told beforehand of a run from the records and the files: its libraries and its registry. */
  datatype Forecast = Forecast(libraries: map<Path, Plugin>, registry: Registry)

  function Pending(libraries: map<Path, Plugin>, scan: Scan): seq<Plugin> {
    PluginsAt(LoadedBy(libraries, scan), PickedUp(libraries, scan))
  }

  /** What a run comes to if no exception escapes. */
  function Foreseen(records: seq<string>, scans: seq<Scan>): Forecast {
    if scans == [] then Forecast(map[], Registry(records, map[]))
    else
      var before, last := Foreseen(records, scans[..|scans| - 1]), scans[|scans| - 1];
      Forecast(
        Kept(before.registry, LoadedBy(before.libraries, last), PickedUp(before.libraries, last)),
        RegisteredByAll(before.registry, Pending(before.libraries, last)))
  }

  /**
   Whether a pass leaves libraries behind: it picks up plugins, and then its search throws, or one of them
   throws uncaught or finds its space occupied.
   */
  ghost predicate Harms(before: Forecast, scan: Scan) {
    if SearchThrows(scan) then PickedUp(before.libraries, scan) != []
    else SomeEscapes(before.registry, Pending(before.libraries, scan))
  }

  ghost predicate Harmless(records: seq<string>, scans: seq<Scan>, i: nat)
    requires i < |scans|
  {
    !Harms(Foreseen(records, scans[..i]), scans[i])
  }

  ghost predicate AllHarmless(records: seq<string>, scans: seq<Scan>) {
    forall i :: 0 <= i < |scans| ==> Harmless(records, scans, i)
  }

  lemma AllHarmlessSplits(records: seq<string>, scans: seq<Scan>)
    requires scans != []
    ensures AllHarmless(records, scans) <==>
      AllHarmless(records, scans[..|scans| - 1]) && Harmless(records, scans, |scans| - 1)
  {
    hide Harms, Foreseen;
    var before := scans[..|scans| - 1];
    forall i | 0 <= i < |before|
      ensures Harmless(records, before, i) <==> Harmless(records, scans, i)
    {
      assert before[..i] == scans[..i];
    }
    hide Harmless;
    if AllHarmless(records, scans) {
      assert forall i :: 0 <= i < |before| ==> Harmless(records, scans, i) && Harmless(records, before, i);
    }
  }

  /** The node is as foreseen. */
  ghost predicate AsForeseen(n: Node, f: Forecast) {
    n.libraries == f.libraries && n.registry == f.registry
  }

  lemma NothingPending(n: Node, scan: Scan)
    requires PickedUp(n.libraries, scan) == []
    ensures RegisteredByAll(n.registry, Pending(n.libraries, scan)) == n.registry
    ensures Kept(n.registry, LoadedBy(n.libraries, scan), PickedUp(n.libraries, scan))
         == LoadedBy(n.libraries, scan)
  {
  }

  lemma NoneEscapesOfNone(r: Registry)
    ensures !SomeEscapes(r, [])
  {
  }

  lemma ScanAsForeseen(n: Node, scan: Scan)
    requires Sound(n.registry)
    ensures var (m, escaped) := Scanned(n, scan);
      && (escaped && PickedUp(n.libraries, scan) != [] <==> Harms(Forecast(n.libraries, n.registry), scan))
      && (!Harms(Forecast(n.libraries, n.registry), scan) ==>
            && m.registry == RegisteredByAll(n.registry, Pending(n.libraries, scan))
            && m.libraries == Kept(n.registry, LoadedBy(n.libraries, scan), PickedUp(n.libraries, scan)))
  {
    if SearchThrows(scan) {
      if PickedUp(n.libraries, scan) == [] {
        NothingPending(n, scan);
      }
    } else {
      NoneEscapesOfNone(n.registry);
      PassEscapesExactly(n.(libraries := LoadedBy(n.libraries, scan)), PickedUp(n.libraries, scan));
    }
    hide InitializeAll, LoadedBy, PickedUp, SomeEscapes, Kept, RegisteredByAll;
  }

  lemma SettledIsNoOrphan(n: Node)
    requires Consistent(n)
    ensures Settled(n) <==> forall path :: !Orphan(n, path)
  {
    hide Consistent;
    if Settled(n) {
      assert forall path :: path in n.libraries ==> path in n.initialised;
    } else {
      var path :| path in n.libraries && path !in n.initialised;
      assert Orphan(n, path);
    }
  }

  lemma SettledAfterScan(n: Node, scan: Scan)
    requires Consistent(n)
    ensures Consistent(Scanned(n, scan).0)
    ensures Settled(Scanned(n, scan).0) <==>
      Settled(n) && !(Scanned(n, scan).1 && PickedUp(n.libraries, scan) != [])
  {
    ScanKeeps(n, scan);
    SettledIsNoOrphan(n);
    SettledIsNoOrphan(Scanned(n, scan).0);
    hide Scanned, Consistent, Orphan, Settled, PickedUp;
  }

  /**
   After any number of passes the node is consistent.  Its libraries are exactly the initialised ones, and
   all is as foreseen, exactly if no pass that picks up plugins has a search that throws, or a plugin that
   throws uncaught or finds its space occupied.
   */
  lemma {:induction false} SettledExactly(records: seq<string>, scans: seq<Scan>)
    requires Distinct(records)
    ensures Consistent(AfterScans(Started(records), scans))
    ensures Settled(AfterScans(Started(records), scans)) <==> AllHarmless(records, scans)
    ensures AllHarmless(records, scans) ==>
      AsForeseen(AfterScans(Started(records), scans), Foreseen(records, scans))
  {
    if scans != [] {
      var before, last := scans[..|scans| - 1], scans[|scans| - 1];
      var n := AfterScans(Started(records), before);
      SettledExactly(records, before);
      SettledAfterScan(n, last);
      AllHarmlessSplits(records, scans);
      if AllHarmless(records, before) {
        ScanAsForeseen(n, last);
      }
      hide Scanned, Harms, PickedUp, Kept, RegisteredByAll, Pending, AllHarmless, Settled, Started;
    }
  }

  lemma ForeseenRegistry(records: seq<string>, scans: seq<Scan>)
    requires scans != []
    ensures var f := Foreseen(records, scans[..|scans| - 1]);
      Foreseen(records, scans).registry == RegisteredByAll(f.registry, Pending(f.libraries, scans[|scans| - 1]))
  {
    hide Pending, Kept, RegisteredByAll, LoadedBy, PickedUp;
  }

  lemma ForeseenAtStart(records: seq<string>)
    requires Distinct(records)
    ensures Foreseen(records, []).registry == Registry(records, map[]) && Sound(Registry(records, map[]))
  {
  }

  lemma {:induction false} ForeseenGrows(records: seq<string>, scans: seq<Scan>, i: nat)
    requires Distinct(records) && i <= |scans|
    ensures Sound(Foreseen(records, scans).registry)
    ensures Foreseen(records, scans[..i]).registry.records <= Foreseen(records, scans).registry.records
  {
    hide Sound, Pending, Kept, RegisteredByAll, Foreseen;
    if scans != [] {
      var before, last := scans[..|scans| - 1], scans[|scans| - 1];
      var f := Foreseen(records, before);
      ForeseenRegistry(records, scans);
      ForeseenGrows(records, before, if i < |scans| then i else 0);
      RegisteredByAllIsSound(f.registry, Pending(f.libraries, last));
      assert i < |scans| ==> before[..i] == scans[..i];
      assert i == |scans| ==> scans[..i] == scans;
    } else {
      ForeseenAtStart(records);
      assert scans[..i] == scans;
    }
  }

  /** The plugins that pass `i` picks up if no exception escapes before. */
  function PendingIn(records: seq<string>, scans: seq<Scan>, i: nat): seq<Plugin>
    requires i < |scans|
  {
    Pending(Foreseen(records, scans[..i]).libraries, scans[i])
  }

  lemma PendingIsPickedUp(libraries: map<Path, Plugin>, scan: Scan)
    ensures PickedUp(libraries, scan) == [] <==> forall plugin :: plugin !in Pending(libraries, scan)
  {
    if PickedUp(libraries, scan) != [] {
      assert Pending(libraries, scan)[0] in Pending(libraries, scan);
    }
  }

  lemma HarmsUpTo256(before: Forecast, scan: Scan)
    requires Sound(before.registry)
    requires |RegisteredByAll(before.registry, Pending(before.libraries, scan)).records| <= 256
    ensures !Harms(before, scan) <==>
      forall plugin :: plugin in Pending(before.libraries, scan) ==> !SearchThrows(scan) && !ThrowsUncaught(plugin)
  {
    hide ThrowsUncaught, SomeEscapes, Sound, RegisteredByAll, Pending, PickedUp, SearchThrows;
    SomeEscapesUpTo256(before.registry, Pending(before.libraries, scan));
    PendingIsPickedUp(before.libraries, scan);
  }

  lemma HarmlessUpTo256(records: seq<string>, scans: seq<Scan>, i: nat)
    requires Distinct(records) && i < |scans|
    requires |Foreseen(records, scans).registry.records| <= 256
    ensures Harmless(records, scans, i) <==>
      forall plugin :: plugin in PendingIn(records, scans, i) ==> !SearchThrows(scans[i]) && !ThrowsUncaught(plugin)
  {
    hide ThrowsUncaught, SearchThrows, Harms, Sound, RegisteredByAll, Pending, Foreseen;
    ForeseenGrows(records, scans[..i], 0);
    ForeseenGrows(records, scans, i + 1);
    assert scans[..i + 1][..i] == scans[..i];
    ForeseenRegistry(records, scans[..i + 1]);
    HarmsUpTo256(Foreseen(records, scans[..i]), scans[i]);
    assert PendingIn(records, scans, i) == Pending(Foreseen(records, scans[..i]).libraries, scans[i]);
  }

  /**
   With at most 256 names on record in the end, the libraries are exactly the initialised ones exactly if
   no plugin is picked up that throws uncaught, or by a search that throws.
   */
  lemma SettledUpTo256(records: seq<string>, scans: seq<Scan>)
    requires Distinct(records) && |Foreseen(records, scans).registry.records| <= 256
    ensures Settled(AfterScans(Started(records), scans)) <==>
      forall i, plugin :: 0 <= i < |scans| && plugin in PendingIn(records, scans, i) ==>
        !SearchThrows(scans[i]) && !ThrowsUncaught(plugin)
  {
    hide Settled, AfterScans, Started, Harmless, PendingIn, ThrowsUncaught, Foreseen;
    SettledExactly(records, scans);
    forall i | 0 <= i < |scans|
      ensures Harmless(records, scans, i) <==>
        forall plugin :: plugin in PendingIn(records, scans, i) ==> !SearchThrows(scans[i]) && !ThrowsUncaught(plugin)
    {
      HarmlessUpTo256(records, scans, i);
    }
  }

  lemma {:induction false} OrphansStay(n: Node, scans: seq<Scan>, path: Path)
    requires Consistent(n) && Orphan(n, path)
    ensures Consistent(AfterScans(n, scans)) && Orphan(AfterScans(n, scans), path)
  {
    if scans != [] {
      OrphansStay(n, scans[..|scans| - 1], path);
      ScanKeeps(AfterScans(n, scans[..|scans| - 1]), scans[|scans| - 1]);
      hide Consistent, Orphan, Scanned;
    }
  }

  /**
   A plugin that throws uncaught ends the pass that picks it up, whatever the node.  It stays among the
   libraries for ever, never initialised, and no later pass picks it up again.
   */
  lemma EscapeLeavesOrphan(n: Node, file: Candidate, later: seq<Scan>, files: seq<Candidate>)
    requires Consistent(n)
    requires file.isLibrary && file.path !in n.libraries
    requires file.plugin.Some? && ThrowsUncaught(file.plugin.value)
    ensures var (m, escaped) := Scanned(n, Scan(Directory([file], false), NoDirectory));
      && escaped && Orphan(AfterScans(m, later), file.path)
      && !Settled(AfterScans(m, later))
      && file.path !in NewPaths(AfterScans(m, later).libraries, files)
  {
    var scan := Scan(Directory([file], false), NoDirectory);
    var m := Scanned(n, scan).0;
    assert [file][..0] == [];
    assert NewPaths(n.libraries, [file]) == [file.path] && PickedUp(n.libraries, scan) == [file.path];
    assert LoadedBy(n.libraries, scan)[file.path] == file.plugin.value;
    EscapeExactly(n.(libraries := LoadedBy(n.libraries, scan)), file.plugin.value);
    ScanKeeps(n, scan);
    assert Orphan(m, file.path);
    OrphansStay(m, later, file.path);
  }

  /** A plugin picked up by a search that throws in the end is left for ever in the same way, however harmless. */
  lemma SearchLeavesOrphans(n: Node, scan: Scan, path: Path, later: seq<Scan>, files: seq<Candidate>)
    requires Consistent(n) && path in PickedUp(n.libraries, scan)
    requires (scan.first.Directory? && scan.first.throws) || (scan.second.Directory? && scan.second.throws)
    ensures var (m, escaped) := Scanned(n, scan);
      && escaped && Orphan(AfterScans(m, later), path)
      && !Settled(AfterScans(m, later))
      && path !in NewPaths(AfterScans(m, later).libraries, files)
  {
    ScanKeeps(n, scan);
    assert path in LoadedBy(n.libraries, scan) && path !in n.initialised;
    OrphansStay(Scanned(n, scan).0, later, path);
    hide AfterScans, Loaded, LoadedBy, PickedUp;
  }

  /** Passes only add to what was initialised, and nothing is initialised twice. */
  lemma {:induction false} InitialisedOnce(records: seq<string>, scans: seq<Scan>, i: nat)
    requires Distinct(records) && i <= |scans|
    ensures Distinct(AfterScans(Started(records), scans).initialised)
    ensures AfterScans(Started(records), scans[..i]).initialised <= AfterScans(Started(records), scans).initialised
  {
    hide Sound, WellAimed, AllHarmless, Settled, Scanned, Started;
    SettledExactly(records, scans);
    if i < |scans| {
      var before, last := scans[..|scans| - 1], scans[|scans| - 1];
      assert before[..i] == scans[..i];
      InitialisedOnce(records, before, i);
      SettledExactly(records, before);
      ScanKeeps(AfterScans(Started(records), before), last);
    } else {
      assert scans[..i] == scans;
    }
  }

  /** Of a settled node, a path is picked up again exactly if its plugin was never initialised. */
  lemma FailedIsEligibleAgain(n: Node, files: seq<Candidate>, i: nat)
    requires Settled(n) && i < |files| && files[i].isLibrary && files[i].plugin.Some?
    ensures files[i].path in NewPaths(n.libraries, files) <==> files[i].path !in n.initialised
  {
    EligibleExactly(n.libraries, files, files[i].path);
  }
}
