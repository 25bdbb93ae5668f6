/** The monitors on a contract's tables, and what can be told of the tables from the signals they emit. */
module TableMonitor {
  import opened Wrappers
  import opened Exceptions
  import opened Uint8

  /** A row of a table as a variant: its instance number and the rest of it. */
  datatype Object = Object(id: int, fields: string)

  /** What a table tells its monitor. */
  datatype Notice =
    | Loaded(obj: Object)
    | Created(obj: Object)
    | Removed(obj: Object)
    | AboutToModify(before: Object)
    | Modified(after: Object)

  /** What a monitor emits; `Unannounced` is the error line for a change whose beginning it has not seen. */
  datatype Event =
    | ObjectLoaded(typeId: uint8, obj: Object)
    | ObjectCreated(typeId: uint8, obj: Object)
    | ObjectDeleted(typeId: uint8, obj: Object)
    | ObjectModified(typeId: uint8, before: Object, after: Object)
    | Unannounced(typeId: uint8, after: Object)

  /** The object a monitor remembers after a notice. */
  function Remembered(pre: Option<Object>, notice: Notice): Option<Object> {
    match notice
    case AboutToModify(before) => Some(before)
    case Modified(_) => None
    case _ => pre
  }

  /** The events a monitor emits on a notice. */
  function EventsOf(typeId: uint8, pre: Option<Object>, notice: Notice): seq<Event> {
    match notice
    case Loaded(obj) => [ObjectLoaded(typeId, obj)]
    case Created(obj) => [ObjectCreated(typeId, obj)]
    case Removed(obj) => [ObjectDeleted(typeId, obj)]
    case AboutToModify(_) => []
    case Modified(after) =>
      if pre.Some? then [ObjectModified(typeId, pre.value, after)] else [Unannounced(typeId, after)]
  }

  /** The signals of one contract's monitor, in the order in which a listener to all of them hears them. */
  class Signals {
    var events: seq<Event>
    /** Signals are destroyed with the monitor of the contract; emitting on them is undefined from then on. */
    var alive: bool

    constructor ()
      ensures events == [] && alive
    {
      events, alive := [], true;
    }
  }

  class TableMonitor {
    var typeId: uint8
    /** Where to emit; null until the monitor is set up, and every notice but one asserts that it is not. */
    var signals: Signals?
    var preModifiedObject: Option<Object>

    constructor ()
      ensures typeId == 0 && signals == null && preModifiedObject == None
    {
      typeId, signals, preModifiedObject := 0, null, None;
    }

    method OnLoaded(obj: Object) returns (threw: bool)
      requires signals == null || signals.alive
      modifies signals
      ensures signals == null || signals.alive
      ensures threw <==> signals == null
      ensures !threw ==> signals.events == old(signals.events) + [ObjectLoaded(typeId, obj)]
      ensures !threw ==> signals.events == old(signals.events) + EventsOf(typeId, preModifiedObject, Loaded(obj))
    {
      if signals == null {
        return true;
      }
      signals.events := signals.events + [ObjectLoaded(typeId, obj)];
      return false;
    }

    method OnCreated(obj: Object) returns (threw: bool)
      requires signals == null || signals.alive
      modifies signals
      ensures signals == null || signals.alive
      ensures threw <==> signals == null
      ensures !threw ==> signals.events == old(signals.events) + [ObjectCreated(typeId, obj)]
      ensures !threw ==> signals.events == old(signals.events) + EventsOf(typeId, preModifiedObject, Created(obj))
    {
      if signals == null {
        return true;
      }
      signals.events := signals.events + [ObjectCreated(typeId, obj)];
      return false;
    }

    method OnRemoved(obj: Object) returns (threw: bool)
      requires signals == null || signals.alive
      modifies signals
      ensures signals == null || signals.alive
      ensures threw <==> signals == null
      ensures !threw ==> signals.events == old(signals.events) + [ObjectDeleted(typeId, obj)]
      ensures !threw ==> signals.events == old(signals.events) + EventsOf(typeId, preModifiedObject, Removed(obj))
    {
      if signals == null {
        return true;
      }
      signals.events := signals.events + [ObjectDeleted(typeId, obj)];
      return false;
    }

    method OnAboutToModify(before: Object)
      modifies this`preModifiedObject
      ensures preModifiedObject == Some(before)
      ensures preModifiedObject == Remembered(old(preModifiedObject), AboutToModify(before))
    {
      preModifiedObject := Some(before);
    }

    method OnModified(after: Object) returns (threw: bool)
      requires signals == null || signals.alive
      modifies this`preModifiedObject, signals
      ensures signals == null || signals.alive
      ensures threw <==> signals == null
      ensures threw ==> preModifiedObject == old(preModifiedObject)
      ensures !threw ==>
        && preModifiedObject == None
        && signals.events == old(signals.events)
           + (match old(preModifiedObject)
              case Some(before) => [ObjectModified(typeId, before, after)]
              case None => [Unannounced(typeId, after)])
      ensures !threw ==>
        && signals.events == old(signals.events) + EventsOf(typeId, old(preModifiedObject), Modified(after))
        && preModifiedObject == Remembered(old(preModifiedObject), Modified(after))
    {
      if signals == null {
        return true;
      }
      if preModifiedObject.Some? {
        signals.events := signals.events + [ObjectModified(typeId, preModifiedObject.value, after)];
        preModifiedObject := None;
      } else {
        signals.events := signals.events + [Unannounced(typeId, after)];
      }
      return false;
    }
  }

  /**
   What putting a monitor on a table comes to.  The original's handler takes a pointer to an exception: it
   lets a table that throws a pointer go, and does not catch an exception thrown as an object.
   */
  datatype Attachment = Attached | PointerThrown | Thrown(e: Exception)

  /** A table of the contract's space. */
  datatype Table = Table(typeId: uint8, attachment: Attachment)

  /** The position of the first table whose exception is not caught, or the number of tables. */
  function FirstThrow(tables: seq<Table>): (i: nat)
    ensures i <= |tables|
    ensures i < |tables| ==> tables[i].attachment.Thrown?
    ensures forall k :: 0 <= k < i ==> !tables[k].attachment.Thrown?
  {
    if tables == [] || tables[0].attachment.Thrown? then 0 else 1 + FirstThrow(tables[1..])
  }

  /** The exception that ends the attempt to observe the tables, if one does: that of the first that throws. */
  function ThrownBy(tables: seq<Table>): (r: Option<Exception>)
    ensures r == None <==> forall i :: 0 <= i < |tables| ==> !tables[i].attachment.Thrown?
    ensures r.Some? ==>
      exists i :: 0 <= i < |tables| && tables[i].attachment == Thrown(r.value)
               && forall k :: 0 <= k < i ==> !tables[k].attachment.Thrown?
  {
    if FirstThrow(tables) == |tables| then None else Some(tables[FirstThrow(tables)].attachment.e)
  }

  /** The types of the tables that take a monitor, in order. */
  function ObservedTypes(tables: seq<Table>): seq<uint8> {
    if tables == [] then []
    else
      ObservedTypes(tables[..|tables| - 1])
      + if tables[|tables| - 1].attachment == Attached then [tables[|tables| - 1].typeId] else []
  }

  lemma ObservesNothing(tables: seq<Table>)
    ensures ObservedTypes(tables[..0]) == []
  {
  }

  lemma ObservesOneMore(tables: seq<Table>, t: nat)
    requires t < |tables|
    ensures ObservedTypes(tables[..t + 1]) ==
      ObservedTypes(tables[..t]) + if tables[t].attachment == Attached then [tables[t].typeId] else []
  {
    assert tables[..t + 1][..t] == tables[..t];
  }

  /** The types are those of the tables before `end` that take a monitor: the tables at `positions`, in order. */
  ghost predicate AreObserved(tables: seq<Table>, end: nat, types: seq<uint8>, positions: seq<nat>)
    requires end <= |tables|
  {
    && |positions| == |types|
    && (forall k :: 0 <= k < |types| ==> positions[k] < end && types[k] == tables[positions[k]].typeId)
    && (forall j, k :: 0 <= j < k < |types| ==> positions[j] < positions[k])
    && forall i :: i in positions <==> 0 <= i < end && tables[i].attachment == Attached
  }

  lemma OneMoreObserved(tables: seq<Table>, end: nat, types: seq<uint8>, positions: seq<nat>)
    requires end < |tables| && AreObserved(tables, end, types, positions)
    ensures if tables[end].attachment == Attached then
        AreObserved(tables, end + 1, types + [tables[end].typeId], positions + [end])
      else
        AreObserved(tables, end + 1, types, positions)
  {
    assert forall i :: i in positions + [end] <==> i in positions || i == end;
  }

  lemma NoneObserved(tables: seq<Table>)
    ensures AreObserved(tables, 0, [], [])
  {
  }

  /** The observed types are those of the tables that take a monitor. */
  lemma {:induction false} ObservedTypesAre(tables: seq<Table>, end: nat) returns (positions: seq<nat>)
    requires end <= |tables|
    ensures AreObserved(tables, end, ObservedTypes(tables[..end]), positions)
  {
    hide AreObserved, ObservedTypes;
    positions := [];
    if end == 0 {
      ObservesNothing(tables);
      NoneObserved(tables);
    } else {
      positions := ObservedTypesAre(tables, end - 1);
      var types := ObservedTypes(tables[..end - 1]);
      ObservesOneMore(tables, end - 1);
      OneMoreObserved(tables, end - 1, types, positions);
      assert types + [] == types;
      if tables[end - 1].attachment == Attached {
        positions := positions + [end - 1];
      }
    }
  }

  /** Some table takes a monitor exactly if there is a type to observe. */
  lemma {:induction false} ObservesSome(tables: seq<Table>)
    ensures ObservedTypes(tables) != [] <==>
      exists i :: 0 <= i < |tables| && tables[i].attachment == Attached
  {
    if tables != [] {
      var before := tables[..|tables| - 1];
      ObservesSome(before);
      assert forall i :: 0 <= i < |before| ==> before[i] == tables[i];
    }
  }

  class MultiTableMonitor {
    const contractName: string
    const spaceId: uint8
    const signals: Signals
    var monitors: seq<TableMonitor>

    constructor (contractName: string, spaceId: uint8)
      ensures this.contractName == contractName && this.spaceId == spaceId
      ensures fresh(signals) && signals.events == [] && signals.alive && monitors == []
    {
      this.contractName, this.spaceId := contractName, spaceId;
      signals := new Signals();
      monitors := [];
    }

    /** Every monitor is new, reports to the common signals, and remembers nothing. */
    ghost predicate Watches(types: seq<uint8>)
      reads this, monitors
    {
      && |monitors| == |types|
      && (forall i :: 0 <= i < |monitors| ==>
            && monitors[i].typeId == types[i]
            && monitors[i].signals == signals
            && monitors[i].preModifiedObject == None)
      && forall i, j :: 0 <= i < j < |monitors| ==> monitors[i] != monitors[j]
    }

    /**
     The rest of the construction: puts a monitor on each table that takes one.  If an exception ends it, the
     signals are destroyed, and the tables before keep the monitors they got.
     */
    method Attach(tables: seq<Table>) returns (thrown: Option<Exception>)
      requires monitors == [] && signals.alive
      modifies this, signals`alive
      ensures thrown == ThrownBy(tables)
      ensures signals.alive <==> thrown == None
      ensures Watches(ObservedTypes(tables[..FirstThrow(tables)]))
      ensures forall i :: 0 <= i < |monitors| ==> fresh(monitors[i])
    {
      hide ObservedTypes;
      ObservesNothing(tables);
      for t := 0 to |tables|
        invariant t <= FirstThrow(tables) && signals.alive
        invariant Watches(ObservedTypes(tables[..t]))
        invariant forall i :: 0 <= i < |monitors| ==> fresh(monitors[i])
      {
        ObservesOneMore(tables, t);
        match tables[t].attachment {
          case Attached =>
            var monitor := new TableMonitor();
            monitor.typeId := tables[t].typeId;
            monitor.signals := signals;
            monitors := monitors + [monitor];
          case PointerThrown =>
          case Thrown(e) =>
            signals.alive := false;
            return Some(e);
        }
      }
      assert tables[..|tables|] == tables;
      return None;
    }
  }

  // ----- the tables

  type Rows = map<int, Object>

  /** A change to the tables.  A modification begins and, unless it is aborted, ends. */
  datatype Step =
    | Load(typeId: uint8, obj: Object)
    | Create(typeId: uint8, obj: Object)
    | Remove(typeId: uint8, id: int)
    | BeginModify(typeId: uint8, id: int)
    | EndModify(typeId: uint8, obj: Object)
    | AbortModify(typeId: uint8, id: int)

  /**
   The tables, the modifications under way, what the monitor of each observed table remembers, and the
   events so far.
   */
  datatype Database = Database(
    tables: map<uint8, Rows>,
    underway: multiset<(uint8, int)>,
    observed: map<uint8, Option<Object>>,
    events: seq<Event>
  )

  function Notified(db: Database, typeId: uint8, notice: Notice): Database {
    if typeId !in db.observed then db
    else
      db.(events := db.events + EventsOf(typeId, db.observed[typeId], notice),
          observed := db.observed[typeId := Remembered(db.observed[typeId], notice)])
  }

  /**
   What graphene allows: a row is loaded or created where there is none, only rows that exist are changed,
   and a row is not removed while it is being modified.  Modifications may overlap, also those of one row.
   */
  predicate Possible(db: Database, step: Step) {
    && step.typeId in db.tables
    && match step
       case Load(t, obj) => obj.id !in db.tables[t]
       case Create(t, obj) => obj.id !in db.tables[t]
       case Remove(t, id) => id in db.tables[t] && (t, id) !in db.underway
       case BeginModify(t, id) => id in db.tables[t]
       case EndModify(t, obj) => obj.id in db.tables[t] && (t, obj.id) in db.underway
       case AbortModify(t, id) => id in db.tables[t] && (t, id) in db.underway
  }

  predicate PutsRow(step: Step) {
    step.Load? || step.Create? || step.EndModify?
  }

  /** The rows of the step's table.  An aborted modification leaves its row as it was. */
  function RowsAfter(rows: Rows, step: Step): Rows {
    match step
    case Load(_, obj) => rows[obj.id := obj]
    case Create(_, obj) => rows[obj.id := obj]
    case Remove(_, id) => rows - {id}
    case EndModify(_, obj) => rows[obj.id := obj]
    case _ => rows
  }

  function UnderwayAfter(underway: multiset<(uint8, int)>, step: Step): multiset<(uint8, int)> {
    match step
    case BeginModify(t, id) => underway + multiset{(t, id)}
    case EndModify(t, obj) => underway - multiset{(t, obj.id)}
    case AbortModify(t, id) => underway - multiset{(t, id)}
    case _ => underway
  }

  /** What a step tells the monitor of its table; of an aborted modification it is told nothing. */
  function NoticeOf(db: Database, step: Step): Option<Notice>
    requires Possible(db, step)
  {
    match step
    case Load(t, obj) => Some(Loaded(obj))
    case Create(t, obj) => Some(Created(obj))
    case Remove(t, id) => Some(Removed(db.tables[t][id]))
    case BeginModify(t, id) => Some(AboutToModify(db.tables[t][id]))
    case EndModify(t, obj) => Some(Modified(obj))
    case AbortModify(t, id) => None
  }

  function Done(db: Database, step: Step): Database
    requires Possible(db, step)
  {
    var t := step.typeId;
    var changed := db.(tables := db.tables[t := RowsAfter(db.tables[t], step)],
                       underway := UnderwayAfter(db.underway, step));
    if NoticeOf(db, step).Some? then Notified(changed, t, NoticeOf(db, step).value) else changed
  }

  ghost predicate PossibleRun(db: Database, steps: seq<Step>)
    decreases |steps|, 0
  {
    steps == [] ||
    (PossibleRun(db, steps[..|steps| - 1]) && Possible(AfterSteps(db, steps[..|steps| - 1]), steps[|steps| - 1]))
  }

  ghost function AfterSteps(db: Database, steps: seq<Step>): Database
    requires PossibleRun(db, steps)
    decreases |steps|, 1
  {
    if steps == [] then db else Done(AfterSteps(db, steps[..|steps| - 1]), steps[|steps| - 1])
  }

  // ----- replaying the events

  /** The tables after one event, if the event makes sense of them: `before` and deleted rows must be there. */
  function Replayed(tables: map<uint8, Rows>, e: Event): Option<map<uint8, Rows>> {
    if e.typeId !in tables then None
    else
      var rows := tables[e.typeId];
      match e
      case ObjectLoaded(t, obj) =>
        if obj.id in rows then None else Some(tables[t := rows[obj.id := obj]])
      case ObjectCreated(t, obj) =>
        if obj.id in rows then None else Some(tables[t := rows[obj.id := obj]])
      case ObjectDeleted(t, obj) =>
        if obj.id !in rows || rows[obj.id] != obj then None else Some(tables[t := rows - {obj.id}])
      case ObjectModified(t, before, after) =>
        if before.id != after.id || before.id !in rows || rows[before.id] != before then None
        else Some(tables[t := rows[after.id := after]])
      case Unannounced(t, after) => None
  }

  function ReplayedAll(tables: map<uint8, Rows>, events: seq<Event>): Option<map<uint8, Rows>> {
    if events == [] then Some(tables)
    else
      match ReplayedAll(tables, events[..|events| - 1])
      case None => None
      case Some(before) => Replayed(before, events[|events| - 1])
  }

  /** The tables that are observed. */
  function Seen(db: Database): map<uint8, Rows> {
    map t | t in db.tables && t in db.observed :: db.tables[t]
  }

  /** Rows are filed under their own number. */
  ghost predicate Filed(db: Database) {
    forall t, id :: t in db.tables && id in db.tables[t] ==> db.tables[t][id].id == id
  }

  /** A modification may only end right if the monitor remembers the row as it was just before. */
  predicate ToldRight(db: Database, step: Step)
    requires Possible(db, step)
  {
    step.EndModify? && step.typeId in db.observed ==>
      db.observed[step.typeId] == Some(db.tables[step.typeId][step.obj.id])
  }

  /** The events so far rebuild the observed tables from the snapshot. */
  ghost predicate Rebuilds(snapshot: map<uint8, Rows>, db: Database) {
    ReplayedAll(snapshot, db.events) == Some(Seen(db))
  }

  lemma ReplayOneMore(snapshot: map<uint8, Rows>, events: seq<Event>, e: Event)
    ensures ReplayedAll(snapshot, events + [e]) ==
      if ReplayedAll(snapshot, events).None? then None
      else Replayed(ReplayedAll(snapshot, events).value, e)
  {
    assert (events + [e])[..|events|] == events;
  }

  /** Adds what a notice emits, if anything, to a replay that has come as far as `before`. */
  lemma ReplayNotice(snapshot: map<uint8, Rows>, db: Database, t: uint8, notice: Notice)
    requires t in db.observed
    ensures var more := EventsOf(t, db.observed[t], notice);
      ReplayedAll(snapshot, Notified(db, t, notice).events) ==
        if more == [] || ReplayedAll(snapshot, db.events).None? then ReplayedAll(snapshot, db.events)
        else Replayed(ReplayedAll(snapshot, db.events).value, more[0])
  {
    var more := EventsOf(t, db.observed[t], notice);
    if more == [] {
      assert db.events + more == db.events;
    } else {
      ReplayOneMore(snapshot, db.events, more[0]);
      assert more == [more[0]];
    }
  }

  lemma StepTouches(db: Database, step: Step)
    requires Possible(db, step)
    ensures step.typeId in db.tables
    ensures Done(db, step).tables == db.tables[step.typeId := RowsAfter(db.tables[step.typeId], step)]
    ensures Done(db, step).underway == UnderwayAfter(db.underway, step)
    ensures Done(db, step).observed.Keys == db.observed.Keys
  {
    hide RowsAfter, UnderwayAfter, NoticeOf, EventsOf, Remembered;
  }

  lemma SeenWith(db: Database, next: Database, t: uint8, rows: Rows)
    requires t in db.tables && next.tables == db.tables[t := rows] && next.observed.Keys == db.observed.Keys
    ensures Seen(next) == if t in db.observed then Seen(db)[t := rows] else Seen(db)
  {
    assert forall u :: u in next.observed <==> u in db.observed;
  }

  /** A step touches its own table only. */
  lemma SeenAfterStep(db: Database, step: Step)
    requires Possible(db, step)
    ensures step.typeId in db.tables
    ensures Done(db, step).tables == db.tables[step.typeId := RowsAfter(db.tables[step.typeId], step)]
    ensures Done(db, step).underway == UnderwayAfter(db.underway, step)
    ensures Done(db, step).observed.Keys == db.observed.Keys
    ensures Seen(Done(db, step)) ==
      if step.typeId in db.observed then Seen(db)[step.typeId := RowsAfter(db.tables[step.typeId], step)] else Seen(db)
  {
    hide *;
    StepTouches(db, step);
    SeenWith(db, Done(db, step), step.typeId, RowsAfter(db.tables[step.typeId], step));
  }

  /** The row of its own number is the only one that a step touches. */
  lemma RowAfterStep(rows: Rows, step: Step, id: int)
    ensures id in RowsAfter(rows, step) ==>
      if PutsRow(step) && step.obj.id == id then RowsAfter(rows, step)[id] == step.obj
      else id in rows && RowsAfter(rows, step)[id] == rows[id]
    ensures id in rows && !(step.Remove? && step.id == id) ==> id in RowsAfter(rows, step)
  {
  }

  lemma StepKeepsFiled(db: Database, step: Step)
    requires Filed(db) && Possible(db, step)
    ensures Filed(Done(db, step))
  {
    StepTouches(db, step);
    hide Possible, Done;
    forall t, id | t in Done(db, step).tables && id in Done(db, step).tables[t]
      ensures Done(db, step).tables[t][id].id == id
    {
      if t == step.typeId {
        RowAfterStep(db.tables[t], step, id);
      }
    }
  }

  /** What an observed step emits says just what it did, unless it is an end that is told wrong. */
  lemma EventTellsStep(db: Database, step: Step)
    requires Filed(db) && Possible(db, step) && step.typeId in db.observed && NoticeOf(db, step).Some?
    ensures var t := step.typeId; var more := EventsOf(t, db.observed[t], NoticeOf(db, step).value);
      if more == [] then Seen(Done(db, step)) == Seen(db) && ToldRight(db, step)
      else Replayed(Seen(db), more[0]) == if ToldRight(db, step) then Some(Seen(Done(db, step))) else None
  {
    SeenAfterStep(db, step);
    var t := step.typeId;
    assert t in Seen(db) && Seen(db)[t] == db.tables[t];
    match step
    case Load(_, obj) =>
    case Create(_, obj) =>
    case Remove(_, id) =>
    case BeginModify(_, id) =>
      assert Seen(db)[t := db.tables[t]] == Seen(db);
    case EndModify(_, obj) =>
  }

  lemma StepEvents(db: Database, step: Step)
    requires Possible(db, step)
    ensures Done(db, step).events ==
      if step.typeId in db.observed && NoticeOf(db, step).Some?
      then Notified(db, step.typeId, NoticeOf(db, step).value).events else db.events
  {
    hide Possible, RowsAfter, UnderwayAfter, NoticeOf, EventsOf, Remembered;
  }

  /** One step keeps the replay going exactly if its end, should it be one, is told right. */
  lemma StepRebuildsExactly(snapshot: map<uint8, Rows>, db: Database, step: Step)
    requires Filed(db) && Rebuilds(snapshot, db) && Possible(db, step)
    ensures Rebuilds(snapshot, Done(db, step)) <==> ToldRight(db, step)
    ensures !ToldRight(db, step) ==> ReplayedAll(snapshot, Done(db, step).events) == None
  {
    StepEvents(db, step);
    if step.typeId in db.observed && NoticeOf(db, step).Some? {
      ReplayNotice(snapshot, db, step.typeId, NoticeOf(db, step).value);
      EventTellsStep(db, step);
    } else {
      SeenAfterStep(db, step);
      assert step.typeId in db.observed ==> Seen(db)[step.typeId := db.tables[step.typeId]] == Seen(db);
    }
  }

  /** A replay that has failed stays failed. */
  lemma FailedForGood(snapshot: map<uint8, Rows>, db: Database, step: Step)
    requires Possible(db, step) && ReplayedAll(snapshot, db.events) == None
    ensures ReplayedAll(snapshot, Done(db, step).events) == None
  {
    StepEvents(db, step);
    if step.typeId in db.observed && NoticeOf(db, step).Some? {
      ReplayNotice(snapshot, db, step.typeId, NoticeOf(db, step).value);
    }
  }

  // ----- what the events tell

  datatype Kind = Loading | Creating | Deleting | Modifying

  /** A change to a table, with the object loaded, created, deleted or modified to. */
  datatype Deed = Deed(kind: Kind, typeId: uint8, obj: Object)

  /** The change that an event, or the error line, tells of. */
  function DeedOf(e: Event): Deed {
    match e
    case ObjectLoaded(t, obj) => Deed(Loading, t, obj)
    case ObjectCreated(t, obj) => Deed(Creating, t, obj)
    case ObjectDeleted(t, obj) => Deed(Deleting, t, obj)
    case ObjectModified(t, _, after) => Deed(Modifying, t, after)
    case Unannounced(t, after) => Deed(Modifying, t, after)
  }

  function DeedsOf(events: seq<Event>): seq<Deed> {
    seq(|events|, i requires 0 <= i < |events| => DeedOf(events[i]))
  }

  /** The change that a step makes, if it makes one. */
  function DeedDone(db: Database, step: Step): seq<Deed>
    requires Possible(db, step)
  {
    match step
    case Load(t, obj) => [Deed(Loading, t, obj)]
    case Create(t, obj) => [Deed(Creating, t, obj)]
    case Remove(t, id) => [Deed(Deleting, t, db.tables[t][id])]
    case BeginModify(_, _) => []
    case EndModify(t, obj) => [Deed(Modifying, t, obj)]
    case AbortModify(_, _) => []
  }

  /** The changes that a run makes to observed tables, in order. */
  ghost function DeedsDone(db: Database, steps: seq<Step>): seq<Deed>
    requires PossibleRun(db, steps)
  {
    if steps == [] then []
    else
      var before, last := steps[..|steps| - 1], steps[|steps| - 1];
      DeedsDone(db, before) + if last.typeId in db.observed then DeedDone(AfterSteps(db, before), last) else []
  }

  lemma DeedsTogether(a: seq<Event>, b: seq<Event>)
    ensures DeedsOf(a + b) == DeedsOf(a) + DeedsOf(b)
  {
  }

  lemma NoticeTellsDeed(db: Database, step: Step, pre: Option<Object>)
    requires Possible(db, step) && NoticeOf(db, step).Some?
    ensures DeedsOf(EventsOf(step.typeId, pre, NoticeOf(db, step).value)) == DeedDone(db, step)
  {
  }

  lemma StepTellsDeed(db: Database, step: Step)
    requires Possible(db, step)
    ensures DeedsOf(Done(db, step).events) ==
      DeedsOf(db.events) + if step.typeId in db.observed then DeedDone(db, step) else []
  {
    StepEvents(db, step);
    if step.typeId in db.observed && NoticeOf(db, step).Some? {
      var more := EventsOf(step.typeId, db.observed[step.typeId], NoticeOf(db, step).value);
      DeedsTogether(db.events, more);
      NoticeTellsDeed(db, step, db.observed[step.typeId]);
    }
    hide Possible, Done, EventsOf, DeedsOf;
  }

  /** Over any run, the events tell of every change to an observed table, once and in order, and of nothing else. */
  lemma {:induction false} EventsTellDeeds(db: Database, steps: seq<Step>)
    requires PossibleRun(db, steps) && db.events == []
    ensures DeedsOf(AfterSteps(db, steps).events) == DeedsDone(db, steps)
    ensures AfterSteps(db, steps).observed.Keys == db.observed.Keys
  {
    if steps != [] {
      var before, last := steps[..|steps| - 1], steps[|steps| - 1];
      var reached := AfterSteps(db, before);
      EventsTellDeeds(db, before);
      StepTellsDeed(reached, last);
      StepTouches(reached, last);
      assert last.typeId in db.observed <==> last.typeId in db.observed.Keys;
      hide Possible, Done, DeedDone, DeedsOf;
    }
  }

  // ----- which runs can be replayed

  /** A step that a table's monitor remembers by, or forgets by. */
  predicate Touches(step: Step, t: uint8) {
    (step.BeginModify? || step.EndModify?) && step.typeId == t
  }

  /**
   If step `k` ends a modification of an observed table, the last modification to begin or end in that
   table before it is the beginning of this one.
   */
  ghost predicate EndsLastBegun(db: Database, steps: seq<Step>, k: nat)
    requires k < |steps|
  {
    steps[k].EndModify? && steps[k].typeId in db.observed ==>
      exists j :: 0 <= j < k && steps[j] == BeginModify(steps[k].typeId, steps[k].obj.id)
               && forall m :: j < m < k ==> !Touches(steps[m], steps[k].typeId)
  }

  function LastTouch(steps: seq<Step>, t: uint8): Option<Step> {
    if steps == [] then None
    else if Touches(steps[|steps| - 1], t) then Some(steps[|steps| - 1])
    else LastTouch(steps[..|steps| - 1], t)
  }

  lemma {:induction false} LastTouchAt(steps: seq<Step>, t: uint8) returns (j: int)
    ensures -1 <= j < |steps|
    ensures forall m :: j < m < |steps| ==> !Touches(steps[m], t)
    ensures if j == -1 then LastTouch(steps, t) == None
            else Touches(steps[j], t) && LastTouch(steps, t) == Some(steps[j])
  {
    j := |steps| - 1;
    if steps != [] && !Touches(steps[j], t) {
      j := LastTouchAt(steps[..j], t);
    }
  }

  lemma EndsLastBegunIsLastTouch(db: Database, steps: seq<Step>, k: nat)
    requires k < |steps| && steps[k].EndModify? && steps[k].typeId in db.observed
    ensures EndsLastBegun(db, steps, k) <==>
      LastTouch(steps[..k], steps[k].typeId) == Some(BeginModify(steps[k].typeId, steps[k].obj.id))
  {
    var t := steps[k].typeId;
    var j := LastTouchAt(steps[..k], t);
    assert forall m :: 0 <= m < k ==> steps[..k][m] == steps[m];
    if EndsLastBegun(db, steps, k) {
      var i :| 0 <= i < k && steps[i] == BeginModify(t, steps[k].obj.id)
            && forall m :: i < m < k ==> !Touches(steps[m], t);
      assert Touches(steps[i], t);
    }
  }

  /** What the monitor of a table has in mind after a run, told from the table's last touch. */
  ghost predicate HasInMind(db: Database, t: uint8, touch: Option<Step>)
    requires t in db.observed
  {
    match touch
    case None => forall id :: (t, id) !in db.underway
    case Some(BeginModify(_, id)) =>
      && db.observed[t].Some? && db.observed[t].value.id == id
      && ((t, id) in db.underway ==>
            t in db.tables && id in db.tables[t] && db.observed[t].value == db.tables[t][id])
    case Some(_) => db.observed[t] == None
  }

  /** Rows being modified are there. */
  ghost predicate UnderwayExist(db: Database) {
    forall t, id :: (t, id) in db.underway ==> t in db.tables && id in db.tables[t]
  }

  lemma UnderwayAfterStep(db: Database, step: Step, t: uint8, id: int)
    requires Possible(db, step) && UnderwayExist(db) && (t, id) in UnderwayAfter(db.underway, step)
    ensures t in db.tables && id in db.tables[t]
    ensures step.typeId == t ==> !(step.Remove? && step.id == id)
    ensures !Touches(step, t) ==>
      (t, id) in db.underway && (step.typeId == t ==> !(PutsRow(step) && step.obj.id == id))
  {
    if !step.BeginModify? {
      assert (t, id) in db.underway;
    }
  }

  /** A row being modified stays there, and only the end of a modification in its table changes it. */
  lemma StepKeepsUnderway(db: Database, step: Step)
    requires Possible(db, step) && UnderwayExist(db)
    ensures UnderwayExist(Done(db, step))
    ensures forall t, id :: (t, id) in Done(db, step).underway && !Touches(step, t) ==>
      (t, id) in db.underway && Done(db, step).tables[t][id] == db.tables[t][id]
  {
    StepTouches(db, step);
    hide Possible, Done, UnderwayAfter, RowsAfter, PutsRow, Touches;
    forall t, id | (t, id) in Done(db, step).underway
      ensures t in Done(db, step).tables && id in Done(db, step).tables[t]
      ensures !Touches(step, t) ==>
        (t, id) in db.underway && Done(db, step).tables[t][id] == db.tables[t][id]
    {
      UnderwayAfterStep(db, step, t, id);
      if t == step.typeId {
        RowAfterStep(db.tables[t], step, id);
      }
    }
  }

  lemma ObservedAfterStep(db: Database, step: Step, t: uint8)
    requires Possible(db, step) && t in db.observed
    ensures t in Done(db, step).observed
    ensures !Touches(step, t) ==> Done(db, step).observed[t] == db.observed[t]
    ensures Touches(step, t) ==>
      Done(db, step).observed[t] == if step.BeginModify? then Some(db.tables[t][step.id]) else None
  {
    hide RowsAfter, UnderwayAfter;
  }

  lemma StepKeepsMind(db: Database, step: Step, t: uint8, touch: Option<Step>)
    requires Possible(db, step) && Filed(db) && UnderwayExist(db)
    requires t in db.observed && HasInMind(db, t, touch)
    ensures t in Done(db, step).observed
    ensures HasInMind(Done(db, step), t, if Touches(step, t) then Some(step) else touch)
  {
    ObservedAfterStep(db, step, t);
    StepKeepsUnderway(db, step);
    StepTouches(db, step);
    hide Done, UnderwayExist;
  }

  /** What an ended modification finds remembered is right exactly if the last touch was its own beginning. */
  lemma ToldRightExactly(db: Database, step: Step, touch: Option<Step>)
    requires Possible(db, step) && Filed(db) && step.EndModify? && step.typeId in db.observed
    requires HasInMind(db, step.typeId, touch) && (touch.Some? ==> Touches(touch.value, step.typeId))
    ensures ToldRight(db, step) <==> touch == Some(BeginModify(step.typeId, step.obj.id))
  {
  }

  /** A database with monitors just put on some tables, whatever they may remember from before. */
  ghost predicate JustObserved(db: Database) {
    Filed(db) && db.underway == multiset{} && db.events == []
  }

  lemma {:induction false} RunKeepsMind(db: Database, steps: seq<Step>)
    requires JustObserved(db) && PossibleRun(db, steps)
    ensures var after := AfterSteps(db, steps);
      && Filed(after) && UnderwayExist(after) && after.observed.Keys == db.observed.Keys
      && forall t :: t in db.observed ==> HasInMind(after, t, LastTouch(steps, t))
  {
    if steps != [] {
      var before, last := steps[..|steps| - 1], steps[|steps| - 1];
      var reached := AfterSteps(db, before);
      RunKeepsMind(db, before);
      StepKeepsFiled(reached, last);
      StepKeepsUnderway(reached, last);
      StepTouches(reached, last);
      forall t | t in db.observed
        ensures HasInMind(Done(reached, last), t, LastTouch(steps, t))
      {
        StepKeepsMind(reached, last, t, LastTouch(before, t));
      }
    }
  }

  /** Of the last step of a run, being told right is a matter of the steps alone. */
  lemma LastStepToldRight(db: Database, steps: seq<Step>)
    requires JustObserved(db) && PossibleRun(db, steps) && steps != []
    ensures ToldRight(AfterSteps(db, steps[..|steps| - 1]), steps[|steps| - 1])
       <==> EndsLastBegun(db, steps, |steps| - 1)
  {
    var before, last := steps[..|steps| - 1], steps[|steps| - 1];
    RunKeepsMind(db, before);
    if last.EndModify? && last.typeId in db.observed {
      EndsLastBegunIsLastTouch(db, steps, |steps| - 1);
      var j := LastTouchAt(before, last.typeId);
      ToldRightExactly(AfterSteps(db, before), last, LastTouch(before, last.typeId));
    }
  }

  lemma EndsLastBegunInPrefix(db: Database, steps: seq<Step>, k: nat)
    requires steps != [] && k < |steps| - 1
    ensures EndsLastBegun(db, steps[..|steps| - 1], k) <==> EndsLastBegun(db, steps, k)
  {
    assert forall m :: 0 <= m < |steps| - 1 ==> steps[..|steps| - 1][m] == steps[m];
  }

  /** Every modification that ends in an observed table is the one that its table last saw begin. */
  ghost predicate EveryEndLastBegun(db: Database, steps: seq<Step>) {
    forall k :: 0 <= k < |steps| ==> EndsLastBegun(db, steps, k)
  }

  lemma EveryEndSplits(db: Database, steps: seq<Step>)
    requires steps != []
    ensures EveryEndLastBegun(db, steps) <==>
      EveryEndLastBegun(db, steps[..|steps| - 1]) && EndsLastBegun(db, steps, |steps| - 1)
  {
    var before := steps[..|steps| - 1];
    forall k | 0 <= k < |before|
      ensures EndsLastBegun(db, before, k) <==> EndsLastBegun(db, steps, k)
    {
      EndsLastBegunInPrefix(db, steps, k);
    }
    hide EndsLastBegun;
    if EveryEndLastBegun(db, steps) {
      assert forall k :: 0 <= k < |before| ==> EndsLastBegun(db, steps, k) && EndsLastBegun(db, before, k);
    }
  }

  /**
   Over any run, interleaved over tables, overlapping and aborted in any way, replaying the events from a
   snapshot rebuilds every observed table exactly if each modification that ends is the one that its table
   last saw begin, with none ended since.
   */
  lemma {:induction false} RunRebuildsExactly(db: Database, steps: seq<Step>)
    requires JustObserved(db) && PossibleRun(db, steps)
    ensures Rebuilds(Seen(db), AfterSteps(db, steps)) <==> EveryEndLastBegun(db, steps)
    ensures !EveryEndLastBegun(db, steps) ==> ReplayedAll(Seen(db), AfterSteps(db, steps).events) == None
  {
    if steps != [] {
      var before, last := steps[..|steps| - 1], steps[|steps| - 1];
      RunRebuildsExactly(db, before);
      EveryEndSplits(db, steps);
      if EveryEndLastBegun(db, before) {
        RunKeepsMind(db, before);
        LastStepToldRight(db, steps);
        StepRebuildsExactly(Seen(db), AfterSteps(db, before), last);
      } else {
        FailedForGood(Seen(db), AfterSteps(db, before), last);
      }
    }
  }

  lemma {:induction false} ReplayHearsNoError(snapshot: map<uint8, Rows>, events: seq<Event>)
    requires ReplayedAll(snapshot, events).Some?
    ensures forall i :: 0 <= i < |events| ==> !events[i].Unannounced?
  {
    if events != [] {
      ReplayHearsNoError(snapshot, events[..|events| - 1]);
    }
  }

  /** No two modifications of one table are under way. */
  ghost predicate NotNested(db: Database) {
    forall t, i, j :: (t, i) in db.underway && (t, j) in db.underway ==> i == j && db.underway[(t, i)] == 1
  }

  /** A run in which modifications of one table never overlap. */
  ghost predicate NeverNested(db: Database, steps: seq<Step>)
    requires PossibleRun(db, steps)
    decreases |steps|
  {
    NotNested(AfterSteps(db, steps)) && (steps == [] || NeverNested(db, steps[..|steps| - 1]))
  }

  /** Without overlap, whatever is under way is what its table last saw begin. */
  ghost predicate UnderwayLastBegun(db: Database, steps: seq<Step>)
    requires PossibleRun(db, steps)
  {
    forall t, id :: (t, id) in AfterSteps(db, steps).underway ==> LastTouch(steps, t) == Some(BeginModify(t, id))
  }

  /** A run that is not over yet, taken one step further. */
  lemma RunSplits(db: Database, steps: seq<Step>)
    requires PossibleRun(db, steps) && steps != []
    ensures var before, last := steps[..|steps| - 1], steps[|steps| - 1];
      && steps == before + [last]
      && PossibleRun(db, before) && Possible(AfterSteps(db, before), last)
      && AfterSteps(db, steps) == Done(AfterSteps(db, before), last)
  {
    hide Possible, Done;
  }

  /** An end is that of a modification under way, hence of the one last begun. */
  lemma LastEndsLastBegun(db: Database, steps: seq<Step>)
    requires PossibleRun(db, steps) && steps != []
    requires PossibleRun(db, steps[..|steps| - 1]) && UnderwayLastBegun(db, steps[..|steps| - 1])
    ensures EndsLastBegun(db, steps, |steps| - 1)
  {
    var last := steps[|steps| - 1];
    if last.EndModify? && last.typeId in db.observed {
      RunSplits(db, steps);
      assert (last.typeId, last.obj.id) in AfterSteps(db, steps[..|steps| - 1]).underway;
      EndsLastBegunIsLastTouch(db, steps, |steps| - 1);
    } else {
      assert EndsLastBegun(db, steps, |steps| - 1);
    }
  }

  lemma StepKeepsLastBegun(db: Database, steps: seq<Step>, step: Step)
    requires Possible(db, step) && NotNested(db) && NotNested(Done(db, step))
    requires forall t, id :: (t, id) in db.underway ==> LastTouch(steps, t) == Some(BeginModify(t, id))
    ensures forall t, id :: (t, id) in Done(db, step).underway ==>
      LastTouch(steps + [step], t) == Some(BeginModify(t, id))
  {
    assert (steps + [step])[..|steps|] == steps;
    forall t, id | (t, id) in Done(db, step).underway
      ensures LastTouch(steps + [step], t) == Some(BeginModify(t, id))
    {
      match step
      case BeginModify(u, i) =>
        assert (u, i) in Done(db, step).underway;
      case _ =>
        assert (t, id) in db.underway;
    }
  }

  lemma {:induction false} NeverNestedEndsLastBegun(db: Database, steps: seq<Step>)
    requires JustObserved(db) && PossibleRun(db, steps) && NeverNested(db, steps)
    ensures UnderwayLastBegun(db, steps) && EveryEndLastBegun(db, steps)
  {
    hide Possible, PossibleRun, Done, NotNested, LastTouch, EndsLastBegun;
    if steps != [] {
      var before, last := steps[..|steps| - 1], steps[|steps| - 1];
      RunSplits(db, steps);
      NeverNestedEndsLastBegun(db, before);
      LastEndsLastBegun(db, steps);
      EveryEndSplits(db, steps);
      StepKeepsLastBegun(AfterSteps(db, before), before, last);
    }
  }

  /**
   From the moment it is observed, every table can be rebuilt from a snapshot and the events alone, and
   the error line is never written, as long as modifications of one table do not overlap.
   */
  lemma EventsRebuildTables(db: Database, steps: seq<Step>)
    requires JustObserved(db) && PossibleRun(db, steps) && NeverNested(db, steps)
    ensures Rebuilds(Seen(db), AfterSteps(db, steps))
    ensures forall i :: 0 <= i < |AfterSteps(db, steps).events| ==> !AfterSteps(db, steps).events[i].Unannounced?
  {
    NeverNestedEndsLastBegun(db, steps);
    RunRebuildsExactly(db, steps);
    ReplayHearsNoError(Seen(db), AfterSteps(db, steps).events);
  }

  // ----- overlapping modifications

  lemma RunOfOneMore(db: Database, steps: seq<Step>, step: Step)
    requires PossibleRun(db, steps) && Possible(AfterSteps(db, steps), step)
    ensures PossibleRun(db, steps + [step])
    ensures AfterSteps(db, steps + [step]) == Done(AfterSteps(db, steps), step)
  {
    assert (steps + [step])[..|steps|] == steps;
  }

  /** One modification inside another of the same table: the inner one carried out or not, then the outer one. */
  function Nested(t: uint8, outer: Object, inner: Object, carriedOut: bool): seq<Step> {
    [BeginModify(t, outer.id), BeginModify(t, inner.id)]
    + [if carriedOut then EndModify(t, inner) else AbortModify(t, inner.id)]
    + [EndModify(t, outer)]
  }

  lemma BeginLeavesTables(db: Database, t: uint8, id: int)
    requires t in db.tables && id in db.tables[t]
    ensures Done(db, BeginModify(t, id)).tables == db.tables
    ensures Done(db, BeginModify(t, id)).underway == db.underway + multiset{(t, id)}
  {
    StepTouches(db, BeginModify(t, id));
    hide Done;
  }

  lemma OneBegun(db: Database, t: uint8, id: int)
    requires t in db.tables && id in db.tables[t]
    ensures PossibleRun(db, [BeginModify(t, id)])
    ensures Done(db, BeginModify(t, id)) == AfterSteps(db, [BeginModify(t, id)])
    ensures AfterSteps(db, [BeginModify(t, id)]).tables == db.tables
    ensures AfterSteps(db, [BeginModify(t, id)]).underway == db.underway + multiset{(t, id)}
  {
    RunOfOneMore(db, [], BeginModify(t, id));
    assert [] + [BeginModify(t, id)] == [BeginModify(t, id)];
    BeginLeavesTables(db, t, id);
  }

  lemma BegunIsPossible(db: Database, t: uint8, outer: int, inner: int)
    requires JustObserved(db) && t in db.tables && outer in db.tables[t] && inner in db.tables[t]
    ensures var begun := [BeginModify(t, outer), BeginModify(t, inner)];
      && PossibleRun(db, begun)
      && AfterSteps(db, begun).tables == db.tables
      && AfterSteps(db, begun).underway == multiset{(t, outer), (t, inner)}
  {
    var first, second := BeginModify(t, outer), BeginModify(t, inner);
    OneBegun(db, t, outer);
    hide PossibleRun, AfterSteps, Done;
    RunOfOneMore(db, [first], second);
    BeginLeavesTables(Done(db, first), t, inner);
    assert [first] + [second] == [first, second];
  }

  lemma EndForgets(db: Database, steps: seq<Step>)
    requires PossibleRun(db, steps) && steps != [] && steps[|steps| - 1].EndModify?
    requires steps[|steps| - 1].typeId in AfterSteps(db, steps).observed
    ensures AfterSteps(db, steps).observed[steps[|steps| - 1].typeId] == None
  {
    RunSplits(db, steps);
    hide Possible, PossibleRun, AfterSteps;
  }

  lemma EndUnannounced(db: Database, t: uint8, obj: Object)
    requires Possible(db, EndModify(t, obj)) && t in db.observed && db.observed[t] == None
    ensures Done(db, EndModify(t, obj)).events == db.events + [Unannounced(t, obj)]
  {
    StepEvents(db, EndModify(t, obj));
  }

  lemma NestedIsPossible(db: Database, t: uint8, outer: Object, inner: Object, carriedOut: bool)
    requires JustObserved(db) && t in db.tables && outer.id in db.tables[t] && inner.id in db.tables[t]
    ensures PossibleRun(db, Nested(t, outer, inner, carriedOut))
  {
    var begun := [BeginModify(t, outer.id), BeginModify(t, inner.id)];
    var third := if carriedOut then EndModify(t, inner) else AbortModify(t, inner.id);
    BegunIsPossible(db, t, outer.id, inner.id);
    RunOfOneMore(db, begun, third);
    StepTouches(AfterSteps(db, begun), third);
    RunOfOneMore(db, begun + [third], EndModify(t, outer));
    hide Possible, PossibleRun, AfterSteps, Done;
    assert Nested(t, outer, inner, carriedOut) == begun + [third] + [EndModify(t, outer)];
  }

  /** If the inner modification is carried out, the outer one writes the error line. */
  lemma NestedIsUnannounced(db: Database, t: uint8, outer: Object, inner: Object)
    requires JustObserved(db) && t in db.tables && t in db.observed
    requires outer.id in db.tables[t] && inner.id in db.tables[t]
    ensures PossibleRun(db, Nested(t, outer, inner, true))
    ensures Unannounced(t, outer) in AfterSteps(db, Nested(t, outer, inner, true)).events
  {
    hide Possible, PossibleRun, AfterSteps, Done, JustObserved, LastTouch, HasInMind;
    var run := Nested(t, outer, inner, true);
    NestedIsPossible(db, t, outer, inner, true);
    RunSplits(db, run);
    RunKeepsMind(db, run[..3]);
    EndForgets(db, run[..3]);
    EndUnannounced(AfterSteps(db, run[..3]), t, outer);
  }

  lemma NestedEndsLastBegun(db: Database, t: uint8, outer: Object, inner: Object, carriedOut: bool)
    requires t in db.observed
    ensures EveryEndLastBegun(db, Nested(t, outer, inner, carriedOut)) <==> !carriedOut && outer.id == inner.id
  {
    var run := Nested(t, outer, inner, carriedOut);
    assert |run| == 4 && run[3] == EndModify(t, outer) && run[1] == BeginModify(t, inner.id);
    assert run[0] == BeginModify(t, outer.id);
    assert Touches(run[1], t) && (carriedOut ==> Touches(run[2], t));
    if carriedOut || outer.id != inner.id {
      assert !EndsLastBegun(db, run, 3);
    } else {
      assert run[2] == AbortModify(t, inner.id);
      assert forall k :: 0 <= k < 4 ==> EndsLastBegun(db, run, k);
    }
  }

  /**
   A nested run cannot be replayed: if the inner modification is carried out the outer one writes the error
   line, and if it is aborted the outer one is told of with the wrong row, unless they are of one row.
   */
  lemma NestedIsLost(db: Database, t: uint8, outer: Object, inner: Object, carriedOut: bool)
    requires JustObserved(db) && t in db.tables && t in db.observed
    requires outer.id in db.tables[t] && inner.id in db.tables[t]
    ensures PossibleRun(db, Nested(t, outer, inner, carriedOut))
    ensures Rebuilds(Seen(db), AfterSteps(db, Nested(t, outer, inner, carriedOut)))
       <==> !carriedOut && outer.id == inner.id
  {
    NestedIsPossible(db, t, outer, inner, carriedOut);
    NestedEndsLastBegun(db, t, outer, inner, carriedOut);
    RunRebuildsExactly(db, Nested(t, outer, inner, carriedOut));
    hide *;
  }
}
