/**
 Whole runs over any number of variants: every object is destroyed once and as what it is, and the tagged
 storage behaves like plain values of a sum type.
 */
module VariantRuns {
  import opened Wrappers
  import opened Sequences
  import opened TypeList
  import opened StaticVariant

  type Name = nat

  /**
   Where an assigned value is: outside all variants, the object inside one, or somewhere inside that object,
   with which it dies.  A part may be held by a variant in its turn, such as a child in a recursive one.
   */
  datatype Source = Outside(ty: Type, content: int) | Inside(name: Name) | PartOf(name: Name, ty: Type, content: int)

  /** `Alter` writes to a variant's object through the reference that `get` returns. */
  datatype Step =
    | Construct(name: Name, types: seq<Type>)
    | ConstructFrom(name: Name, types: seq<Type>, ty: Type, content: int)
    | Copy(name: Name, types: seq<Type>, src: Name)
    | Move(name: Name, types: seq<Type>, src: Name)
    | Import(name: Name, types: seq<Type>, src: Name, moving: bool)
    | Assign(name: Name, source: Source)
    | AssignCopy(name: Name, src: Name)
    | AssignMove(name: Name, src: Name)
    | Alter(name: Name, content: int)
    | SetWhich(name: Name, tag: int)
    | Destroy(name: Name)

  /** Every object ever placed, and the variants that are alive. */
  datatype World = World(cells: seq<Cell>, variants: map<Name, Variant>)

  // ----- the discipline

  /** Every variant holds a live object of the type its tag says. */
  ghost predicate AllHold(w: World) {
    forall name :: name in w.variants ==> Holds(w.cells, w.variants[name])
  }

  ghost predicate SlotsDiffer(w: World) {
    forall a, b :: a in w.variants && b in w.variants && a != b ==> w.variants[a].slot != w.variants[b].slot
  }

  predicate DestroyedOnce(cell: Cell) {
    cell.destroyedAs == [cell.ty]
  }

  ghost predicate Owned(w: World, slot: nat) {
    exists name :: name in w.variants && w.variants[name].slot == slot
  }

  /** Every object is alive in a variant, or has been destroyed once, as what it is. */
  ghost predicate NoneLost(w: World) {
    forall i :: 0 <= i < |w.cells| ==> DestroyedOnce(w.cells[i]) || (Alive(w.cells, i) && Owned(w, i))
  }

  ghost predicate Sound(w: World) {
    AllHold(w) && SlotsDiffer(w) && NoneLost(w)
  }

  // ----- what the steps do to the storage

  /** A value read from an object; reading a destroyed one is undefined behaviour. */
  function Read(cells: seq<Cell>, slot: nat): Option<Cell> {
    if Alive(cells, slot) then Some(cells[slot]) else None
  }

  function Put(w: World, name: Name, types: seq<Type>, ty: Type, value: Value): World {
    var (cells, v) := Placed(w.cells, types, ty, value);
    World(cells, w.variants[name := v])
  }

  predicate CanClean(w: World, name: Name) {
    && name in w.variants
    && w.variants[name].slot < |w.cells|
    && Dispatch(w.variants[name].types, w.variants[name].tag).Some?
  }

  /** Destroys the object in a variant, whose storage is then empty. */
  function Vacated(w: World, name: Name): World
    requires CanClean(w, name)
  {
    World(Cleaned(w.cells, w.variants[name]), w.variants - {name})
  }

  /** Takes an object's value, by copy or by move, and puts it into a variant. */
  function Taken(w: World, name: Name, types: seq<Type>, slot: nat, moving: bool): Option<World> {
    match Read(w.cells, slot)
    case None => None
    case Some(cell) =>
      var left := if moving then w.(cells := MovedOut(w.cells, slot)) else w;
      Some(Put(left, name, types, cell.ty, cell.value))
  }

  ghost predicate MayConvert(w: World, name: Name, types: seq<Type>, src: Name) {
    && name !in w.variants && Distinct(types)
    && src in w.variants
    && forall ty :: ty in w.variants[src].types ==> ty in types
  }

  ghost predicate MayAssign(w: World, name: Name, src: Name) {
    name in w.variants && src in w.variants && w.variants[src].types == w.variants[name].types
  }

  /** What the language and the templates let a program do. */
  ghost predicate Allowed(w: World, step: Step) {
    match step
    case Construct(name, types) => name !in w.variants && Distinct(types) && types != []
    case ConstructFrom(name, types, ty, _) => name !in w.variants && Distinct(types) && ty in types
    case Copy(name, types, src) => MayConvert(w, name, types, src)
    case Move(name, types, src) => MayConvert(w, name, types, src)
    case Import(name, types, src, _) => name !in w.variants && Distinct(types) && src in w.variants
    case Assign(name, Outside(ty, _)) => name in w.variants && ty in w.variants[name].types
    case Assign(name, Inside(src)) =>
      && name in w.variants && src in w.variants
      && Alive(w.cells, w.variants[src].slot)
      && w.cells[w.variants[src].slot].ty in w.variants[name].types
    case Assign(name, PartOf(src, ty, _)) =>
      name in w.variants && src in w.variants && Alive(w.cells, w.variants[src].slot) && ty in w.variants[name].types
    case AssignCopy(name, src) => MayAssign(w, name, src)
    case AssignMove(name, src) => MayAssign(w, name, src)
    case Alter(name, _) => name in w.variants
    case SetWhich(name, _) => name in w.variants
    case Destroy(name) => name in w.variants
  }

  /** Assignment from a variant: the old object goes before the new value is read. */
  function Reassigned(w: World, name: Name, src: Name, moving: bool): Option<World>
    requires CanClean(w, name) && src in w.variants
  {
    Taken(Vacated(w, name), name, w.variants[name].types, w.variants[src].slot, moving)
  }

  /** The world after a step; `None` if the step reads an object that has been destroyed. */
  function Done(w: World, step: Step): Option<World>
    requires Sound(w) && Allowed(w, step)
  {
    match step
    case Construct(name, types) => Some(Put(w, name, types, types[0], DefaultOf(types[0])))
    case ConstructFrom(name, types, ty, content) => Some(Put(w, name, types, ty, Given(content)))
    case Copy(name, types, src) => Taken(w, name, types, w.variants[src].slot, false)
    case Move(name, types, src) => Taken(w, name, types, w.variants[src].slot, true)
    case Import(name, types, src, moving) =>
      if w.cells[w.variants[src].slot].ty in types then Taken(w, name, types, w.variants[src].slot, moving) else Some(w)
    case Assign(name, Outside(ty, content)) =>
      Some(Put(Vacated(w, name), name, w.variants[name].types, ty, Given(content)))
    case Assign(name, Inside(src)) => Reassigned(w, name, src, false)
    case Assign(name, PartOf(src, ty, content)) =>
      var left := Vacated(w, name);
      if Read(left.cells, w.variants[src].slot).None? then None
      else Some(Put(left, name, w.variants[name].types, ty, Given(content)))
    case AssignCopy(name, src) => if name == src then Some(w) else Reassigned(w, name, src, false)
    case AssignMove(name, src) => if name == src then Some(w) else Reassigned(w, name, src, true)
    case Alter(name, content) => Some(w.(cells := Revalued(w.cells, w.variants[name].slot, Given(content))))
    case SetWhich(name, tag) =>
      var types := w.variants[name].types;
      if Dispatch(types, tag).None? then Some(w)
      else Some(Put(Vacated(w, name), name, types, types[tag], DefaultOf(types[tag])))
    case Destroy(name) => Some(Vacated(w, name))
  }

  // ----- the same steps on plain values

  /** A value of a sum type: one of its types, and a value of that type. */
  datatype Holding = Holding(types: seq<Type>, ty: Type, value: Value)

  function Abstract(w: World): map<Name, Holding>
    requires Sound(w)
  {
    map name | name in w.variants ::
      Holding(w.variants[name].types, w.cells[w.variants[name].slot].ty, w.cells[w.variants[name].slot].value)
  }

  /** The value of `src` copied or moved to `name`. */
  function Transferred(h: map<Name, Holding>, name: Name, types: seq<Type>, src: Name, moving: bool): map<Name, Holding>
    requires src in h
  {
    (if moving then h[src := h[src].(value := MovedFrom)] else h)[name := Holding(types, h[src].ty, h[src].value)]
  }

  /** What each step means: nothing is said of tags, storage, placing or destroying. */
  ghost function Meaning(h: map<Name, Holding>, step: Step): map<Name, Holding> {
    match step
    case Construct(name, types) => if types == [] then h else h[name := Holding(types, types[0], DefaultOf(types[0]))]
    case ConstructFrom(name, types, ty, content) => h[name := Holding(types, ty, Given(content))]
    case Copy(name, types, src) => if src !in h then h else Transferred(h, name, types, src, false)
    case Move(name, types, src) => if src !in h then h else Transferred(h, name, types, src, true)
    case Import(name, types, src, moving) =>
      if src !in h || h[src].ty !in types then h else Transferred(h, name, types, src, moving)
    case Assign(name, Outside(ty, content)) =>
      if name !in h then h else h[name := Holding(h[name].types, ty, Given(content))]
    case Assign(name, Inside(src)) =>
      if name !in h || src !in h then h else Transferred(h, name, h[name].types, src, false)
    case Assign(name, PartOf(_, ty, content)) =>
      if name !in h then h else h[name := Holding(h[name].types, ty, Given(content))]
    case AssignCopy(name, src) =>
      if name !in h || src !in h then h else Transferred(h, name, h[name].types, src, false)
    case AssignMove(name, src) =>
      if name !in h || src !in h || name == src then h else Transferred(h, name, h[name].types, src, true)
    case Alter(name, content) => if name !in h then h else h[name := h[name].(value := Given(content))]
    case SetWhich(name, tag) =>
      if name !in h || tag < 0 || tag >= |h[name].types| then h
      else h[name := Holding(h[name].types, h[name].types[tag], DefaultOf(h[name].types[tag]))]
    case Destroy(name) => h - {name}
  }

  // ----- the storage keeps the discipline and means the same

  /** Destroying a variant's object leaves the other variants theirs. */
  lemma VacatedHolds(w: World, name: Name)
    requires Sound(w) && name in w.variants
    ensures CanClean(w, name) && AllHold(Vacated(w, name))
    ensures DestroyedOnce(Vacated(w, name).cells[w.variants[name].slot])
    ensures forall other :: other in w.variants && other != name ==>
      Vacated(w, name).cells[w.variants[other].slot] == w.cells[w.variants[other].slot]
  {
    assert Holds(w.cells, w.variants[name]);
    forall other | other in w.variants && other != name
      ensures Vacated(w, name).cells[w.variants[other].slot] == w.cells[w.variants[other].slot]
      ensures Holds(Vacated(w, name).cells, w.variants[other])
    {
      assert Holds(w.cells, w.variants[other]);
    }
  }

  lemma VacatedLosesNone(w: World, name: Name)
    requires NoneLost(w) && CanClean(w, name) && DestroyedOnce(Vacated(w, name).cells[w.variants[name].slot])
    ensures NoneLost(Vacated(w, name))
  {
    var slot, next := w.variants[name].slot, Vacated(w, name);
    forall i | 0 <= i < |next.cells|
      ensures DestroyedOnce(next.cells[i]) || (Alive(next.cells, i) && Owned(next, i))
    {
      if i != slot && !DestroyedOnce(w.cells[i]) {
        var owner :| owner in w.variants && w.variants[owner].slot == i;
        assert owner in next.variants && next.variants[owner].slot == i;
      }
    }
  }

  lemma VacatedLeaves(w: World, name: Name)
    requires CanClean(w, name)
    ensures Vacated(w, name).variants == w.variants - {name}
  {
  }

  lemma VacatedIsSound(w: World, name: Name)
    requires Sound(w) && name in w.variants
    ensures CanClean(w, name) && Sound(Vacated(w, name))
    ensures Abstract(Vacated(w, name)) == Abstract(w) - {name}
  {
    hide NoneLost, CanClean, Vacated;
    VacatedHolds(w, name);
    VacatedLosesNone(w, name);
    VacatedLeaves(w, name);
    hide AllHold;
  }

  lemma PutHolds(w: World, name: Name, types: seq<Type>, ty: Type, value: Value)
    requires AllHold(w) && Distinct(types) && ty in types
    ensures AllHold(Put(w, name, types, ty, value))
  {
    var next := Put(w, name, types, ty, value);
    TagsAreExact(types);
    forall other | other in next.variants
      ensures Holds(next.cells, next.variants[other])
    {
      if other != name {
        assert Holds(w.cells, w.variants[other]);
      }
    }
  }

  lemma PutLosesNone(w: World, name: Name, types: seq<Type>, ty: Type, value: Value)
    requires NoneLost(w) && name !in w.variants
    ensures NoneLost(Put(w, name, types, ty, value))
  {
    var next := Put(w, name, types, ty, value);
    assert next.variants[name].slot == |w.cells|;
    forall i | 0 <= i < |next.cells|
      ensures DestroyedOnce(next.cells[i]) || (Alive(next.cells, i) && Owned(next, i))
    {
      if i < |w.cells| && !DestroyedOnce(w.cells[i]) {
        var owner :| owner in w.variants && w.variants[owner].slot == i;
        assert owner in next.variants && next.variants[owner].slot == i;
      }
    }
  }

  lemma SlotsExist(w: World)
    requires AllHold(w)
    ensures forall name :: name in w.variants ==> w.variants[name].slot < |w.cells|
  {
    forall name | name in w.variants
      ensures w.variants[name].slot < |w.cells|
    {
      assert Holds(w.cells, w.variants[name]);
    }
  }

  lemma PutSlotsDiffer(w: World, name: Name, types: seq<Type>, ty: Type, value: Value)
    requires AllHold(w) && SlotsDiffer(w) && name !in w.variants
    ensures SlotsDiffer(Put(w, name, types, ty, value))
  {
    SlotsExist(w);
    hide AllHold;
  }

  lemma PutIsSound(w: World, name: Name, types: seq<Type>, ty: Type, value: Value)
    requires Sound(w) && name !in w.variants && Distinct(types) && ty in types
    ensures Sound(Put(w, name, types, ty, value))
    ensures Abstract(Put(w, name, types, ty, value)) == Abstract(w)[name := Holding(types, ty, value)]
  {
    hide AllHold, NoneLost, SlotsDiffer;
    PutHolds(w, name, types, ty, value);
    PutLosesNone(w, name, types, ty, value);
    SlotsExist(w);
    PutSlotsDiffer(w, name, types, ty, value);
  }

  lemma RevaluedHolds(w: World, slot: nat, value: Value)
    requires AllHold(w) && NoneLost(w) && slot < |w.cells|
    ensures var next := w.(cells := Revalued(w.cells, slot, value)); AllHold(next) && NoneLost(next)
  {
    var next := w.(cells := Revalued(w.cells, slot, value));
    forall name | name in next.variants
      ensures Holds(next.cells, next.variants[name])
    {
      assert Holds(w.cells, w.variants[name]);
    }
    forall i | 0 <= i < |next.cells|
      ensures DestroyedOnce(next.cells[i]) || (Alive(next.cells, i) && Owned(next, i))
    {
      assert DestroyedOnce(w.cells[i]) || (Alive(w.cells, i) && Owned(w, i));
    }
  }

  lemma RevaluedIsSound(w: World, name: Name, value: Value)
    requires Sound(w) && name in w.variants
    ensures w.variants[name].slot < |w.cells|
    ensures var next := w.(cells := Revalued(w.cells, w.variants[name].slot, value));
      && Sound(next)
      && Abstract(next) == Abstract(w)[name := Abstract(w)[name].(value := value)]
  {
    hide AllHold, NoneLost;
    SlotsExist(w);
    RevaluedHolds(w, w.variants[name].slot, value);
  }

  lemma TakenIsSound(w: World, name: Name, types: seq<Type>, src: Name, moving: bool)
    requires Sound(w) && name !in w.variants && src in w.variants && Distinct(types)
    requires w.cells[w.variants[src].slot].ty in types
    ensures var r := Taken(w, name, types, w.variants[src].slot, moving);
      && r.Some? && Sound(r.value)
      && Abstract(r.value) == Transferred(Abstract(w), name, types, src, moving)
  {
    var slot := w.variants[src].slot;
    var cell := w.cells[slot];
    assert Holds(w.cells, w.variants[src]);
    if moving {
      RevaluedIsSound(w, src, MovedFrom);
      PutIsSound(w.(cells := MovedOut(w.cells, slot)), name, types, cell.ty, cell.value);
    } else {
      PutIsSound(w, name, types, cell.ty, cell.value);
    }
  }

  lemma ReplacedOver<V>(m: map<Name, V>, name: Name, value: V)
    ensures (m - {name})[name := value] == m[name := value]
  {
  }

  lemma ReplacedIsSound(w: World, name: Name, ty: Type, value: Value)
    requires Sound(w) && name in w.variants && ty in w.variants[name].types
    ensures CanClean(w, name)
    ensures var next := Put(Vacated(w, name), name, w.variants[name].types, ty, value);
      && Sound(next)
      && Abstract(next) == Abstract(w)[name := Holding(w.variants[name].types, ty, value)]
  {
    var types := w.variants[name].types;
    assert Holds(w.cells, w.variants[name]);
    VacatedIsSound(w, name);
    PutIsSound(Vacated(w, name), name, types, ty, value);
    ReplacedOver(Abstract(w), name, Holding(types, ty, value));
  }

  lemma TransferredOver(h: map<Name, Holding>, name: Name, types: seq<Type>, src: Name, moving: bool)
    requires src in h && name != src
    ensures Transferred(h - {name}, name, types, src, moving) == Transferred(h, name, types, src, moving)
  {
  }

  /** Assignment is defined, and right, exactly between different variants. */
  lemma ReassignedIsSound(w: World, name: Name, src: Name, moving: bool)
    requires Sound(w) && name in w.variants && src in w.variants
    requires w.cells[w.variants[src].slot].ty in w.variants[name].types
    ensures CanClean(w, name)
    ensures var r := Reassigned(w, name, src, moving);
      && (r.None? <==> name == src)
      && (r.Some? ==>
            && Sound(r.value)
            && Abstract(r.value) == Transferred(Abstract(w), name, w.variants[name].types, src, moving))
  {
    var types := w.variants[name].types;
    assert Holds(w.cells, w.variants[name]);
    VacatedIsSound(w, name);
    if name != src {
      TakenIsSound(Vacated(w, name), name, types, src, moving);
      TransferredOver(Abstract(w), name, types, src, moving);
    }
  }

  /** Assigning a variant the object it holds itself, or a part of it: that is destroyed before it is read. */
  predicate AssignsOwnObject(step: Step) {
    step.Assign? && !step.source.Outside? && step.source.name == step.name
  }

  /** Once a variant's object is destroyed, the objects still alive are those of the others. */
  lemma AliveIfOther(w: World, name: Name, src: Name)
    requires Sound(w) && name in w.variants && src in w.variants
    ensures CanClean(w, name)
    ensures Alive(Vacated(w, name).cells, w.variants[src].slot) <==> name != src
  {
    VacatedHolds(w, name);
    SlotsExist(w);
    assert Holds(w.cells, w.variants[src]);
  }

  /** What is wanted of a step. */
  ghost predicate StepGoesWell(w: World, step: Step)
    requires Sound(w) && Allowed(w, step)
  {
    && (Done(w, step).None? <==> AssignsOwnObject(step))
    && (Done(w, step).Some? ==>
          Sound(Done(w, step).value) && Abstract(Done(w, step).value) == Meaning(Abstract(w), step))
  }

  predicate Constructs(step: Step) {
    step.Construct? || step.ConstructFrom? || step.Copy? || step.Move? || step.Import?
  }

  lemma ConversionIsSound(w: World, name: Name, types: seq<Type>, src: Name, moving: bool)
    requires Sound(w) && MayConvert(w, name, types, src)
    ensures var r := Taken(w, name, types, w.variants[src].slot, moving);
      && r.Some? && Sound(r.value)
      && Abstract(r.value) == Transferred(Abstract(w), name, types, src, moving)
  {
    assert Holds(w.cells, w.variants[src]);
    TakenIsSound(w, name, types, src, moving);
  }

  lemma ConstructionIsSound(w: World, step: Step)
    requires Sound(w) && Allowed(w, step) && Constructs(step)
    ensures StepGoesWell(w, step)
  {
    match step
    case Construct(name, types) => PutIsSound(w, name, types, types[0], DefaultOf(types[0]));
    case ConstructFrom(name, types, ty, content) => PutIsSound(w, name, types, ty, Given(content));
    case Copy(name, types, src) => ConversionIsSound(w, name, types, src, false);
    case Move(name, types, src) => ConversionIsSound(w, name, types, src, true);
    case Import(name, types, src, moving) =>
      if w.cells[w.variants[src].slot].ty in types {
        TakenIsSound(w, name, types, src, moving);
      }
  }

  lemma AssignmentIsSound(w: World, name: Name, src: Name, moving: bool)
    requires Sound(w) && MayAssign(w, name, src)
    ensures name == src ==> Transferred(Abstract(w), name, w.variants[name].types, src, false) == Abstract(w)
    ensures name != src ==>
      && CanClean(w, name) && Reassigned(w, name, src, moving).Some?
      && Sound(Reassigned(w, name, src, moving).value)
      && Abstract(Reassigned(w, name, src, moving).value)
         == Transferred(Abstract(w), name, w.variants[name].types, src, moving)
  {
    assert Holds(w.cells, w.variants[src]);
    if name != src {
      ReassignedIsSound(w, name, src, moving);
    } else {
      assert Abstract(w)[name := Abstract(w)[name]] == Abstract(w);
    }
  }

  lemma ChangeIsSound(w: World, step: Step)
    requires Sound(w) && Allowed(w, step) && !Constructs(step)
    ensures StepGoesWell(w, step)
  {
    hide Put, Taken, Vacated, Reassigned, Transferred, AllHold, SlotsDiffer, NoneLost;
    match step
    case Assign(name, Outside(ty, content)) => ReplacedIsSound(w, name, ty, Given(content));
    case Assign(name, Inside(src)) => ReassignedIsSound(w, name, src, false);
    case Assign(name, PartOf(src, ty, content)) =>
      AliveIfOther(w, name, src);
      ReplacedIsSound(w, name, ty, Given(content));
    case AssignCopy(name, src) => AssignmentIsSound(w, name, src, false);
    case AssignMove(name, src) => AssignmentIsSound(w, name, src, true);
    case Alter(name, content) => RevaluedIsSound(w, name, Given(content));
    case SetWhich(name, tag) =>
      var types := w.variants[name].types;
      if Dispatch(types, tag).Some? {
        ReplacedIsSound(w, name, types[tag], DefaultOf(types[tag]));
      }
    case Destroy(name) => VacatedIsSound(w, name);
  }

  /**
   A step is defined unless it assigns a variant its own object; it keeps every object alive in one
   variant or destroyed once as what it is; and it does to the held values what it means.
   */
  lemma StepIsSound(w: World, step: Step)
    requires Sound(w) && Allowed(w, step)
    ensures StepGoesWell(w, step)
  {
    if Constructs(step) {
      ConstructionIsSound(w, step);
    } else {
      ChangeIsSound(w, step);
    }
  }

  lemma AssignmentMeans(h: map<Name, Holding>, name: Name, src: Name, moving: bool)
    requires name in h && src in h && name != src
    ensures var next := Meaning(h, if moving then AssignMove(name, src) else AssignCopy(name, src));
      && next.Keys == h.Keys
      && next[name].ty == h[src].ty && next[name].value == h[src].value
      && next[src].ty == h[src].ty && next[src].value == (if moving then MovedFrom else h[src].value)
      && forall other :: other in h && other != name && other != src ==> next[other] == h[other]
  {
  }

  lemma AbstractHas(w: World)
    requires Sound(w)
    ensures Abstract(w).Keys == w.variants.Keys
  {
    hide Sound;
  }

  /** Copying from another variant leaves the source as it was; moving leaves a moved-from object of its type. */
  lemma AssignmentGives(w: World, name: Name, src: Name, moving: bool)
    requires Sound(w) && MayAssign(w, name, src) && name != src
    ensures var step := if moving then AssignMove(name, src) else AssignCopy(name, src);
      && Done(w, step).Some? && Sound(Done(w, step).value)
      && var h, next := Abstract(w), Abstract(Done(w, step).value);
        && next.Keys == h.Keys
        && next[name].ty == h[src].ty && next[name].value == h[src].value
        && next[src].ty == h[src].ty && next[src].value == (if moving then MovedFrom else h[src].value)
        && forall other :: other in h && other != name && other != src ==> next[other] == h[other]
  {
    AssignmentMeans(Abstract(w), name, src, moving);
    AbstractHas(w);
    StepIsSound(w, if moving then AssignMove(name, src) else AssignCopy(name, src));
    hide Done, Sound, Abstract, Meaning, Transferred;
  }

  /** A variant gets the cells and the new state that a method of the class leaves. */
  predicate Gets(w: World, next: Option<World>, name: Name, left: (seq<Cell>, Variant)) {
    next == Some(World(left.0, w.variants[name := left.1]))
  }

  ghost predicate AssignedByMethod(w: World, name: Name, src: Name, moving: bool, next: Option<World>)
    requires Sound(w) && name in w.variants && src in w.variants
  {
    var v, slot := w.variants[name], w.variants[src].slot;
    var cells := if moving then MovedOut(Cleaned(w.cells, v), slot) else Cleaned(w.cells, v);
    Gets(w, next, name, Placed(cells, v.types, w.cells[slot].ty, w.cells[slot].value))
  }

  /** The storage is left as the method of the class leaves it that the step stands for, which may do nothing. */
  ghost predicate DoneByMethods(w: World, step: Step, next: Option<World>)
    requires Sound(w) && Allowed(w, step)
  {
    match step
    case Construct(name, types) => Gets(w, next, name, Placed(w.cells, types, types[0], DefaultOf(types[0])))
    case ConstructFrom(name, types, ty, content) => Gets(w, next, name, Placed(w.cells, types, ty, Given(content)))
    case Copy(name, types, src) =>
      var cell := w.cells[w.variants[src].slot];
      Gets(w, next, name, Placed(w.cells, types, cell.ty, cell.value))
    case Move(name, types, src) =>
      var slot := w.variants[src].slot;
      Gets(w, next, name, Placed(MovedOut(w.cells, slot), types, w.cells[slot].ty, w.cells[slot].value))
    case Import(name, types, src, moving) =>
      var slot := w.variants[src].slot;
      var cells := if moving then MovedOut(w.cells, slot) else w.cells;
      if w.cells[slot].ty !in types then next == Some(w)
      else Gets(w, next, name, Placed(cells, types, w.cells[slot].ty, w.cells[slot].value))
    case Assign(name, Outside(ty, content)) =>
      var v := w.variants[name];
      Gets(w, next, name, Placed(Cleaned(w.cells, v), v.types, ty, Given(content)))
    case Assign(name, Inside(src)) => name != src ==> AssignedByMethod(w, name, src, false, next)
    case Assign(name, PartOf(src, ty, content)) =>
      var v := w.variants[name];
      name != src ==> Gets(w, next, name, Placed(Cleaned(w.cells, v), v.types, ty, Given(content)))
    case AssignCopy(name, src) => if name == src then next == Some(w) else AssignedByMethod(w, name, src, false, next)
    case AssignMove(name, src) => if name == src then next == Some(w) else AssignedByMethod(w, name, src, true, next)
    case Alter(name, content) =>
      var slot := w.variants[name].slot;
      next == Some(World(w.cells[slot := w.cells[slot].(value := Given(content))], w.variants))
    case SetWhich(name, tag) =>
      var v := w.variants[name];
      if tag < 0 || tag >= |v.types| then next == Some(w)
      else Gets(w, next, name, Placed(Cleaned(w.cells, v), v.types, v.types[tag], DefaultOf(v.types[tag])))
    case Destroy(name) => next == Some(World(Cleaned(w.cells, w.variants[name]), w.variants - {name}))
  }

  lemma PutBackGets(w: World, name: Name, types: seq<Type>, ty: Type, value: Value)
    requires CanClean(w, name)
    ensures Gets(w, Some(Put(Vacated(w, name), name, types, ty, value)), name,
                 Placed(Cleaned(w.cells, w.variants[name]), types, ty, value))
  {
    ReplacedOver(w.variants, name, Placed(Cleaned(w.cells, w.variants[name]), types, ty, value).1);
  }

  lemma ReassignedByMethod(w: World, name: Name, src: Name, moving: bool)
    requires Sound(w) && name in w.variants && src in w.variants && name != src
    ensures CanClean(w, name) && AssignedByMethod(w, name, src, moving, Reassigned(w, name, src, moving))
  {
    AliveIfOther(w, name, src);
    VacatedHolds(w, name);
    ReplacedOver(w.variants, name, Reassigned(w, name, src, moving).value.variants[name]);
    hide Sound, AllHold, NoneLost, SlotsDiffer, Alive;
  }

  lemma ChangesAreMethods(w: World, step: Step)
    requires Sound(w) && Allowed(w, step)
    requires step.Assign? || step.AssignCopy? || step.AssignMove? || step.SetWhich?
    ensures DoneByMethods(w, step, Done(w, step))
  {
    hide Put, Vacated, Reassigned, AssignedByMethod, Gets, Placed, Cleaned, AllHold, NoneLost, SlotsDiffer;
    var name, types := step.name, w.variants[step.name].types;
    VacatedHolds(w, name);
    match step
    case Assign(_, Outside(ty, content)) => PutBackGets(w, name, types, ty, Given(content));
    case Assign(_, Inside(src)) =>
      if name != src {
        ReassignedByMethod(w, name, src, false);
      }
    case Assign(_, PartOf(src, ty, content)) =>
      AliveIfOther(w, name, src);
      PutBackGets(w, name, types, ty, Given(content));
    case AssignCopy(_, src) =>
      if name != src {
        ReassignedByMethod(w, name, src, false);
      }
    case AssignMove(_, src) =>
      if name != src {
        ReassignedByMethod(w, name, src, true);
      }
    case SetWhich(_, tag) =>
      if 0 <= tag < |types| {
        PutBackGets(w, name, types, types[tag], DefaultOf(types[tag]));
      }
  }

  /** Each step of a run does what the methods of the class do. */
  lemma StepsAreMethods(w: World, step: Step)
    requires Sound(w) && Allowed(w, step)
    ensures DoneByMethods(w, step, Done(w, step))
  {
    SlotsExist(w);
    if step.Assign? || step.AssignCopy? || step.AssignMove? || step.SetWhich? {
      ChangesAreMethods(w, step);
    } else {
      hide AllHold, NoneLost, SlotsDiffer, Placed, Cleaned, IndexOf;
      if step.Copy? || step.Move? || step.Import? {
        assert Holds(w.cells, w.variants[step.src]);
      }
    }
  }

  // ----- runs

  /** The world after a step that is defined. */
  function Next(w: World, step: Step): (r: World)
    requires Sound(w) && Allowed(w, step) && !AssignsOwnObject(step)
    ensures Sound(r)
  {
    StepIsSound(w, step);
    Done(w, step).value
  }

  ghost predicate AllowedRun(w: World, steps: seq<Step>)
    requires Sound(w)
    decreases |steps|
  {
    steps == [] ||
    (Allowed(w, steps[0]) && !AssignsOwnObject(steps[0]) && AllowedRun(Next(w, steps[0]), steps[1..]))
  }

  function AfterRun(w: World, steps: seq<Step>): (r: World)
    requires Sound(w) && AllowedRun(w, steps)
    ensures Sound(r)
    decreases |steps|
  {
    if steps == [] then w else AfterRun(Next(w, steps[0]), steps[1..])
  }

  ghost function MeaningOfRun(h: map<Name, Holding>, steps: seq<Step>): map<Name, Holding>
    decreases |steps|
  {
    if steps == [] then h else MeaningOfRun(Meaning(h, steps[0]), steps[1..])
  }

  /** The storage refines plain values over any run. */
  lemma {:induction false} RunMeansTheSame(w: World, steps: seq<Step>)
    requires Sound(w) && AllowedRun(w, steps)
    ensures Abstract(AfterRun(w, steps)) == MeaningOfRun(Abstract(w), steps)
    decreases |steps|
  {
    if steps != [] {
      StepIsSound(w, steps[0]);
      RunMeansTheSame(Next(w, steps[0]), steps[1..]);
    }
  }

  /** Once all variants are gone, every object was destroyed exactly once, as the type that was placed. */
  lemma NothingLeaks(steps: seq<Step>)
    requires AllowedRun(World([], map[]), steps) && AfterRun(World([], map[]), steps).variants == map[]
    ensures forall i :: 0 <= i < |AfterRun(World([], map[]), steps).cells| ==>
      DestroyedOnce(AfterRun(World([], map[]), steps).cells[i])
  {
    var w := AfterRun(World([], map[]), steps);
    forall i | 0 <= i < |w.cells|
      ensures DestroyedOnce(w.cells[i])
    {
      assert !Owned(w, i);
    }
  }

  /** In a sound world the tag is the position of the held type. */
  lemma TagIsPosition(w: World, name: Name)
    requires Sound(w) && name in w.variants
    ensures w.variants[name].tag == IndexOf(w.variants[name].types, Abstract(w)[name].ty)
  {
    var v := w.variants[name];
    assert Holds(w.cells, v);
    TagsAreExact(v.types);
    assert At(v.types, v.tag) == Abstract(w)[name].ty;
  }

  /** What converting to more types and importing back means: the same value twice over. */
  lemma ImportBackMeaning(h: map<Name, Holding>, v: Name, wide: Name, back: Name, types: seq<Type>)
    requires v in h && wide !in h && back !in h && wide != back && h[v].ty in h[v].types
    ensures var h1 := Meaning(h, Copy(wide, types, v));
      wide in h1 && h1[wide].ty == h[v].ty &&
      Meaning(h1, Import(back, h[v].types, wide, false)) == h[wide := Holding(types, h[v].ty, h[v].value)][back := h[v]]
  {
  }

  /** Converting to more types and importing back gives the same tag and the same value, and alters nothing else. */
  lemma ImportBack(w: World, v: Name, wide: Name, back: Name, types: seq<Type>)
    returns (w1: World, w2: World)
    requires Sound(w) && v in w.variants && wide !in w.variants && back !in w.variants && wide != back
    requires Distinct(types) && forall ty :: ty in w.variants[v].types ==> ty in types
    ensures Allowed(w, Copy(wide, types, v)) && Done(w, Copy(wide, types, v)) == Some(w1) && Sound(w1)
    ensures var importing := Import(back, w.variants[v].types, wide, false);
      Allowed(w1, importing) && Done(w1, importing) == Some(w2) && Sound(w2)
    ensures back in w2.variants && w2.variants[back].tag == w.variants[v].tag
    ensures Abstract(w2) == Abstract(w)[wide := Holding(types, Abstract(w)[v].ty, Abstract(w)[v].value)]
                                       [back := Abstract(w)[v]]
  {
    var own := w.variants[v].types;
    assert Holds(w.cells, w.variants[v]);
    StepIsSound(w, Copy(wide, types, v));
    w1 := Done(w, Copy(wide, types, v)).value;
    ImportBackMeaning(Abstract(w), v, wide, back, types);
    assert wide in Abstract(w1);
    StepIsSound(w1, Import(back, own, wide, false));
    w2 := Done(w1, Import(back, own, wide, false)).value;
    TagIsPosition(w, v);
    assert back in Abstract(w2);
    TagIsPosition(w2, back);
    assert Abstract(w2)[back] == Abstract(w)[v];
  }

  // ----- comparisons

  /** `==` between variants of the same types: the tags first, then the objects of that type. */
  function Equal(w: World, a: Name, b: Name): bool
    requires Sound(w) && a in w.variants && b in w.variants
  {
    var u, v := w.variants[a], w.variants[b];
    u.tag == v.tag && w.cells[u.slot].value == w.cells[v.slot].value
  }

  /** `<` between variants of the same types, from `<` between objects of one type. */
  function Less(w: World, a: Name, b: Name, less: (Value, Value) -> bool): bool
    requires Sound(w) && a in w.variants && b in w.variants
  {
    var u, v := w.variants[a], w.variants[b];
    u.tag < v.tag || (u.tag == v.tag && less(w.cells[u.slot].value, w.cells[v.slot].value))
  }

  /** Variants are equal exactly if they hold the same value of the same type. */
  lemma EqualIsSameHolding(w: World, a: Name, b: Name)
    requires Sound(w) && MayAssign(w, a, b)
    ensures Equal(w, a, b) <==> Abstract(w)[a] == Abstract(w)[b]
  {
    TagIsPosition(w, a);
    TagIsPosition(w, b);
    assert Holds(w.cells, w.variants[a]) && Holds(w.cells, w.variants[b]);
  }

  /** Of different types the one that is earlier in the list is less; of one type the objects decide. */
  lemma LessIsByTypeThenObject(w: World, a: Name, b: Name, less: (Value, Value) -> bool)
    requires Sound(w) && MayAssign(w, a, b)
    ensures var x, y := Abstract(w)[a], Abstract(w)[b];
      if x.ty == y.ty then Less(w, a, b, less) <==> less(x.value, y.value)
      else Less(w, a, b, less) <==> exists i, j :: 0 <= i < j < |x.types| && x.types[i] == x.ty && x.types[j] == y.ty
  {
    TagIsPosition(w, a);
    TagIsPosition(w, b);
    assert Holds(w.cells, w.variants[a]) && Holds(w.cells, w.variants[b]);
    var x, y := Abstract(w)[a], Abstract(w)[b];
    var i, j := w.variants[a].tag, w.variants[b].tag;
    assert x.types[i] == x.ty && x.types[j] == y.ty;
  }

  ghost predicate StrictTotalOrder(less: (Value, Value) -> bool) {
    && (forall x, y :: (less(x, y) || less(y, x)) <==> x != y)
    && (forall x, y :: !(less(x, y) && less(y, x)))
    && (forall x, y, z :: less(x, y) && less(y, z) ==> less(x, z))
  }

  /** If objects are strictly and totally ordered, so are variants, in agreement with `==`. */
  lemma LessIsStrictTotalOrder(w: World, a: Name, b: Name, c: Name, less: (Value, Value) -> bool)
    requires Sound(w) && MayAssign(w, a, b) && MayAssign(w, b, c) && StrictTotalOrder(less)
    ensures (Less(w, a, b, less) || Less(w, b, a, less)) <==> Abstract(w)[a] != Abstract(w)[b]
    ensures !(Less(w, a, b, less) && Less(w, b, a, less))
    ensures Less(w, a, b, less) && Less(w, b, c, less) ==> Less(w, a, c, less)
  {
    EqualIsSameHolding(w, a, b);
  }
}
