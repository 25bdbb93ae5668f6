/**
 A variant of a fixed list of types: a tag, and storage in which one object at a time is placed and
 destroyed by hand.
 */
module StaticVariant {
  import opened Wrappers
  import opened Sequences
  import opened TypeList

  type Type = nat

  datatype Value = DefaultOf(of: Type) | Given(content: int) | MovedFrom

  /**
   One object that was ever placed in some variant's storage, with the types as which it was destroyed.
   An object is never placed twice, so its cell stands for its lifetime, not for the bytes it lived in.
   */
  datatype Cell = Cell(ty: Type, value: Value, destroyedAs: seq<Type>)

  /** A variant: its list of types, its tag, and the cell of the object placed last in its storage. */
  datatype Variant = Variant(types: seq<Type>, tag: int, slot: nat)

  predicate Alive(cells: seq<Cell>, slot: nat) {
    slot < |cells| && cells[slot].destroyedAs == []
  }

  /** The variant's storage has a live object of the type that the tag says. */
  ghost predicate Holds(cells: seq<Cell>, v: Variant) {
    && Distinct(v.types)
    && Alive(cells, v.slot)
    && Dispatch(v.types, v.tag) == Some(cells[v.slot].ty)
  }

  /** Placing an object of a listed type. */
  function Placed(cells: seq<Cell>, types: seq<Type>, ty: Type, value: Value): (seq<Cell>, Variant) {
    (cells + [Cell(ty, value, [])], Variant(types, IndexOf(types, ty), |cells|))
  }

  /** Destroying the object in a variant's storage as the type that the tag says. */
  function Cleaned(cells: seq<Cell>, v: Variant): seq<Cell>
    requires v.slot < |cells| && Dispatch(v.types, v.tag).Some?
  {
    var cell := cells[v.slot];
    cells[v.slot := cell.(destroyedAs := cell.destroyedAs + [Dispatch(v.types, v.tag).value])]
  }

  /** An object is given another value. */
  function Revalued(cells: seq<Cell>, slot: nat, value: Value): seq<Cell>
    requires slot < |cells|
  {
    cells[slot := cells[slot].(value := value)]
  }

  /** The object a move leaves behind. */
  function MovedOut(cells: seq<Cell>, slot: nat): seq<Cell>
    requires slot < |cells|
  {
    Revalued(cells, slot, MovedFrom)
  }

  class Memory {
    var cells: seq<Cell>

    constructor ()
      ensures cells == []
    {
      cells := [];
    }
  }

  class StaticVariant {
    const types: seq<Type>
    const memory: Memory
    var tag: int
    var slot: nat

    ghost function View(): Variant
      reads this
    {
      Variant(types, tag, slot)
    }

    ghost predicate Live()
      reads this, memory
    {
      Holds(memory.cells, View())
    }

    method Init(ty: Type, value: Value)
      requires ty in types
      modifies this, memory
      ensures (memory.cells, View()) == Placed(old(memory.cells), types, ty, value)
    {
      tag := IndexOf(types, ty);
      slot := |memory.cells|;
      memory.cells := memory.cells + [Cell(ty, value, [])];
    }

    /** Throws, and changes nothing, if the tag selects no type. */
    method InitFromTag(newTag: int) returns (threw: bool)
      requires Distinct(types)
      modifies this, memory
      ensures threw <==> Dispatch(types, newTag) == None
      ensures threw ==> View() == old(View()) && memory.cells == old(memory.cells)
      ensures !threw ==>
        (memory.cells, View()) == Placed(old(memory.cells), types, types[newTag], DefaultOf(types[newTag]))
    {
      if newTag < 0 || newTag >= |types| {
        return true;
      }
      TagsAreExact(types);
      assert At(types, newTag) == types[newTag];
      tag := newTag;
      slot := |memory.cells|;
      memory.cells := memory.cells + [Cell(types[newTag], DefaultOf(types[newTag]), [])];
      return false;
    }

    method Clean()
      requires Live()
      modifies memory
      ensures memory.cells == Cleaned(old(memory.cells), View())
    {
      var selected := Dispatch(types, tag).value;
      var cell := memory.cells[slot];
      memory.cells := memory.cells[slot := cell.(destroyedAs := cell.destroyedAs + [selected])];
    }

    /** The stored object, if it is of the given type; the original throws if not. */
    method Get(ty: Type) returns (value: Option<Value>)
      requires Live() && ty in types
      ensures value == if memory.cells[slot].ty == ty then Some(memory.cells[slot].value) else None
    {
      TagsAreExact(types);
      assert At(types, tag) == types[tag] && types[IndexOf(types, ty)] == ty;
      if tag == IndexOf(types, ty) {
        value := Some(memory.cells[slot].value);
      } else {
        value := None;
      }
    }

    constructor Default(types: seq<Type>, memory: Memory)
      requires Distinct(types) && types != []
      modifies memory
      ensures this.types == types && this.memory == memory
      ensures (memory.cells, View()) == Placed(old(memory.cells), types, types[0], DefaultOf(types[0]))
    {
      this.types, this.memory, tag, slot := types, memory, 0, 0;
      new;
      var threw := InitFromTag(0);
    }

    constructor FromValue(types: seq<Type>, memory: Memory, ty: Type, value: Value)
      requires ty in types
      modifies memory
      ensures this.types == types && this.memory == memory
      ensures (memory.cells, View()) == Placed(old(memory.cells), types, ty, value)
    {
      this.types, this.memory, tag, slot := types, memory, 0, 0;
      new;
      Init(ty, value);
    }

    /** Copies from a variant of the same types, or of some of them. */
    constructor CopyOf(types: seq<Type>, src: StaticVariant)
      requires src.Live() && forall ty :: ty in src.types ==> ty in types
      modifies src.memory
      ensures this.types == types && this.memory == src.memory
      ensures var cell := old(src.memory.cells[src.slot]);
        (memory.cells, View()) == Placed(old(src.memory.cells), types, cell.ty, cell.value)
    {
      this.types, this.memory, tag, slot := types, src.memory, 0, 0;
      new;
      var selected := Dispatch(src.types, src.tag).value;
      var got := src.Get(selected);
      Init(selected, got.value);
    }

    constructor MoveOf(types: seq<Type>, src: StaticVariant)
      requires src.Live() && forall ty :: ty in src.types ==> ty in types
      modifies src.memory
      ensures this.types == types && this.memory == src.memory
      ensures var cell := old(src.memory.cells[src.slot]);
        (memory.cells, View()) == Placed(MovedOut(old(src.memory.cells), src.slot), types, cell.ty, cell.value)
    {
      this.types, this.memory, tag, slot := types, src.memory, 0, 0;
      new;
      var selected := Dispatch(src.types, src.tag).value;
      var got := src.Get(selected);
      memory.cells := MovedOut(memory.cells, src.slot);
      Init(selected, got.value);
    }

    /** Assigns a value that is not in this variant's storage. */
    method Assign(ty: Type, value: Value)
      requires Live() && ty in types
      modifies this, memory
      ensures (memory.cells, View()) == Placed(Cleaned(old(memory.cells), old(View())), types, ty, value)
    {
      Clean();
      Init(ty, value);
    }

    method AssignCopy(src: StaticVariant)
      requires Live() && src.Live() && src.types == types && src.memory == memory
      requires src != this ==> src.slot != slot
      modifies this, memory
      ensures src == this ==> View() == old(View()) && memory.cells == old(memory.cells)
      ensures src != this ==> var cell := old(memory.cells[src.slot]);
        (memory.cells, View()) == Placed(Cleaned(old(memory.cells), old(View())), types, cell.ty, cell.value)
    {
      if src == this {
        return;
      }
      Clean();
      var selected := Dispatch(types, src.tag).value;
      var got := src.Get(selected);
      Init(selected, got.value);
    }

    method AssignMove(src: StaticVariant)
      requires Live() && src.Live() && src.types == types && src.memory == memory
      requires src != this ==> src.slot != slot
      modifies this, memory
      ensures src == this ==> View() == old(View()) && memory.cells == old(memory.cells)
      ensures src != this ==> var cell := old(memory.cells[src.slot]);
        (memory.cells, View())
          == Placed(MovedOut(Cleaned(old(memory.cells), old(View())), src.slot), types, cell.ty, cell.value)
    {
      if src == this {
        return;
      }
      Clean();
      var selected := Dispatch(types, src.tag).value;
      var got := src.Get(selected);
      memory.cells := MovedOut(memory.cells, src.slot);
      Init(selected, got.value);
    }

    /** Throws before it touches the old object if the tag selects no type. */
    method SetWhich(newTag: int) returns (threw: bool)
      requires Live()
      modifies this, memory
      ensures threw <==> Dispatch(types, newTag) == None
      ensures threw ==> View() == old(View()) && memory.cells == old(memory.cells)
      ensures !threw ==>
        (memory.cells, View())
          == Placed(Cleaned(old(memory.cells), old(View())), types, types[newTag], DefaultOf(types[newTag]))
    {
      if newTag < 0 || newTag >= |types| {
        return true;
      }
      Clean();
      threw := InitFromTag(newTag);
    }
  }
}
