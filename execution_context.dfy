/**
 * The execution context: one optional-value slot per field of the scheme,
 * filled by type-checked setters and read by the filter evaluator.
 */
module ExecutionContexts {
  import opened Wrappers
  import opened Types

  /** What the scheme records about one field: its slot index and declared type. */
  datatype FieldDecl = FieldDecl(index: nat, ty: Type)

  /** The scheme, consumed and not owned: the fields by name, and the number of slots. */
  datatype Scheme = Scheme(fields: map<string, FieldDecl>, fieldCount: nat)
  {
    /** Every field has its own slot, inside the slot array. */
    ghost predicate Valid()
    {
      && (forall name :: name in fields ==> fields[name].index < fieldCount)
      && (forall a, b :: a in fields && b in fields && a != b ==> fields[a].index != fields[b].index)
    }
  }

  /** A compiled field reference: the field's name and slot index, and the map keys below it. */
  datatype Field = Field(name: string, index: nat, path: seq<FieldPathItem>)

  /** An unset slot, or one that holds a value of the declared type. */
  predicate SlotHasType(slot: Option<LhsValue>, ty: Type)
  {
    slot.None? || slot.value.GetType() == ty
  }

  ghost predicate SlotWellFormed(slot: Option<LhsValue>)
  {
    slot.None? || WellFormed(slot.value)
  }

  /** The slot invariant of a context over `scheme`. */
  ghost predicate SlotsTyped(scheme: Scheme, slots: seq<Option<LhsValue>>)
  {
    && scheme.Valid()
    && |slots| == scheme.fieldCount
    && forall name :: name in scheme.fields ==>
         SlotHasType(slots[scheme.fields[name].index], scheme.fields[name].ty)
  }

  ghost predicate SlotsWellFormed(slots: seq<Option<LhsValue>>)
  {
    forall i :: 0 <= i < |slots| ==> SlotWellFormed(slots[i])
  }

  // ---------------------------------------------------------------------------
  // The setters as functions of the old slot

  /** `set_field_value` on one slot: overwrite it when the type is the declared one. */
  function SetSlot(slot: Option<LhsValue>, fieldType: Type, value: LhsValue)
    : (r: Mutation<Option<LhsValue>, Result<(), TypeMismatchError>>)
    ensures r.result.Ok? <==> value.GetType() == fieldType
    ensures r.result.Ok? ==> r.state == Some(value)
    ensures r.result.Err? ==>
      r.state == slot && r.result.error == TypeMismatchError(fieldType, value.GetType())
  {
    var valueType := value.GetType();
    if fieldType == valueType then Mutation(Some(value), Ok(()))
    else Mutation(slot, Err(TypeMismatchError(fieldType, valueType)))
  }

  /** `map_err(SetValueError::TypeMismatch)`. */
  function WrapMismatch<T>(r: Result<T, TypeMismatchError>): (w: Result<(), SetValueError>)
    ensures w.Ok? <==> r.Ok?
    ensures w.Err? ==> w.error == SetValueError.TypeMismatch(r.error)
  {
    match r
    case Ok(_) => Ok(())
    case Err(e) => Err(SetValueError.TypeMismatch(e))
  }

  /** Writing `child` through a mutable reference to the entry `item` of `parent`. */
  function WriteBack(parent: LhsValue, item: FieldPathItem, child: LhsValue): LhsValue
  {
    match parent
    case Map(m) => LhsValue.Map(TypedMap(m.valueType, m.entries[item.name := child]))
    case _ => parent
  }

  /**
   * The walk of `set_field_value_with_path` from `node`, whose expected type
   * is `ty`: one loop round per segment of `path`.
   */
  function SetPath(node: LhsValue, ty: Type, path: seq<FieldPathItem>, value: LhsValue)
    : Mutation<LhsValue, Result<(), SetValueError>>
    requires path != []
    decreases |path|
  {
    match ty.Next()
    case None =>
      Mutation(node, Err(SetValueError.TypeMismatch(TypeMismatchError(ty, value.GetTypeFromPath(path[1..])))))
    case Some(inner) =>
      if |path| > 1 then
        var step := node.GetMutOrTrySetDefault(path[0], inner);
        if step.result.Err? then Mutation(step.state, Err(step.result.error))
        else
          var sub := SetPath(step.result.value, inner, path[1..], value);
          Mutation(WriteBack(step.state, path[0], sub.state), sub.result)
      else SetLast(node, inner, path[0], value)
  }

  /** The last segment: the checked insert, when the value has the type expected there. */
  function SetLast(node: LhsValue, ty: Type, item: FieldPathItem, value: LhsValue)
    : Mutation<LhsValue, Result<(), SetValueError>>
  {
    var valueType := value.GetType();
    if ty == valueType then
      var s := node.Set(item, value);
      Mutation(s.state, WrapMismatch(s.result))
    else
      Mutation(node, Err(SetValueError.TypeMismatch(TypeMismatchError(ty, valueType))))
  }

  /**
   * `set_field_value_with_path` on one slot: the plain setter for an empty
   * path; otherwise materialise an unset slot, then walk the path.
   */
  function SetSlotWithPath(slot: Option<LhsValue>, fieldType: Type, path: seq<FieldPathItem>, value: LhsValue)
    : (r: Mutation<Option<LhsValue>, Result<(), SetValueError>>)
    ensures path == [] ==>
      var s := SetSlot(slot, fieldType, value);
      r == Mutation(s.state, WrapMismatch(s.result))
    ensures path != [] && slot.None? && !fieldType.Map? ==>
      r == Mutation(None, Err(SetValueError.VoidableType(VoidableTypeError(fieldType))))
    ensures path != [] && (slot.Some? || fieldType.Map?) ==> r.state.Some?
  {
    if path == [] then
      var s := SetSlot(slot, fieldType, value);
      Mutation(s.state, WrapMismatch(s.result))
    else
      var start := if slot.Some? then Ok(slot.value) else LhsValue.TryFromType(fieldType);
      if start.Err? then Mutation(slot, Err(SetValueError.VoidableType(start.error)))
      else
        var walked := SetPath(start.value, fieldType, path, value);
        Mutation(Some(walked.state), walked.result)
  }

  // ---------------------------------------------------------------------------
  // Reading a value back

  /** Every step of `path` below `node` exists: the type nests deep enough, and each map has the key. */
  predicate PathPresent(node: LhsValue, ty: Type, path: seq<FieldPathItem>)
    decreases |path|
  {
    path == [] ||
    (&& ty.Next().Some?
     && node.Get(path[0], ty.Next().value).Ok?
     && node.Get(path[0], ty.Next().value).value.Some?
     && PathPresent(node.Get(path[0], ty.Next().value).value.value, ty.Next().value, path[1..]))
  }

  /** The value stored at `path` below `node`. */
  function Lookup(node: LhsValue, ty: Type, path: seq<FieldPathItem>): LhsValue
    requires PathPresent(node, ty, path)
    decreases |path|
  {
    if path == [] then node.AsRef()
    else
      var inner := ty.Next().value;
      Lookup(node.Get(path[0], inner).value.value, inner, path[1..])
  }

  // ---------------------------------------------------------------------------
  // The write-through of the path walk

  /** One level of the walk: the map `parent` and the key that was followed. */
  datatype Frame = Frame(parent: LhsValue, item: FieldPathItem)

  /** Writes `node` back through every level of `trail`, innermost first. */
  function Plug(trail: seq<Frame>, node: LhsValue): LhsValue
    decreases |trail|
  {
    if trail == [] then node
    else
      var f := trail[|trail| - 1];
      Plug(trail[..|trail| - 1], WriteBack(f.parent, f.item, node))
  }

  function Compose(trail: seq<Frame>, mu: Mutation<LhsValue, Result<(), SetValueError>>)
    : Mutation<LhsValue, Result<(), SetValueError>>
  {
    Mutation(Plug(trail, mu.state), mu.result)
  }

  /** One round of the loop: descending into the child keeps the composed walk the same. */
  lemma DescendKeepsWalk(trail: seq<Frame>, node: LhsValue, ty: Type, path: seq<FieldPathItem>, value: LhsValue)
    requires |path| > 1
    requires ty.Next().Some?
    requires node.GetMutOrTrySetDefault(path[0], ty.Next().value).result.Ok?
    ensures var inner := ty.Next().value;
      var step := node.GetMutOrTrySetDefault(path[0], inner);
      Compose(trail + [Frame(step.state, path[0])], SetPath(step.result.value, inner, path[1..], value))
        == Compose(trail, SetPath(node, ty, path, value))
  {
    var inner := ty.Next().value;
    var step := node.GetMutOrTrySetDefault(path[0], inner);
    PlugSnoc(trail, Frame(step.state, path[0]), SetPath(step.result.value, inner, path[1..], value).state);
  }

  lemma PlugSnoc(trail: seq<Frame>, f: Frame, node: LhsValue)
    ensures Plug(trail + [f], node) == Plug(trail, WriteBack(f.parent, f.item, node))
  {
    assert (trail + [f])[..|trail|] == trail;
  }

  // ---------------------------------------------------------------------------
  // The context

  class ExecutionContext {
    const scheme: Scheme
    const values: array<Option<LhsValue>>

    /** One slot per field, each unset or holding a value of its field's declared type. */
    ghost predicate Valid()
      reads this, values
    {
      SlotsTyped(scheme, values[..])
    }

    /** The maps held in the slots are homogeneous at every depth. */
    ghost predicate AllWellFormed()
      reads this, values
    {
      SlotsWellFormed(values[..])
    }

    /** `ExecutionContext::new`: `field_count` slots, all unset. */
    constructor (scheme: Scheme)
      requires scheme.Valid()
      ensures Valid() && AllWellFormed()
      ensures this.scheme == scheme && fresh(values)
      ensures values.Length == scheme.fieldCount
      ensures forall i :: 0 <= i < values.Length ==> values[i].None?
    {
      this.scheme := scheme;
      values := new Option<LhsValue>[scheme.fieldCount](_ => None);
    }

    /**
     * `get_field_value_unchecked`: the value stored at the field's path.  An
     * unset slot, a type that does not nest deep enough or a missing key are
     * panics in the source, so they are preconditions here.
     */
    method GetFieldValueUnchecked(field: Field) returns (v: LhsValue)
      requires Valid()
      requires field.name in scheme.fields && scheme.fields[field.name].index == field.index
      requires values[field.index].Some?
      requires PathPresent(values[field.index].value, scheme.fields[field.name].ty, field.path)
      ensures v == Lookup(values[field.index].value, scheme.fields[field.name].ty, field.path)
    {
      var lhsValue := values[field.index].value;
      var lhsType := scheme.fields[field.name].ty;
      ghost var root, rootType := lhsValue, lhsType;
      var i := 0;
      while i < |field.path|
        invariant 0 <= i <= |field.path|
        invariant PathPresent(lhsValue, lhsType, field.path[i..])
        invariant Lookup(lhsValue, lhsType, field.path[i..]) == Lookup(root, rootType, field.path)
      {
        var item := field.path[i];
        assert field.path[i..][1..] == field.path[i + 1..];
        lhsType := lhsType.Next().value;
        lhsValue := lhsValue.Get(item, lhsType).value.value;
        i := i + 1;
      }
      v := lhsValue.AsRef();
    }

    /** `set_field_value`: stores `value` in the field's slot when its type is the declared one. */
    method SetFieldValue(name: string, value: LhsValue) returns (r: Result<(), TypeMismatchError>)
      requires Valid() && name in scheme.fields
      modifies values
      ensures Valid()
      ensures var field := scheme.fields[name];
        var s := SetSlot(old(values[field.index]), field.ty, value);
        values[..] == old(values[..])[field.index := s.state] && r == s.result
      ensures old(AllWellFormed()) && WellFormed(value) ==> AllWellFormed()
    {
      var field := scheme.fields[name];
      var fieldType := field.ty;
      var valueType := value.GetType();
      if fieldType == valueType {
        SlotsTypedUpdate(scheme, values[..], name, Some(value));
        values[field.index] := Some(value);
        r := Ok(());
      } else {
        r := Err(TypeMismatchError(fieldType, valueType));
      }
    }

    /**
     * `set_field_value_with_path`: the plain setter for an empty path;
     * otherwise materialises an unset slot and walks the path from it.
     */
    method SetFieldValueWithPath(name: string, path: seq<FieldPathItem>, value: LhsValue)
      returns (r: Result<(), SetValueError>)
      requires Valid() && name in scheme.fields
      modifies values
      ensures Valid()
      ensures var field := scheme.fields[name];
        var s := SetSlotWithPath(old(values[field.index]), field.ty, path, value);
        values[..] == old(values[..])[field.index := s.state] && r == s.result
      ensures old(AllWellFormed()) && WellFormed(value) ==> AllWellFormed()
    {
      if path == [] {
        var e := SetFieldValue(name, value);
        r := WrapMismatch(e);
        return;
      }
      var field := scheme.fields[name];
      SetSlotWithPathKeepsSlots(scheme, values[..], name, path, value);
      var root;
      if values[field.index].Some? {
        root := values[field.index].value;
      } else {
        var placeholder := LhsValue.TryFromType(field.ty);
        if placeholder.Err? {
          return Err(SetValueError.VoidableType(placeholder.error));
        }
        root := placeholder.value;
      }
      var newRoot;
      newRoot, r := SetPathLoop(root, field.ty, path, value);
      values[field.index] := Some(newRoot);
    }
  }

  /**
   * The loop of `set_field_value_with_path` from the slot's value `root`.
   * The walk holds a mutable reference into the slot; `trail` records the
   * maps it went through, and `Plug` writes the changed node back through
   * them.
   */
  method SetPathLoop(root: LhsValue, ty: Type, path: seq<FieldPathItem>, value: LhsValue)
    returns (newRoot: LhsValue, r: Result<(), SetValueError>)
    requires path != []
    ensures Mutation(newRoot, r) == SetPath(root, ty, path, value)
  {
    var currentType := ty;
    var node := root;
    var trail: seq<Frame> := [];
    var rest := path;
    while |rest| > 1
      invariant rest != []
      invariant Compose(trail, SetPath(node, currentType, rest, value)) == SetPath(root, ty, path, value)
    {
      var item := rest[0];
      var next := currentType.Next();
      if next.None? {
        return Plug(trail, node), Err(SetValueError.TypeMismatch(TypeMismatchError(currentType, value.GetTypeFromPath(rest[1..]))));
      }
      var step := node.GetMutOrTrySetDefault(item, next.value);
      if step.result.Err? {
        return Plug(trail, step.state), Err(step.result.error);
      }
      DescendKeepsWalk(trail, node, currentType, rest, value);
      currentType := next.value;
      trail := trail + [Frame(step.state, item)];
      node := step.result.value;
      rest := rest[1..];
    }

    // The last segment.
    var next := currentType.Next();
    if next.None? {
      return Plug(trail, node), Err(SetValueError.TypeMismatch(TypeMismatchError(currentType, value.GetTypeFromPath([]))));
    }
    var last := SetLast(node, next.value, rest[0], value);
    newRoot, r := Plug(trail, last.state), last.result;
  }

  // ---------------------------------------------------------------------------
  // Properties of the setters

  /** Overwriting the slot of `name` with a value of its declared type keeps every slot typed. */
  lemma SlotsTypedUpdate(scheme: Scheme, slots: seq<Option<LhsValue>>, name: string, slot: Option<LhsValue>)
    requires SlotsTyped(scheme, slots) && name in scheme.fields
    requires SlotHasType(slot, scheme.fields[name].ty)
    ensures SlotsTyped(scheme, slots[scheme.fields[name].index := slot])
  {
    var slots' := slots[scheme.fields[name].index := slot];
    forall other | other in scheme.fields
      ensures SlotHasType(slots'[scheme.fields[other].index], scheme.fields[other].ty)
    {
      if other != name {
        assert scheme.fields[other].index != scheme.fields[name].index;
      }
    }
  }

  /** The path setter keeps the slot invariants of the whole context. */
  lemma SetSlotWithPathKeepsSlots(scheme: Scheme, slots: seq<Option<LhsValue>>, name: string,
                                  path: seq<FieldPathItem>, value: LhsValue)
    requires SlotsTyped(scheme, slots) && name in scheme.fields
    ensures var field := scheme.fields[name];
      var s := SetSlotWithPath(slots[field.index], field.ty, path, value);
      && SlotsTyped(scheme, slots[field.index := s.state])
      && (SlotsWellFormed(slots) && WellFormed(value) ==> SlotsWellFormed(slots[field.index := s.state]))
  {
    var field := scheme.fields[name];
    var s := SetSlotWithPath(slots[field.index], field.ty, path, value);
    SetSlotWithPathKeepsSlot(slots[field.index], field.ty, path, value);
    SlotsTypedUpdate(scheme, slots, name, s.state);
  }

  /** Writing a well-formed child of the declared value type keeps a map well-formed. */
  lemma WriteBackKeepsWellFormed(parent: LhsValue, item: FieldPathItem, child: LhsValue)
    requires WellFormed(parent) && WellFormed(child)
    requires parent.Map? && child.GetType() == parent.m.valueType
    ensures WellFormed(WriteBack(parent, item, child))
    ensures WriteBack(parent, item, child).GetType() == parent.GetType()
  {
    var w := WriteBack(parent, item, child);
    forall k | k in w.m.entries
      ensures w.m.entries[k].GetType() == w.m.valueType && WellFormed(w.m.entries[k])
    {
      if k != item.name {
        assert k in parent.m.entries;
      }
    }
  }

  /** The walk never changes the type of the node it starts from. */
  lemma {:induction false} SetPathKeepsType(node: LhsValue, ty: Type, path: seq<FieldPathItem>, value: LhsValue)
    requires path != []
    ensures SetPath(node, ty, path, value).state.GetType() == node.GetType()
    decreases |path|
  {
    if ty.Next().Some? && |path| > 1 {
      var step := node.GetMutOrTrySetDefault(path[0], ty.Next().value);
      if step.result.Ok? {
        SetPathKeepsType(step.result.value, ty.Next().value, path[1..], value);
      }
    }
  }

  /** Starting from a well-formed node of type `ty`, the walk leaves a well-formed node. */
  lemma {:induction false} SetPathKeepsWellFormed(node: LhsValue, ty: Type, path: seq<FieldPathItem>, value: LhsValue)
    requires path != []
    requires WellFormed(node) && node.GetType() == ty && WellFormed(value)
    ensures WellFormed(SetPath(node, ty, path, value).state)
    decreases |path|
  {
    if ty.Next().Some? {
      var inner := ty.Next().value;
      if |path| > 1 {
        var step := node.GetMutOrTrySetDefault(path[0], inner);
        GetMutOrTrySetDefaultWellFormed(node, path[0], inner);
        if step.result.Ok? {
          var child := step.result.value;
          SetPathKeepsWellFormed(child, inner, path[1..], value);
          SetPathKeepsType(child, inner, path[1..], value);
          WriteBackKeepsWellFormed(step.state, path[0], SetPath(child, inner, path[1..], value).state);
        }
      } else if inner == value.GetType() {
        InsertKeepsWellFormed(node.m, path[0].name, value);
      }
    }
  }

  /** A successful walk stores `value` at `path`: reading the path back gives it. */
  lemma {:induction false} SetPathRoundTrip(node: LhsValue, ty: Type, path: seq<FieldPathItem>, value: LhsValue)
    requires path != []
    requires SetPath(node, ty, path, value).result.Ok?
    ensures var after := SetPath(node, ty, path, value).state;
      PathPresent(after, ty, path) && Lookup(after, ty, path) == value
    decreases |path|
  {
    var inner := ty.Next().value;
    if |path| > 1 {
      var step := node.GetMutOrTrySetDefault(path[0], inner);
      SetPathRoundTrip(step.result.value, inner, path[1..], value);
    }
  }

  /** A map tree in which every entry is again such a tree: what materialisation creates. */
  ghost predicate EmptyMaps(v: LhsValue)
  {
    v.Map? && forall k :: k in v.m.entries ==> EmptyMaps(v.m.entries[k])
  }

  /**
   * `after` is `before` with, at most, maps of empty maps added under new
   * keys: no entry of `before` is lost or replaced.
   */
  ghost predicate Materialised(before: LhsValue, after: LhsValue)
  {
    || before == after
    || (&& before.Map? && after.Map?
        && before.m.valueType == after.m.valueType
        && before.m.entries.Keys <= after.m.entries.Keys
        && (forall k :: k in before.m.entries ==> Materialised(before.m.entries[k], after.m.entries[k]))
        && (forall k :: k in after.m.entries && k !in before.m.entries ==> EmptyMaps(after.m.entries[k])))
  }

  lemma {:induction false} MaterialisedFromEmpty(before: LhsValue, after: LhsValue)
    requires EmptyMaps(before) && Materialised(before, after)
    ensures EmptyMaps(after)
  {
    if before != after {
      forall k | k in after.m.entries
        ensures EmptyMaps(after.m.entries[k])
      {
        if k in before.m.entries {
          MaterialisedFromEmpty(before.m.entries[k], after.m.entries[k]);
        }
      }
    }
  }

  /**
   * A failed walk may have created empty intermediate maps, and changed
   * nothing else: in particular the final-level map gets no entry.
   */
  lemma {:induction false} SetPathFailureOnlyMaterialises(node: LhsValue, ty: Type, path: seq<FieldPathItem>, value: LhsValue)
    requires path != []
    requires SetPath(node, ty, path, value).result.Err?
    ensures Materialised(node, SetPath(node, ty, path, value).state)
    decreases |path|
  {
    if ty.Next().Some? && |path| > 1 {
      var inner := ty.Next().value;
      var step := node.GetMutOrTrySetDefault(path[0], inner);
      if step.result.Ok? {
        var child := step.result.value;
        SetPathFailureOnlyMaterialises(child, inner, path[1..], value);
        var after := SetPath(node, ty, path, value).state;
        var key := path[0].name;
        if key !in node.m.entries {
          MaterialisedFromEmpty(child, SetPath(child, inner, path[1..], value).state);
        }
        forall k | k in node.m.entries
          ensures Materialised(node.m.entries[k], after.m.entries[k])
        {
          if k != key {
            assert after.m.entries[k] == node.m.entries[k];
          }
        }
      }
    }
  }

  /**
   * When every map above the last segment already exists, a failed walk
   * changes nothing at all.
   */
  lemma {:induction false} SetPathFailureOnPresentPathChangesNothing(node: LhsValue, ty: Type, path: seq<FieldPathItem>, value: LhsValue)
    requires path != []
    requires PathPresent(node, ty, path[..|path| - 1])
    requires SetPath(node, ty, path, value).result.Err?
    ensures SetPath(node, ty, path, value).state == node
    decreases |path|
  {
    if |path| > 1 {
      var inner := ty.Next().value;
      var key := path[0].name;
      assert path[..|path| - 1][1..] == path[1..][..|path[1..]| - 1];
      var child := node.m.entries[key];
      SetPathFailureOnPresentPathChangesNothing(child, inner, path[1..], value);
      assert node.m.entries[key := child] == node.m.entries;
    }
  }

  /**
   * A successful walk keeps every other path: a path that is not an
   * extension of `path` still exists afterwards, and a scalar stored at it
   * is unchanged.
   */
  lemma {:induction false} SetPathSuccessKeepsOthers(node: LhsValue, ty: Type, path: seq<FieldPathItem>, value: LhsValue,
                                                     q: seq<FieldPathItem>)
    requires path != []
    requires SetPath(node, ty, path, value).result.Ok?
    requires PathPresent(node, ty, q) && !(path <= q)
    ensures var after := SetPath(node, ty, path, value).state;
      && PathPresent(after, ty, q)
      && (!Lookup(node, ty, q).Map? ==> Lookup(after, ty, q) == Lookup(node, ty, q))
    decreases |path|
  {
    var after := SetPath(node, ty, path, value).state;
    var inner := ty.Next().value;
    if q != [] {
      var key := path[0].name;
      if q[0] != path[0] {
        assert q[0].name != key;
        assert after.m.entries[q[0].name] == node.m.entries[q[0].name];
      } else {
        assert !(path[1..] <= q[1..]);
        var child := node.m.entries[key];
        SetPathSuccessKeepsOthers(child, inner, path[1..], value, q[1..]);
      }
    }
  }

  /**
   * A successful walk adds nothing off its path: a path present afterwards
   * that is neither a prefix nor an extension of `path` was present before.
   */
  lemma {:induction false} SetPathSuccessAddsOnlyPath(node: LhsValue, ty: Type, path: seq<FieldPathItem>, value: LhsValue,
                                                      q: seq<FieldPathItem>)
    requires path != []
    requires SetPath(node, ty, path, value).result.Ok?
    requires PathPresent(SetPath(node, ty, path, value).state, ty, q)
    requires !(q <= path) && !(path <= q)
    ensures PathPresent(node, ty, q)
    decreases |path|
  {
    var after := SetPath(node, ty, path, value).state;
    var inner := ty.Next().value;
    var key := path[0].name;
    if q[0] != path[0] {
      assert q[0].name != key;
      assert after.m.entries[q[0].name] == node.m.entries[q[0].name];
    } else {
      assert !(q[1..] <= path[1..]) && !(path[1..] <= q[1..]);
      var child := node.GetMutOrTrySetDefault(path[0], inner).result.value;
      SetPathSuccessAddsOnlyPath(child, inner, path[1..], value, q[1..]);
    }
  }

  /**
   * A failed walk adds maps only along its path: a path present afterwards
   * that is not a proper prefix of `path` was present before.
   */
  lemma {:induction false} SetPathFailureAddsOnlyPrefixes(node: LhsValue, ty: Type, path: seq<FieldPathItem>,
                                                          value: LhsValue, q: seq<FieldPathItem>)
    requires path != []
    requires SetPath(node, ty, path, value).result.Err?
    requires PathPresent(SetPath(node, ty, path, value).state, ty, q)
    requires !(q < path)
    ensures PathPresent(node, ty, q)
    decreases |path|
  {
    var after := SetPath(node, ty, path, value).state;
    if ty.Next().Some? && |path| > 1 {
      var inner := ty.Next().value;
      var step := node.GetMutOrTrySetDefault(path[0], inner);
      if step.result.Ok? {
        var key := path[0].name;
        if q[0] != path[0] {
          assert q[0].name != key;
          assert after.m.entries[q[0].name] == node.m.entries[q[0].name];
        } else {
          assert !(q[1..] < path[1..]);
          SetPathFailureAddsOnlyPrefixes(step.result.value, inner, path[1..], value, q[1..]);
        }
      }
    }
  }

  /** Materialising maps keeps every path that existed, and every scalar stored at it. */
  lemma {:induction false} MaterialisedKeepsEntries(before: LhsValue, after: LhsValue, ty: Type, path: seq<FieldPathItem>)
    requires Materialised(before, after) && PathPresent(before, ty, path)
    ensures PathPresent(after, ty, path)
    ensures !Lookup(before, ty, path).Map? ==> Lookup(after, ty, path) == Lookup(before, ty, path)
    decreases |path|
  {
    if path != [] && before != after {
      var inner := ty.Next().value;
      var key := path[0].name;
      MaterialisedKeepsEntries(before.m.entries[key], after.m.entries[key], inner, path[1..]);
    }
  }

  /**
   * Within the nesting of the declared type, the walk succeeds exactly when
   * the value has the type found at the path's depth, and otherwise reports
   * that type against the value's.
   */
  lemma {:induction false} SetPathWithinDepth(node: LhsValue, ty: Type, path: seq<FieldPathItem>, value: LhsValue)
    requires 0 < |path| <= Depth(ty)
    requires WellFormed(node) && node.GetType() == ty
    ensures var r := SetPath(node, ty, path, value).result;
      && (r.Ok? <==> value.GetType() == TypeAt(ty, |path|))
      && (r.Err? ==> r.error == SetValueError.TypeMismatch(TypeMismatchError(TypeAt(ty, |path|), value.GetType())))
    decreases |path|
  {
    var inner := ty.Next().value;
    if |path| > 1 {
      var step := node.GetMutOrTrySetDefault(path[0], inner);
      GetMutOrTrySetDefaultWellFormed(node, path[0], inner);
      SetPathWithinDepth(step.result.value, inner, path[1..], value);
    }
  }

  /**
   * A path longer than the nesting of the declared type always fails, at the
   * innermost scalar kind: as a mismatch against it, or because no
   * placeholder exists for it.
   */
  lemma {:induction false} SetPathTooDeep(node: LhsValue, ty: Type, path: seq<FieldPathItem>, value: LhsValue)
    requires |path| > Depth(ty)
    requires WellFormed(node) && node.GetType() == ty
    ensures var r := SetPath(node, ty, path, value).result;
      && r.Err?
      && (|| r.error == SetValueError.VoidableType(VoidableTypeError(Leaf(ty)))
          || (r.error.TypeMismatch? && r.error.mismatch.expected == Leaf(ty)))
    decreases |path|
  {
    if ty.Map? {
      var inner := ty.inner;
      var step := node.GetMutOrTrySetDefault(path[0], inner);
      GetMutOrTrySetDefaultWellFormed(node, path[0], inner);
      if step.result.Ok? {
        SetPathTooDeep(step.result.value, inner, path[1..], value);
      }
    }
  }

  /** Both setters keep a slot typed by its field, and well-formed when the value is. */
  lemma SetSlotWithPathKeepsSlot(slot: Option<LhsValue>, fieldType: Type, path: seq<FieldPathItem>, value: LhsValue)
    requires SlotHasType(slot, fieldType)
    ensures SlotHasType(SetSlotWithPath(slot, fieldType, path, value).state, fieldType)
    ensures SlotWellFormed(slot) && WellFormed(value) ==>
      SlotWellFormed(SetSlotWithPath(slot, fieldType, path, value).state)
  {
    if path != [] {
      var start := if slot.Some? then Ok(slot.value) else LhsValue.TryFromType(fieldType);
      if start.Ok? {
        SetPathKeepsType(start.value, fieldType, path, value);
        if SlotWellFormed(slot) && WellFormed(value) {
          SetPathKeepsWellFormed(start.value, fieldType, path, value);
        }
      }
    }
  }

  /** What a successful set stores is what the evaluator reads back at the same path. */
  lemma SetSlotWithPathRoundTrip(slot: Option<LhsValue>, fieldType: Type, path: seq<FieldPathItem>, value: LhsValue)
    requires SetSlotWithPath(slot, fieldType, path, value).result.Ok?
    ensures var after := SetSlotWithPath(slot, fieldType, path, value).state;
      after.Some? && PathPresent(after.value, fieldType, path) && Lookup(after.value, fieldType, path) == value
  {
    if path != [] {
      var start := if slot.Some? then slot.value else LhsValue.TryFromType(fieldType).value;
      SetPathRoundTrip(start, fieldType, path, value);
    }
  }

  /**
   * On a populated, well-typed slot and a path within the type's nesting,
   * the set succeeds exactly when the value has the type at that depth.
   */
  lemma SetSlotWithPathWithinDepth(slot: Option<LhsValue>, fieldType: Type, path: seq<FieldPathItem>, value: LhsValue)
    requires 0 < |path| <= Depth(fieldType)
    requires SlotHasType(slot, fieldType) && SlotWellFormed(slot)
    ensures var r := SetSlotWithPath(slot, fieldType, path, value).result;
      && (r.Ok? <==> value.GetType() == TypeAt(fieldType, |path|))
      && (r.Err? ==> r.error == SetValueError.TypeMismatch(TypeMismatchError(TypeAt(fieldType, |path|), value.GetType())))
  {
    var start := if slot.Some? then slot.value else LhsValue.TryFromType(fieldType).value;
    SetPathWithinDepth(start, fieldType, path, value);
  }

  /** A failed path set loses no stored data: at most empty maps were added to the slot. */
  lemma SetSlotWithPathFailureKeepsData(slot: Option<LhsValue>, fieldType: Type, path: seq<FieldPathItem>, value: LhsValue)
    requires path != [] && slot.Some?
    requires SetSlotWithPath(slot, fieldType, path, value).result.Err?
    ensures var after := SetSlotWithPath(slot, fieldType, path, value).state;
      && after.Some? && Materialised(slot.value, after.value)
      && (PathPresent(slot.value, fieldType, path[..|path| - 1]) ==> after == slot)
  {
    SetPathFailureOnlyMaterialises(slot.value, fieldType, path, value);
    if PathPresent(slot.value, fieldType, path[..|path| - 1]) {
      SetPathFailureOnPresentPathChangesNothing(slot.value, fieldType, path, value);
    }
  }

  /**
   * `VoidableType` on a set slot: a path that runs past a missing key whose
   * placeholder type is scalar fails there and leaves the slot as it was.
   */
  lemma SetSlotWithPathMissingScalarKey(slot: Option<LhsValue>, fieldType: Type, path: seq<FieldPathItem>,
                                        value: LhsValue)
    requires slot.Some? && slot.value.Map? && |path| > 1
    requires fieldType.Next().Some? && !fieldType.Next().value.Map?
    requires path[0].name !in slot.value.m.entries
    ensures SetSlotWithPath(slot, fieldType, path, value)
            == Mutation(slot, Err(SetValueError.VoidableType(VoidableTypeError(fieldType.Next().value))))
  {
  }

  /**
   * A failed path set adds maps only along that path: every path present
   * afterwards that is not a proper prefix of `path` was present before.
   * On an unset slot only such prefixes exist afterwards.
   */
  lemma SetSlotWithPathFailureAddsOnlyPrefixes(slot: Option<LhsValue>, fieldType: Type, path: seq<FieldPathItem>,
                                               value: LhsValue, q: seq<FieldPathItem>)
    requires path != []
    requires SetSlotWithPath(slot, fieldType, path, value).result.Err?
    requires var after := SetSlotWithPath(slot, fieldType, path, value).state;
      after.Some? && PathPresent(after.value, fieldType, q)
    requires !(q < path)
    ensures slot.Some? && PathPresent(slot.value, fieldType, q)
  {
    var start := if slot.Some? then slot.value else LhsValue.TryFromType(fieldType).value;
    SetPathFailureAddsOnlyPrefixes(start, fieldType, path, value, q);
  }

  /**
   * A successful path set adds nothing off that path: every path present
   * afterwards that is neither a prefix nor an extension of `path` was
   * present before.  On an unset slot there is no such path at all.
   */
  lemma SetSlotWithPathSuccessAddsOnlyPath(slot: Option<LhsValue>, fieldType: Type, path: seq<FieldPathItem>,
                                           value: LhsValue, q: seq<FieldPathItem>)
    requires path != []
    requires SetSlotWithPath(slot, fieldType, path, value).result.Ok?
    requires var after := SetSlotWithPath(slot, fieldType, path, value).state;
      after.Some? && PathPresent(after.value, fieldType, q)
    requires !(q <= path) && !(path <= q)
    ensures slot.Some? && PathPresent(slot.value, fieldType, q)
  {
    var start := if slot.Some? then slot.value else LhsValue.TryFromType(fieldType).value;
    SetPathSuccessAddsOnlyPath(start, fieldType, path, value, q);
  }

  /**
   * A successful path set on a populated slot keeps every value stored off
   * that path, so a map field can be filled key by key.
   */
  lemma SetSlotWithPathSuccessKeepsOthers(slot: Option<LhsValue>, fieldType: Type, path: seq<FieldPathItem>,
                                          value: LhsValue, q: seq<FieldPathItem>)
    requires path != [] && slot.Some?
    requires SetSlotWithPath(slot, fieldType, path, value).result.Ok?
    requires PathPresent(slot.value, fieldType, q) && !(path <= q)
    ensures var after := SetSlotWithPath(slot, fieldType, path, value).state;
      && after.Some? && PathPresent(after.value, fieldType, q)
      && (!Lookup(slot.value, fieldType, q).Map? ==>
            Lookup(after.value, fieldType, q) == Lookup(slot.value, fieldType, q))
  {
    SetPathSuccessKeepsOthers(slot.value, fieldType, path, value, q);
  }

  // ---------------------------------------------------------------------------
  // Scenarios

  /** The source's `test_field_value_type_mismatch`: `Bool(false)` on the `Int` field `foo`. */
  method FieldValueTypeMismatchScenario() returns (r: Result<(), TypeMismatchError>)
    ensures r == Err(TypeMismatchError(Type.Int, Type.Bool))
  {
    var scheme := Scheme(map["foo" := FieldDecl(0, Type.Int)], 1);
    var ctx := new ExecutionContext(scheme);
    r := ctx.SetFieldValue("foo", LhsValue.Bool(false));
  }

  /** On the slot values: `[a, b] := 5` on an unset `Map(Map(Int))` slot, then `[a, c] := 7`. */
  lemma FillingKeyByKey(ty: Type, ab: seq<FieldPathItem>, ac: seq<FieldPathItem>, five: LhsValue, seven: LhsValue)
    requires ty == Type.Map(Type.Map(Type.Int))
    requires ab == [Name("a"), Name("b")] && ac == [Name("a"), Name("c")]
    requires five == LhsValue.Int(5) && seven == LhsValue.Int(7)
    ensures var first := SetSlotWithPath(None, ty, ab, five);
      var second := SetSlotWithPath(first.state, ty, ac, seven);
      && first.result.Ok? && second.result.Ok? && second.state.Some?
      && PathPresent(second.state.value, ty, ab) && Lookup(second.state.value, ty, ab) == five
      && PathPresent(second.state.value, ty, ac) && Lookup(second.state.value, ty, ac) == seven
  {
    assert TypeAt(ty, 2) == Type.Int;
    SetSlotWithPathWithinDepth(None, ty, ab, five);
    SetSlotWithPathRoundTrip(None, ty, ab, five);
    SetSlotWithPathKeepsSlot(None, ty, ab, five);
    var first := SetSlotWithPath(None, ty, ab, five).state;
    SetSlotWithPathWithinDepth(first, ty, ac, seven);
    SetSlotWithPathRoundTrip(first, ty, ac, seven);
    assert !(ac <= ab) by { assert ac[1] != ab[1]; }
    SetSlotWithPathSuccessKeepsOthers(first, ty, ac, seven, ab);
  }

  /**
   * Setting `[a, b]` of an unset `Map(Map(Int))` field to 5 creates `a`;
   * setting `[a, c]` to 7 afterwards keeps `[a, b]`, and both read back.
   */
  method NestedPathScenario() returns (v: LhsValue, w: LhsValue)
    ensures v == LhsValue.Int(5) && w == LhsValue.Int(7)
  {
    var ty := Type.Map(Type.Map(Type.Int));
    var scheme := Scheme(map["m" := FieldDecl(0, ty)], 1);
    var ctx := new ExecutionContext(scheme);
    var ab := [Name("a"), Name("b")];
    var ac := [Name("a"), Name("c")];
    var five, seven := LhsValue.Int(5), LhsValue.Int(7);
    FillingKeyByKey(ty, ab, ac, five, seven);
    var r1 := ctx.SetFieldValueWithPath("m", ab, five);
    var r2 := ctx.SetFieldValueWithPath("m", ac, seven);
    v := ctx.GetFieldValueUnchecked(Field("m", 0, ab));
    w := ctx.GetFieldValueUnchecked(Field("m", 0, ac));
  }
}
