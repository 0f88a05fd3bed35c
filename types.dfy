/**
 * The typed-value model of the filter engine: the type descriptor, the
 * homogeneous map and the runtime value (`LhsValue`) with its type-checked
 * nested access.  Rust's `&mut self` methods work on owned, unaliased data,
 * so each of them is a function from the old value to a `Mutation`: the new
 * value together with what the Rust method returns.
 */
module Types {
  import opened Wrappers

  /** The kind of a field value; `Map` carries the type of its values. */
  datatype Type = Ip | Bytes | Int | Bool | Map(inner: Type)
  {
    /** `Type::next`: the value type of a map type, nothing for a scalar kind. */
    function Next(): (r: Option<Type>)
      ensures r.Some? <==> this.Map?
      ensures r.Some? ==> this == Type.Map(r.value)
    {
      match this
      case Map(ty) => Some(ty)
      case _ => None
    }
  }

  /** Number of map layers around the innermost scalar kind of `ty`. */
  function Depth(ty: Type): nat
  {
    if ty.Map? then 1 + Depth(ty.inner) else 0
  }

  /** The type reached from `ty` by `n` calls of `next`. */
  function TypeAt(ty: Type, n: nat): Type
    requires n <= Depth(ty)
  {
    if n == 0 then ty else TypeAt(ty.inner, n - 1)
  }

  /** The scalar kind at the bottom of `ty`. */
  function Leaf(ty: Type): (r: Type)
    ensures !r.Map?
    ensures Depth(ty) == 0 ==> r == ty
  {
    if ty.Map? then Leaf(ty.inner) else ty
  }

  /** Next walks down one layer: the type `n + 1` levels down is one level below level `n`. */
  lemma {:induction false} TypeAtNext(ty: Type, n: nat)
    requires n < Depth(ty)
    ensures TypeAt(ty, n).Map? && TypeAt(ty, n).inner == TypeAt(ty, n + 1)
    ensures TypeAt(ty, Depth(ty)) == Leaf(ty)
  {
    if n > 0 {
      TypeAtNext(ty.inner, n - 1);
    } else if Depth(ty) > 1 {
      TypeAtNext(ty.inner, 0);
    }
  }

  /** An IPv4 or IPv6 address; comparisons on it are not part of this model. */
  datatype IpAddr = V4(octets: bv32) | V6(segments: bv128)

  /** Rust's `i32`. */
  newtype Int32 = x: int | -0x8000_0000 <= x < 0x8000_0000

  /** The error of every type check: the type required and the type offered. */
  datatype TypeMismatchError = TypeMismatchError(expected: Type, actual: Type)

  /** A type for which no empty placeholder value exists (every scalar kind). */
  datatype VoidableTypeError = VoidableTypeError(ty: Type)

  /** Errors of a nested-path write. */
  datatype SetValueError =
    | TypeMismatch(mismatch: TypeMismatchError)
    | VoidableType(voidable: VoidableTypeError)

  /** One step of a field path; keys of maps are the only kind of step. */
  datatype FieldPathItem = Name(name: string)

  /** The value after an in-place operation, and what the operation returned. */
  datatype Mutation<S, R> = Mutation(state: S, result: R)

  /** A runtime value bound to a field during one filter execution. */
  datatype LhsValue =
    | Ip(addr: IpAddr)
    | Bytes(bytes: seq<bv8>)
    | Int(i: Int32)
    | Bool(b: bool)
    | Map(m: TypedMap)
  {
    /** `GetType for LhsValue`: a map reports its declared value type, every scalar its own kind. */
    function GetType(): (t: Type)
      ensures this.Map? <==> t.Map?
      ensures this.Map? ==> t == Type.Map(m.valueType)
      ensures this.Ip? <==> t == Type.Ip
      ensures this.Bytes? <==> t == Type.Bytes
      ensures this.Int? <==> t == Type.Int
      ensures this.Bool? <==> t == Type.Bool
    {
      match this
      case Ip(_) => Type.Ip
      case Bytes(_) => Type.Bytes
      case Int(_) => Type.Int
      case Bool(_) => Type.Bool
      case Map(m) => Type.Map(m.GetType())
    }

    /**
     * `LhsValue::as_ref`: a view of the value with the same data.  The
     * borrowed-or-owned distinction of byte buffers is not modelled, so the
     * view equals the value.
     */
    function AsRef(): (r: LhsValue)
      ensures r == this
      ensures r.GetType() == GetType()
    {
      match this
      case Ip(addr) => LhsValue.Ip(addr)
      case Bytes(bytes) => LhsValue.Bytes(bytes)
      case Int(i) => LhsValue.Int(i)
      case Bool(b) => LhsValue.Bool(b)
      case Map(m) => LhsValue.Map(m)
    }

    /** `LhsValue::get`: key lookup in a map; any other value is the wrong shape. */
    function Get(item: FieldPathItem, ty: Type): (r: Result<Option<LhsValue>, TypeMismatchError>)
      ensures r.Ok? <==> this.Map?
      ensures r.Ok? ==> (r.value.Some? <==> item.name in m.entries)
      ensures r.Ok? && r.value.Some? ==> r.value.value == m.entries[item.name]
      ensures r.Err? ==> r.error == TypeMismatchError(Type.Map(ty), GetType())
    {
      match this
      case Map(m) => Ok(m.Get(item.name))
      case _ => Err(TypeMismatchError(Type.Map(ty), GetType()))
    }

    /**
     * `LhsValue::get_mut`: the same lookup as `Get`, returning a mutable
     * reference; the caller's write through that reference is `edit`.
     */
    function GetMut(item: FieldPathItem, ty: Type, edit: LhsValue -> LhsValue)
      : (r: Mutation<LhsValue, Result<Option<LhsValue>, TypeMismatchError>>)
      ensures r.result == Get(item, ty)
      ensures r.result.Err? || r.result.value.None? ==> r.state == this
      ensures r.result.Ok? && r.result.value.Some? ==>
        r.state == LhsValue.Map(TypedMap(m.valueType, m.entries[item.name := edit(r.result.value.value)]))
    {
      match this
      case Map(m) =>
        var mu := m.GetMut(item.name, edit);
        Mutation(LhsValue.Map(mu.state), Ok(mu.result))
      case _ => Mutation(this, Err(TypeMismatchError(Type.Map(ty), GetType())))
    }

    /** `LhsValue::set`: the checked insert of a map; any other value is the wrong shape. */
    function Set(item: FieldPathItem, value: LhsValue)
      : (r: Mutation<LhsValue, Result<Option<LhsValue>, TypeMismatchError>>)
      ensures this.Map? ==>
        var ins := m.Insert(item.name, value);
        r == Mutation(LhsValue.Map(ins.state), ins.result)
      ensures !this.Map? ==>
        r == Mutation(this, Err(TypeMismatchError(Type.Map(value.GetType()), GetType())))
    {
      var valueType := value.GetType();
      match this
      case Map(m) =>
        var ins := m.Insert(item.name, value);
        Mutation(LhsValue.Map(ins.state), ins.result)
      case _ => Mutation(this, Err(TypeMismatchError(Type.Map(valueType), GetType())))
    }

    /**
     * `LhsValue::try_from(Type)`: the placeholder for a type, an empty map of
     * its value type; a scalar kind has none.
     */
    static function TryFromType(ty: Type): (r: Result<LhsValue, VoidableTypeError>)
      ensures r.Ok? <==> ty.Map?
      ensures r.Ok? ==> r.value.GetType() == ty && r.value.Map? && r.value.m.entries == map[]
      ensures r.Err? ==> r.error == VoidableTypeError(ty)
    {
      match ty
      case Map(inner) => Ok(LhsValue.Map(TypedMap.New(inner)))
      case _ => Err(VoidableTypeError(ty))
    }

    /**
     * `get_mut_or_try_set_default`: the entry under `item` of this map,
     * first storing the placeholder for `ty` there when the key is missing.
     */
    function GetMutOrTrySetDefault(item: FieldPathItem, ty: Type)
      : (r: Mutation<LhsValue, Result<LhsValue, SetValueError>>)
      ensures r.state.GetType() == GetType()
      ensures r.result.Err? ==> r.state == this
      ensures r.result.Ok? ==>
        && this.Map? && r.state.Map?
        && item.name in r.state.m.entries
        && r.state.m.entries[item.name] == r.result.value
        && r.state.m.entries == m.entries[item.name := r.result.value]
      ensures this.Map? && item.name in m.entries ==> r == Mutation(this, Ok(m.entries[item.name]))
      ensures this.Map? && item.name !in m.entries && !ty.Map? ==>
        r.result == Err(SetValueError.VoidableType(VoidableTypeError(ty)))
      ensures this.Map? && item.name !in m.entries && r.result.Ok? ==>
        r.result.value.Map? && r.result.value.m.entries == map[]
      ensures this.Map? && item.name !in m.entries && ty.Map? && m.valueType == ty ==>
        r.result == Ok(LhsValue.Map(TypedMap.New(ty.inner)))
    {
      match this
      case Map(m) =>
        if item.name in m.entries then
          Mutation(this, Ok(m.entries[item.name]))
        else
          match TryFromType(ty) {
            case Err(e) => Mutation(this, Err(SetValueError.VoidableType(e)))
            case Ok(placeholder) =>
              var s := Set(item, placeholder);
              match s.result {
                case Ok(_) => Mutation(s.state, Ok(placeholder))
                case Err(e) => Mutation(s.state, Err(SetValueError.TypeMismatch(e)))
              }
          }
      case _ =>
        Mutation(this, Err(SetValueError.TypeMismatch(TypeMismatchError(Type.Map(ty), GetType()))))
    }

    /**
     * `get_type_from_path`: the type a value would need so that the segments
     * in `rest` lead to this value, one map layer per segment.
     */
    function GetTypeFromPath(rest: seq<FieldPathItem>): (t: Type)
      ensures Depth(t) == Depth(GetType()) + |rest|
      ensures Leaf(t) == Leaf(GetType())
    {
      if rest == [] then GetType() else Type.Map(GetTypeFromPath(rest[1..]))
    }
  }

  /** The homogeneous map: a declared value type and the entries by key. */
  datatype TypedMap = TypedMap(valueType: Type, entries: map<string, LhsValue>)
  {
    /** `Map::new`: an empty map fixed to `ty`. */
    static function New(ty: Type): (r: TypedMap)
      ensures r.valueType == ty && r.entries == map[]
      ensures Homogeneous(r)
    {
      TypedMap(ty, map[])
    }

    /** `GetType for Map`: the declared value type. */
    function GetType(): (t: Type)
      ensures t == valueType
    {
      valueType
    }

    /** `Map::get`: the entry under `key`, if any. */
    function Get(key: string): (r: Option<LhsValue>)
      ensures r.Some? <==> key in entries
      ensures r.Some? ==> r.value == entries[key]
    {
      if key in entries then Some(entries[key]) else None
    }

    /** `Map::get_mut`: the entry under `key`, rewritten by the caller with `edit`. */
    function GetMut(key: string, edit: LhsValue -> LhsValue): (r: Mutation<TypedMap, Option<LhsValue>>)
      ensures r.result == Get(key)
      ensures r.state.valueType == valueType
      ensures key !in entries ==> r.state == this
      ensures key in entries ==> r.state.entries == entries[key := edit(entries[key])]
    {
      if key in entries then Mutation(TypedMap(valueType, entries[key := edit(entries[key])]), Some(entries[key]))
      else Mutation(this, None)
    }

    /**
     * `Map::insert`: stores `value` under `key` when its type is the declared
     * value type, returning the previous entry; otherwise a mismatch and no change.
     */
    function Insert(key: string, value: LhsValue): (r: Mutation<TypedMap, Result<Option<LhsValue>, TypeMismatchError>>)
      ensures r.result.Err? <==> value.GetType() != valueType
      ensures r.result.Err? ==>
        r.result.error == TypeMismatchError(valueType, value.GetType()) && r.state == this
      ensures r.result.Ok? ==>
        && r.result.value == Get(key)
        && r.state.valueType == valueType
        && r.state.entries.Keys == entries.Keys + {key}
        && r.state.entries[key] == value
        && (forall k :: k in entries && k != key ==> r.state.entries[k] == entries[k])
    {
      var valueType' := value.GetType();
      if valueType != valueType' then
        Mutation(this, Err(TypeMismatchError(valueType, valueType')))
      else
        Mutation(TypedMap(valueType, entries[key := value]), Ok(Get(key)))
    }
  }

  /** Every entry of `m` has the declared value type (checked on every insert). */
  ghost predicate Homogeneous(m: TypedMap)
  {
    forall k :: k in m.entries ==> m.entries[k].GetType() == m.valueType
  }

  /** A value whose maps, at every depth, are homogeneous. */
  ghost predicate WellFormed(v: LhsValue)
  {
    match v
    case Map(m) =>
      forall k :: k in m.entries ==> m.entries[k].GetType() == m.valueType && WellFormed(m.entries[k])
    case _ => true
  }

  /** The checked insert keeps a map well-formed and returns an entry of the declared type. */
  lemma InsertKeepsWellFormed(m: TypedMap, key: string, value: LhsValue)
    requires WellFormed(LhsValue.Map(m)) && WellFormed(value)
    ensures var ins := m.Insert(key, value);
      && WellFormed(LhsValue.Map(ins.state))
      && (ins.result.Ok? && ins.result.value.Some? ==> ins.result.value.value.GetType() == m.valueType)
  {
    var ins := m.Insert(key, value);
    if ins.result.Ok? {
      forall k | k in ins.state.entries
        ensures ins.state.entries[k].GetType() == m.valueType && WellFormed(ins.state.entries[k])
      {
        if k != key {
          assert k in m.entries;
        }
      }
    }
  }

  /** Inserting and then looking up the same key gives back the inserted value. */
  lemma InsertThenGet(m: TypedMap, key: string, value: LhsValue, other: string)
    requires value.GetType() == m.valueType
    ensures m.Insert(key, value).result.Ok?
    ensures m.Insert(key, value).state.Get(key) == Some(value)
    ensures other != key ==> m.Insert(key, value).state.Get(other) == m.Get(other)
  {
  }

  /** `get_mut` with an edit that keeps well-formedness and the type keeps the value well-formed. */
  lemma GetMutKeepsWellFormed(v: LhsValue, item: FieldPathItem, ty: Type, edit: LhsValue -> LhsValue)
    requires WellFormed(v)
    requires forall x :: WellFormed(x) ==> WellFormed(edit(x)) && edit(x).GetType() == x.GetType()
    ensures WellFormed(v.GetMut(item, ty, edit).state)
    ensures v.GetMut(item, ty, edit).state.GetType() == v.GetType()
  {
    var r := v.GetMut(item, ty, edit);
    if r.result.Ok? && r.result.value.Some? {
      var m' := r.state.m;
      forall k | k in m'.entries
        ensures m'.entries[k].GetType() == m'.valueType && WellFormed(m'.entries[k])
      {
        if k != item.name {
          assert k in v.m.entries;
        }
      }
    }
  }

  /** A read through `get_mut` that writes nothing back leaves the value as it was. */
  lemma GetMutIdentity(v: LhsValue, item: FieldPathItem, ty: Type)
    ensures v.GetMut(item, ty, x => x).state == v
  {
    var r := v.GetMut(item, ty, x => x);
    if r.result.Ok? && r.result.value.Some? {
      assert v.m.entries[item.name := v.m.entries[item.name]] == v.m.entries;
    }
  }

  /** The placeholder stored on a missing key is well-formed and of the required type. */
  lemma GetMutOrTrySetDefaultWellFormed(v: LhsValue, item: FieldPathItem, ty: Type)
    requires WellFormed(v)
    ensures var r := v.GetMutOrTrySetDefault(item, ty);
      && WellFormed(r.state)
      && (r.result.Ok? ==> WellFormed(r.result.value) && r.result.value.GetType() == v.m.valueType)
  {
    var r := v.GetMutOrTrySetDefault(item, ty);
    if v.Map? && item.name !in v.m.entries && ty.Map? {
      var placeholder := LhsValue.Map(TypedMap.New(ty.inner));
      InsertKeepsWellFormed(v.m, item.name, placeholder);
    }
  }
}
