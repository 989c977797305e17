/** The values an item stores in its details bag and detail collections.
    ContentDetail and DetailCollection themselves are not part of this model;
    their observable behaviour is fixed here as the content core uses it. */
module Details {

  /** The runtime type of a detail (`ContentDetail.ValueType`) and the static
      type argument `T` of `SetDetail<T>`. */
  datatype ValueType = StringType | BoolType | IntType | DateType | NullableDateType | ObjectType

  /** A detail value; `Null` is C#'s null. Dates are ticks. `Obj` is any
      other object, compared by its handle. */
  datatype Value = Null | Str(s: string) | Bool(b: bool) | Int(i: int) | Date(ticks: int) | Obj(handle: int)

  /** The ValueType of the detail `ContentDetail.New` creates for a non-null value. */
  function TypeOf(v: Value): ValueType
    requires v != Null
  {
    match v
    case Str(_) => StringType
    case Bool(_) => BoolType
    case Int(_) => IntType
    case Date(_) => DateType
    case Obj(_) => ObjectType
  }

  /** `typeof(T).IsAssignableFrom(u)`: object takes everything, `DateTime?` takes `DateTime`. */
  predicate IsAssignableFrom(t: ValueType, u: ValueType): (r: bool)
    ensures t == ObjectType || t == u ==> r
    ensures r && t != ObjectType && t != NullableDateType ==> u == t
    ensures r && t == NullableDateType ==> u == NullableDateType || u == DateType
  {
    t == ObjectType || t == u || (t == NullableDateType && u == DateType)
  }

  /** A detail of type `t` can hold `v`: null, or a value whose own type `t`
      is assignable from. */
  predicate Holds(t: ValueType, v: Value)
  {
    v == Null || IsAssignableFrom(t, TypeOf(v))
  }

  /** Assignability is a preorder with `object` on top. */
  lemma AssignableIsPreorder(t: ValueType, u: ValueType, w: ValueType)
    ensures IsAssignableFrom(t, t) && IsAssignableFrom(ObjectType, t)
    ensures IsAssignableFrom(t, u) && IsAssignableFrom(u, w) ==> IsAssignableFrom(t, w)
  {
  }

  /** One entry of the details bag: its name, type, value, the item it belongs
      to and its persistence id (0 until stored). */
  datatype ContentDetail = ContentDetail(name: string, valueType: ValueType, value: Value, enclosingItem: object?, id: int)

  /** `ContentDetail.New(item, name, value)`: a transient detail typed after its value. */
  function NewDetail(item: object?, name: string, value: Value): (d: ContentDetail)
    requires value != Null
    ensures d.name == name && d.enclosingItem == item && d.id == 0
    ensures d.value == value && Holds(d.valueType, value)
  {
    ContentDetail(name, TypeOf(value), value, item, 0)
  }

  /** A named, ordered, multi-valued attribute of an item. */
  class DetailCollection {
    const name: string
    var enclosingItem: object?
    var values: seq<Value>

    /** `new DetailCollection(item, name)`. */
    constructor (item: object?, name: string)
      ensures this.name == name && enclosingItem == item && values == []
    {
      this.name := name;
      enclosingItem := item;
      values := [];
    }

    /** `collection.Clone()`: a new collection with the same name, owner and values. */
    method Clone() returns (c: DetailCollection)
      ensures fresh(c)
      ensures c.name == name && c.enclosingItem == enclosingItem && c.values == values
    {
      c := new DetailCollection(enclosingItem, name);
      c.values := values;
    }
  }
}
