/** The details bag of a content item (`GetDetail` and the two `SetDetail`
    overloads of ContentItem), as functions from the old bag to the new one.
    The class methods in module Content apply them to the item's field. */
module DetailBag {
  import opened Details

  /** The `details` dictionary: detail name to detail. */
  type Bag = map<string, ContentDetail>

  /** `GetDetail(name)`: the stored value, or null when there is no entry. */
  function GetDetail(bag: Bag, name: string): (r: Value)
    ensures name !in bag ==> r == Null
    ensures name in bag ==> r == bag[name].value
  {
    if name in bag then bag[name].value else Null
  }

  /** `GetDetail(name) ?? default`: what a property with a default reads. */
  function GetDetailOr(bag: Bag, name: string, default: Value): (r: Value)
    ensures r == Null ==> default == Null
    ensures name in bag && bag[name].value != Null ==> r == bag[name].value
    ensures name !in bag || bag[name].value == Null ==> r == default
  {
    var v := GetDetail(bag, name);
    if v == Null then default else v
  }

  /** Entries other than `name` are the same in both bags. */
  ghost predicate SameExcept(bag: Bag, bag': Bag, name: string)
  {
    (forall k :: k != name ==> (k in bag <==> k in bag')) &&
    (forall k :: k != name && k in bag ==> bag'[k] == bag[k])
  }

  /** `SetDetail<T>(name, value)` on an item `owner` whose bag is `bag`:
      null removes; an entry whose type `T` can hold is updated in place
      (same detail, same id and type); otherwise the old entry is dropped
      and a new one is created. */
  function SetDetail(bag: Bag, owner: object?, name: string, t: ValueType, value: Value): (r: Bag)
    ensures GetDetail(r, name) == value
    ensures value == Null ==> name !in r
    ensures SameExcept(bag, r, name)
    ensures value != Null && name in bag && IsAssignableFrom(t, bag[name].valueType) ==>
              r[name] == bag[name].(value := value)
    ensures value != Null && !(name in bag && IsAssignableFrom(t, bag[name].valueType)) ==>
              r[name] == NewDetail(owner, name, value)
  {
    if name in bag && value != Null && IsAssignableFrom(t, bag[name].valueType) then
      bag[name := bag[name].(value := value)]
    else
      var removed := if name in bag then bag - {name} else bag;
      if value != Null then removed[name := NewDetail(owner, name, value)] else removed
  }

  /** `SetDetail<T>(name, value, defaultValue)`: a non-null value equal to the
      default removes the entry, anything else is stored as by `SetDetail`. */
  function SetDetailOrDefault(bag: Bag, owner: object?, name: string, t: ValueType, value: Value, default: Value): (r: Bag)
    ensures GetDetail(r, name) == (if value == default then Null else value)
    ensures value == default ==> name !in r
    ensures SameExcept(bag, r, name)
  {
    if value == Null || value != default then SetDetail(bag, owner, name, t, value)
    else if name in bag then bag - {name}
    else bag
  }

  /** Default elision round trip: a property with default `d` reads back what
      was set, and a null or the default itself reads back as `d`. */
  lemma {:induction false} DefaultElisionRoundTrip(bag: Bag, owner: object?, name: string, t: ValueType, value: Value, d: Value)
    ensures GetDetailOr(SetDetailOrDefault(bag, owner, name, t, value, d), name, d) ==
              (if value == Null then d else value)
  {
  }

  /** Setting one detail never changes what another detail reads. */
  lemma {:induction false} SetDetailOrDefaultFrame(bag: Bag, owner: object?, name: string, other: string,
                                                    t: ValueType, value: Value, d: Value)
    requires other != name
    ensures GetDetail(SetDetailOrDefault(bag, owner, name, t, value, d), other) == GetDetail(bag, other)
  {
  }

  /** Every stored detail is filed under its own name. */
  ghost predicate NamedByKey(bag: Bag)
  {
    forall k :: k in bag ==> bag[k].name == k
  }

  lemma {:induction false} SetDetailKeepsNames(bag: Bag, owner: object?, name: string, t: ValueType, value: Value, d: Value)
    ensures NamedByKey(bag) ==> NamedByKey(SetDetail(bag, owner, name, t, value))
    ensures NamedByKey(bag) ==> NamedByKey(SetDetailOrDefault(bag, owner, name, t, value, d))
  {
  }
}
