/** `N2.Collections.CompositeFilter`: a conjunction of item filters, and the
    `Wrap` helper that turns a list of filters into one filter. */
module Filters {
  import opened Wrappers

  /** The filters this model distinguishes. `Custom` stands for every other
      `ItemFilter` subclass (access, zone, type, ...); what it accepts is
      given by the `custom` oracle passed to `Matches`. */
  datatype ItemFilter =
    | NullFilter
    | Composite(filters: seq<ItemFilter>)
    | Custom(tag: nat)

  /** `filter.Match(item)`. A `NullFilter` lets every item through. */
  function Matches<T>(f: ItemFilter, item: T, custom: (nat, T) -> bool): (r: bool)
    ensures f.NullFilter? || f == Composite([]) ==> r
    ensures f.Custom? ==> r == custom(f.tag, item)
    ensures f.Composite? && |f.filters| == 1 ==> r == Matches(f.filters[0], item, custom)
    decreases f
  {
    match f
    case NullFilter => true
    case Custom(tag) => custom(tag, item)
    case Composite(fs) => forall i | 0 <= i < |fs| :: Matches(fs[i], item, custom)
  }

  /** `new CompositeFilter(params ItemFilter[] filters)`: a null array becomes
      an empty one. */
  function FromArray(filters: Option<seq<ItemFilter>>): (f: ItemFilter)
    ensures f.Composite?
    ensures filters.None? ==> f.filters == []
    ensures filters.Some? ==> f.filters == filters.value
  {
    Composite(if filters.None? then [] else filters.value)
  }

  /** `new CompositeFilter(IEnumerable<ItemFilter> filters)`: the filters are
      copied into a fresh array in enumeration order. */
  function FromEnumerable(filters: seq<ItemFilter>): (f: ItemFilter)
    ensures f.Composite? && |f.filters| == |filters|
    ensures forall i :: 0 <= i < |filters| ==> f.filters[i] == filters[i]
  {
    Composite(filters)
  }

  /** `CompositeFilter.Match`: the filters are tried in order and the first one
      that rejects the item ends the loop. `evaluated` counts the filters whose
      `Match` was called. */
  method CompositeMatch<T>(f: ItemFilter, item: T, custom: (nat, T) -> bool)
    returns (r: bool, ghost evaluated: nat)
    requires f.Composite?
    ensures r <==> forall i :: 0 <= i < |f.filters| ==> Matches(f.filters[i], item, custom)
    ensures r <==> Matches(f, item, custom)
    ensures evaluated <= |f.filters|
    ensures r ==> evaluated == |f.filters|
    ensures !r ==> 0 < evaluated && !Matches(f.filters[evaluated - 1], item, custom)
    ensures forall i :: 0 <= i < evaluated - 1 ==> Matches(f.filters[i], item, custom)
  {
    var fs := f.filters;
    var k := 0;
    while k < |fs|
      invariant 0 <= k <= |fs|
      invariant forall i :: 0 <= i < k ==> Matches(fs[i], item, custom)
    {
      if !Matches(fs[k], item, custom) {
        return false, k + 1;
      }
      k := k + 1;
    }
    return true, k;
  }

  /** `CompositeFilter.Wrap(IList<ItemFilter>)`, `None` standing for a null
      list. The `params` overload casts its array and calls this one. */
  function Wrap(filters: Option<seq<ItemFilter>>): (f: ItemFilter)
    ensures filters.None? || |filters.value| == 0 ==> f == NullFilter
    ensures filters.Some? && |filters.value| == 1 ==> f == filters.value[0]
    ensures filters.Some? && |filters.value| >= 2 ==> f.Composite? && f.filters == filters.value
  {
    if filters.None? || |filters.value| == 0 then NullFilter
    else if |filters.value| == 1 then filters.value[0]
    else Composite(filters.value)
  }

  /** All filters of the list match the item. */
  predicate AllMatch<T>(fs: seq<ItemFilter>, item: T, custom: (nat, T) -> bool)
  {
    forall i :: 0 <= i < |fs| ==> Matches(fs[i], item, custom)
  }

  /** Wrapping never changes which items pass: the wrapped filter matches
      exactly the items that every filter of the list matches. */
  lemma WrapMatches<T>(filters: Option<seq<ItemFilter>>, item: T, custom: (nat, T) -> bool)
    ensures Matches(Wrap(filters), item, custom) <==>
      (filters.None? || AllMatch(filters.value, item, custom))
  {
  }

  /** A composite of the concatenation of two lists is the conjunction of
      the two composites. */
  lemma {:induction false} CompositeOfConcat<T>(a: seq<ItemFilter>, b: seq<ItemFilter>, item: T, custom: (nat, T) -> bool)
    ensures Matches(Composite(a + b), item, custom) <==>
      Matches(Composite(a), item, custom) && Matches(Composite(b), item, custom)
  {
    var ab := a + b;
    assert forall i :: 0 <= i < |a| ==> ab[i] == a[i];
    assert forall i :: 0 <= i < |b| ==> ab[|a| + i] == b[i];
    if Matches(Composite(a), item, custom) && Matches(Composite(b), item, custom) {
      forall i | 0 <= i < |ab|
        ensures Matches(ab[i], item, custom)
      {
        if i >= |a| {
          assert ab[i] == b[i - |a|];
        }
      }
    }
  }

  /** Nesting a composite inside another flattens: the nested filters act as
      if they had been listed directly. */
  lemma {:induction false} NestedCompositeFlattens<T>(a: seq<ItemFilter>, b: seq<ItemFilter>, item: T, custom: (nat, T) -> bool)
    ensures Matches(Composite([Composite(a)] + b), item, custom) <==> Matches(Composite(a + b), item, custom)
  {
    CompositeOfConcat([Composite(a)], b, item, custom);
    CompositeOfConcat(a, b, item, custom);
    assert Matches(Composite([Composite(a)]), item, custom) <==> Matches(Composite(a), item, custom) by {
      assert [Composite(a)][0] == Composite(a);
    }
  }

  /** An empty composite, such as one built from a null array, lets every item through. */
  lemma EmptyCompositeMatchesAll<T>(item: T, custom: (nat, T) -> bool)
    ensures Matches(FromArray(None), item, custom)
  {
  }
}
