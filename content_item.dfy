/** `N2.ContentItem`: the node of the content tree, with its details bag,
    detail collections, ordered children and parent back-reference. */
module Content {
  import opened Wrappers
  import opened Numerics
  import opened Text
  import opened Details
  import DetailBag
  import SortOrder
  import opened Filters

  /** What a concrete item class decides by overriding: whether it is a page,
      its `TemplateUrl`, and which property names the indexer assigns through
      reflection instead of the details bag (the public instance properties
      with a setter; `GetProperty` does not find a static one declared on a
      base class, such as `DefaultExtension`, so that name goes to the
      details). */
  datatype ItemType = ItemType(typeName: string, isPage: bool, templateUrl: string, writableProperties: set<string>)

  /** The name reflection gives the indexer `this[string]`: `GetProperty`
      finds it and reports it writable, but setting it without an index
      throws. */
  const IndexerName: string := "Item"

  /** `ContentItem.TemplateUrl` when a class does not override it. */
  const DefaultTemplateUrl: string := "~/default.aspx"

  /** `DateTime.MinValue`, in ticks. */
  const MinDate: int := 0

  /** A role allowed to read an item, with the item it belongs to. Whether a
      user is in the role is decided by the caller's `authorizes` oracle. */
  datatype AuthorizedRole = AuthorizedRole(role: string, enclosingItem: object?)

  /** The value assigned through the indexer: a detail value, or a detail
      collection (which the indexer refuses). */
  datatype IndexerValue = Plain(value: Value) | Collection(collection: DetailCollection)

  /** Where an accepted indexer assignment went. */
  datatype Assignment = PropertyAssigned | DetailAssigned

  /** `Expires` setter: `DateTime.MinValue` is stored as "never expires". */
  function NormalizedExpiry(value: Option<int>): (r: Option<int>)
    ensures r != Some(MinDate)
    ensures value != Some(MinDate) ==> r == value
    ensures value == Some(MinDate) ==> r == None
  {
    if value == Some(MinDate) then None else value
  }

  /** Normalizing the expiry twice is normalizing it once. */
  lemma NormalizedExpiryIdempotent(value: Option<int>)
    ensures NormalizedExpiry(NormalizedExpiry(value)) == NormalizedExpiry(value)
  {
  }

  class ContentItem {
    const itemType: ItemType
    var id: Int32
    var title: Option<string>
    var name: Option<string>
    var zoneName: Option<string>
    var parent: ContentItem?
    var created: int
    var updated: int
    var published: Option<int>
    var expires: Option<int>
    var sortOrder: Int32
    /** The cached `Url`; `None` until computed. */
    var url: Option<string>
    var visible: bool
    var versionOf: ContentItem?
    var savedBy: Option<string>
    /** `null` and the empty list both mean "anyone may read". */
    var authorizedRoles: seq<AuthorizedRole>
    var children: seq<ContentItem>
    var details: DetailBag.Bag
    var detailCollections: map<string, DetailCollection>

    /** Every detail and every detail collection is filed under its own name. */
    ghost predicate Valid()
      reads this`details, this`detailCollections
    {
      DetailBag.NamedByKey(details) &&
      (forall k :: k in detailCollections ==> detailCollections[k].name == k)
    }

    /** `new T()` for a concrete item class: created, updated and published
        are all "now"; the item is visible, unnamed and has no id. */
    constructor (itemType: ItemType, now: int)
      ensures this.itemType == itemType && Valid()
      ensures id == 0 && name == None && title == None && zoneName == None && savedBy == None
      ensures parent == null && versionOf == null && url == None && visible
      ensures created == now && updated == now && published == Some(now) && expires == None
      ensures sortOrder == 0 && authorizedRoles == [] && children == []
      ensures details == map[] && detailCollections == map[]
    {
      this.itemType := itemType;
      id := 0;
      title := None;
      name := None;
      zoneName := None;
      parent := null;
      created := now;
      updated := now;
      published := Some(now);
      expires := None;
      sortOrder := 0;
      url := None;
      visible := true;
      versionOf := null;
      savedBy := None;
      authorizedRoles := [];
      children := [];
      details := map[];
      detailCollections := map[];
    }

    /** `MemberwiseClone()`: a new item with every field of `source`. The
        lists and dictionaries are values here, so nothing is shared. */
    constructor Copy(source: ContentItem)
      ensures itemType == source.itemType && id == source.id && title == source.title
      ensures name == source.name && zoneName == source.zoneName && parent == source.parent
      ensures created == source.created && updated == source.updated
      ensures published == source.published && expires == source.expires
      ensures sortOrder == source.sortOrder && url == source.url && visible == source.visible
      ensures versionOf == source.versionOf && savedBy == source.savedBy
      ensures authorizedRoles == source.authorizedRoles && children == source.children
      ensures details == source.details && detailCollections == source.detailCollections
    {
      itemType := source.itemType;
      id := source.id;
      title := source.title;
      name := source.name;
      zoneName := source.zoneName;
      parent := source.parent;
      created := source.created;
      updated := source.updated;
      published := source.published;
      expires := source.expires;
      sortOrder := source.sortOrder;
      url := source.url;
      visible := source.visible;
      versionOf := source.versionOf;
      savedBy := source.savedBy;
      authorizedRoles := source.authorizedRoles;
      children := source.children;
      details := source.details;
      detailCollections := source.detailCollections;
    }

    /** `Name` getter: the stored name, else the id in decimal for a saved
        item, else the empty string. */
    function Name(): (r: string)
      reads this`name, this`id
      ensures name.Some? ==> r == name.value
      ensures name.None? ==> (r == "" <==> id <= 0)
      ensures name.None? && id > 0 ==> IsDigits(r) && ParseInt(r) == id
    {
      if name.Some? then name.value
      else if id > 0 then
        IntToStringRoundTrip(id);
        IntToString(id)
      else ""
    }

    /** `Name` setter: stores the name and drops the cached url, which was
        computed from the old name. */
    method SetName(value: Option<string>)
      modifies this`name, this`url
      ensures name == value && url == None
    {
      name := value;
      url := None;
    }

    /** `Expires` setter. */
    method SetExpires(value: Option<int>)
      modifies this`expires
      ensures expires == NormalizedExpiry(value)
      ensures expires != Some(MinDate)
    {
      if value != Some(MinDate) {
        expires := value;
      } else {
        expires := None;
      }
    }

    /** `Equals(object)`: the same reference is equal; a null or an item of
        another class is not; two saved items are equal when their ids are;
        otherwise only the same reference is equal. */
    function Equals(other: ContentItem?): (r: bool)
      reads this`id, (if other == null then {} else {other as ContentItem})`id
      ensures other == this ==> r
      ensures other == null ==> !r
      ensures other != null && other.itemType.typeName != itemType.typeName ==> !r
      ensures r && other != this ==> id != 0 && id == other.id
      ensures other != null && other.itemType.typeName == itemType.typeName && id != 0 && other.id != 0 ==>
                (r <==> id == other.id)
    {
      if this == other then true
      else if other == null || other.itemType.typeName != itemType.typeName then false
      else if id != 0 && other.id != 0 then id == other.id
      else false
    }

    /** Equality is symmetric. */
    lemma EqualsSymmetric(other: ContentItem)
      ensures Equals(other) == other.Equals(this)
    {
    }

    /** Equality is transitive: equal ids, or the same reference, chain. */
    lemma EqualsTransitive(b: ContentItem, c: ContentItem)
      requires Equals(b) && b.Equals(c)
      ensures Equals(c)
    {
    }

    /** `IComparable.CompareTo(object)`, with the corrected sign-based
        comparison of sort orders; anything that is not an item compares
        as 0. */
    function CompareTo(other: ContentItem?): (r: int)
      reads this, other
      ensures other == null ==> r == 0
      ensures other != null ==> (r < 0 <==> sortOrder < other.sortOrder)
      ensures other != null ==> (r > 0 <==> sortOrder > other.sortOrder)
    {
      if other == null then 0 else SortOrder.CompareSortOrder(sortOrder, other.sortOrder)
    }

    /** `IsAuthorized(user)`: an item without authorized roles is open to all;
        otherwise some role must authorize the user. */
    method IsAuthorized<P>(user: P, authorizes: (AuthorizedRole, P) -> bool) returns (r: bool)
      ensures r <==> (|authorizedRoles| == 0 ||
                      exists i :: 0 <= i < |authorizedRoles| && authorizes(authorizedRoles[i], user))
    {
      if |authorizedRoles| == 0 {
        return true;
      }
      var i := 0;
      while i < |authorizedRoles|
        invariant 0 <= i <= |authorizedRoles|
        invariant forall j :: 0 <= j < i ==> !authorizes(authorizedRoles[j], user)
      {
        if authorizes(authorizedRoles[i], user) {
          return true;
        }
        i := i + 1;
      }
      return false;
    }

    /** `GetDetail(name)`: the value of the detail filed under `name`, or
        null when there is none. */
    function GetDetail(name: string): (r: Value)
      reads this`details
      ensures name !in details ==> r == Null
      ensures name in details ==> r == details[name].value
    {
      DetailBag.GetDetail(details, name)
    }

    /** `SetDetail<T>(name, value)`. */
    method SetDetail(name: string, t: ValueType, value: Value)
      modifies this`details
      ensures details == DetailBag.SetDetail(old(details), this, name, t, value)
      ensures GetDetail(name) == value
      ensures old(DetailBag.NamedByKey(details)) ==> DetailBag.NamedByKey(details)
    {
      DetailBag.SetDetailKeepsNames(details, this, name, t, value, Null);
      details := DetailBag.SetDetail(details, this, name, t, value);
    }

    /** `SetDetail<T>(name, value, defaultValue)`. */
    method SetDetailOrDefault(name: string, t: ValueType, value: Value, default: Value)
      modifies this`details
      ensures details == DetailBag.SetDetailOrDefault(old(details), this, name, t, value, default)
      ensures GetDetail(name) == (if value == default then Null else value)
      ensures old(DetailBag.NamedByKey(details)) ==> DetailBag.NamedByKey(details)
    {
      DetailBag.SetDetailKeepsNames(details, this, name, t, value, default);
      if value == Null || value != default {
        SetDetail(name, t, value);
      } else if name in details {
        details := details - {name};
      }
    }

    /** The indexer's setter, `this[name] = value`: an empty name is refused;
        the indexer itself, found by reflection as `Item`, cannot be set
        without an index; a declared writable property is assigned through
        reflection (not modelled: the details are left alone); a detail
        collection is refused; any other value goes to `SetDetail<object>`. */
    method SetItem(name: string, value: IndexerValue) returns (r: Result<Assignment>)
      modifies this`details
      ensures name == "" ==> r == Failure(InvalidArgument)
      ensures name == IndexerName ==> r == Failure(ParameterCountMismatch)
      ensures name != "" && name != IndexerName && name in itemType.writableProperties ==> r == Success(PropertyAssigned)
      ensures name != "" && name != IndexerName && name !in itemType.writableProperties && value.Collection? ==>
                r == Failure(UsageError)
      ensures name != "" && name != IndexerName && name !in itemType.writableProperties && value.Plain? ==>
                r == Success(DetailAssigned) &&
                details == DetailBag.SetDetail(old(details), this, name, ObjectType, value.value)
      ensures r != Success(DetailAssigned) ==> details == old(details)
    {
      if name == "" {
        return Failure(InvalidArgument);
      }
      if name == IndexerName {
        return Failure(ParameterCountMismatch);
      }
      if name in itemType.writableProperties {
        return Success(PropertyAssigned);
      }
      match value
      case Collection(_) =>
        return Failure(UsageError);
      case Plain(v) =>
        SetDetail(name, ObjectType, v);
        return Success(DetailAssigned);
    }

    /** `GetDetailCollection(name, createWhenEmpty)`: the registered
        collection; else, when asked, a new empty one owned by this item and
        registered under its name; else null. */
    method GetDetailCollection(name: string, createWhenEmpty: bool) returns (c: DetailCollection?)
      modifies this`detailCollections
      ensures name in old(detailCollections) ==>
                c == old(detailCollections)[name] && detailCollections == old(detailCollections)
      ensures name !in old(detailCollections) && !createWhenEmpty ==>
                c == null && detailCollections == old(detailCollections)
      ensures name !in old(detailCollections) && createWhenEmpty ==>
                c != null && fresh(c) && c.name == name && c.enclosingItem == this && c.values == [] &&
                detailCollections == old(detailCollections)[name := c]
      ensures old(Valid()) ==> Valid()
    {
      if name in detailCollections {
        c := detailCollections[name];
      } else if createWhenEmpty {
        c := new DetailCollection(this, name);
        detailCollections := detailCollections[name := c];
      } else {
        c := null;
      }
    }

    /** `FindChild(name)`: the first child whose `Name` equals `name` under
        `sameName`, or null. `sameName` is .NET's
        `string.Equals(a, b, StringComparison.InvariantCultureIgnoreCase)`. */
    method FindChild(childName: string, sameName: (string, string) -> bool) returns (c: ContentItem?)
      ensures c == FirstNamed(children, childName, sameName)
    {
      var i := 0;
      while i < |children|
        invariant 0 <= i <= |children|
        invariant forall j :: 0 <= j < i ==> !sameName(childName, children[j].Name())
      {
        if sameName(childName, children[i].Name()) {
          return children[i];
        }
        i := i + 1;
      }
      return null;
    }

    /** `GetChild(path)`: resolves a slash-separated path below this item.
        An empty path gives null, `"/"` gives this item, a leading slash is
        skipped, and each segment picks the first child of that name under
        `sameName`. */
    method GetChild(childName: string, sameName: (string, string) -> bool) returns (r: ContentItem?)
      ensures r == Resolve(this, childName, sameName)
      ensures childName == "" ==> r == null
      ensures childName == "/" ==> r == this
      decreases |childName|
    {
      if |childName| == 0 {
        return null;
      }
      var slashIndex := IndexOf(childName, '/');
      if slashIndex == 0 {
        if |childName| == 1 {
          return this;
        }
        r := GetChild(childName[1..], sameName);
      } else if slashIndex > 0 {
        var child := FindChild(childName[..slashIndex], sameName);
        if child != null {
          r := child.GetChild(childName[slashIndex..], sameName);
        } else {
          r := null;
        }
      } else {
        r := FindChild(childName, sameName);
      }
    }

    /** `Path`: walks up to the root, prepending `"/" + Name` for every item
        that has a parent. `chain` is this item followed by its ancestors. */
    method Path(ghost chain: seq<ContentItem>) returns (path: string)
      requires IsAncestorChain(this, chain)
      ensures path == PathOf(chain, |chain| - 1)
      ensures |path| > 0 && path[0] == '/' && path[|path| - 1] == '/'
    {
      path := "/";
      var item := this;
      ghost var k := 0;
      while item.parent != null
        invariant 0 <= k < |chain| && item == chain[k]
        invariant item.parent == (if k < |chain| - 1 then chain[k + 1] else null)
        invariant path == PathOf(chain, k)
        decreases |chain| - k
      {
        path := "/" + item.Name() + path;
        item := item.parent;
        k := k + 1;
      }
    }

    /** `RewrittenUrl`: for a page, its template with `?page=ID`; otherwise
        the nearest page ancestor's template with `?page=..&item=ID`;
        otherwise, for a version, the template of the item it is a version
        of; otherwise `TemplateNotFoundException`. `chain` is this item
        followed by its ancestors; `toAbsolute` is `Utility.ToAbsolute`. */
    method RewrittenUrl(ghost chain: seq<ContentItem>, toAbsolute: string -> string) returns (r: Result<string>)
      requires IsAncestorChain(this, chain)
      ensures r == RewrittenUrlOf(chain, toAbsolute)
    {
      if itemType.isPage {
        return Success(toAbsolute(itemType.templateUrl) + "?page=" + IntToString(id));
      }
      var ancestor := parent;
      ghost var k := 1;
      while ancestor != null
        invariant 1 <= k <= |chain|
        invariant ancestor == (if k < |chain| then chain[k] else null)
        invariant forall j :: 1 <= j < k ==> !chain[j].itemType.isPage
        decreases |chain| - k
      {
        if ancestor.itemType.isPage {
          assert NearestPage(chain, 1) == k;
          return Success(toAbsolute(ancestor.itemType.templateUrl) + "?page=" + IntToString(ancestor.id) +
                         "&item=" + IntToString(id));
        }
        ancestor := ancestor.parent;
        k := k + 1;
      }
      assert NearestPage(chain, 1) == |chain|;
      if versionOf != null {
        return Success(versionOf.itemType.templateUrl);
      }
      return Failure(TemplateNotFound);
    }

    /** The list `GetChildren(filters)` draws from: a version lists the
        children of the item it is a version of. */
    function ChildSource(): (r: seq<ContentItem>)
      reads this, versionOf
      ensures versionOf == null ==> r == children
      ensures versionOf != null ==> r == versionOf.children
    {
      if versionOf == null then children else versionOf.children
    }

    /** A version lists the same children as its master, whatever the filters. */
    lemma VersionListsMasterChildren(filters: seq<ItemFilter>, custom: (nat, ContentItem) -> bool)
      requires versionOf != null && versionOf.versionOf == null
      ensures ChildSource() == versionOf.ChildSource()
      ensures GetChildren(filters, custom) == versionOf.GetChildren(filters, custom)
    {
    }

    /** `GetChildren(filters)`: the items of `ChildSource()` that pass every
        filter, in order. */
    function GetChildren(filters: seq<ItemFilter>, custom: (nat, ContentItem) -> bool): (r: seq<ContentItem>)
      reads this, versionOf
      ensures forall i :: 0 <= i < |r| ==> r[i] in ChildSource() && AllMatch(filters, r[i], custom)
      ensures forall i :: 0 <= i < |ChildSource()| && AllMatch(filters, ChildSource()[i], custom) ==>
                ChildSource()[i] in r
      ensures |r| <= |ChildSource()|
      ensures var idx := KeptIndices(ChildSource(), 0, filters, custom);
                |idx| == |r| && forall j :: 0 <= j < |r| ==> r[j] == ChildSource()[idx[j]]
    {
      KeepMatchingInOrder(ChildSource(), 0, filters, custom);
      assert ChildSource()[0..] == ChildSource();
      KeepMatching(ChildSource(), filters, custom)
    }

    /** `Clone(includeChildren)`: a memberwise copy of this item with id 0
        and no cached url, whose details are re-applied through its own
        indexer, whose detail collections and authorized roles are copies
        owned by it, and whose children are, when asked for, clones of this
        item's children attached to it one by one through `AddTo`. The source
        is left as it was. `h` bounds the height of the subtree and `nodes`
        holds it; the source has no such bound and does not terminate on a
        cyclic tree. */
    method Clone(includeChildren: bool, ghost h: nat, ghost nodes: set<ContentItem>) returns (r: Result<ContentItem>)
      requires InTree(this, h, nodes)
      ensures r.Success? <==> Clonable(this, includeChildren, h, nodes)
      ensures r.Failure? ==> RefusedDetailName(r.error)
      ensures r.Success? ==> fresh(r.value) && CopiedFrom(r.value, this) && r.value.parent == parent
      ensures r.Success? ==> parent == null || r.value !in parent.children
      ensures r.Success? ==> DetailsCloned(this, r.value)
      ensures r.Success? ==> r.value.authorizedRoles == RolesOwnedBy(authorizedRoles, r.value)
      ensures r.Success? && !includeChildren ==> r.value.children == []
      ensures r.Success? && includeChildren ==> exists clones :: ClonedChildren(children, r.value, clones)
      ensures r.Success? ==> forall j :: 0 <= j < |r.value.children| ==> fresh(r.value.children[j])
      decreases h, 3
    {
      var cloned := MemberwiseCopy();
      r := CloneInto(includeChildren, cloned, h, nodes);
    }

    /** The rest of `Clone` once the memberwise copy is made: `CloneDetails`,
        `CloneChildren` and `CloneAuthorizedRoles`, in that order, on the
        copy `cloned`. */
    method CloneInto(includeChildren: bool, cloned: ContentItem, ghost h: nat, ghost nodes: set<ContentItem>)
      returns (r: Result<ContentItem>)
      requires InTree(this, h, nodes) && cloned !in nodes && cloned.itemType == itemType
      modifies cloned`details, cloned`detailCollections, cloned`children, cloned`authorizedRoles
      ensures r.Success? <==> Clonable(this, includeChildren, h, nodes)
      ensures r.Failure? ==> RefusedDetailName(r.error)
      ensures r.Success? ==> r.value == cloned
      ensures r.Success? ==> DetailsCloned(this, cloned)
      ensures r.Success? ==> cloned.authorizedRoles == RolesOwnedBy(authorizedRoles, cloned)
      ensures r.Success? && !includeChildren ==> cloned.children == []
      ensures r.Success? && includeChildren ==> exists clones :: ClonedChildren(children, cloned, clones)
      ensures r.Success? ==> forall j :: 0 <= j < |cloned.children| ==> fresh(cloned.children[j])
      decreases h, 2
    {
      var detailsCloned := CloneDetails(cloned);
      if detailsCloned.Failure? {
        return Failure(detailsCloned.error);
      }
      r := CloneChildrenAndRoles(includeChildren, cloned, h, nodes);
    }

    /** The last two steps of `Clone`: `CloneChildren`, then, when it went
        through, `CloneAuthorizedRoles`. */
    method CloneChildrenAndRoles(includeChildren: bool, cloned: ContentItem, ghost h: nat, ghost nodes: set<ContentItem>)
      returns (r: Result<ContentItem>)
      requires InTree(this, h, nodes) && cloned !in nodes
      modifies cloned`children, cloned`authorizedRoles
      ensures r.Success? <==>
                (includeChildren && h > 0 ==> forall i :: 0 <= i < |children| ==> Clonable(children[i], true, h - 1, nodes))
      ensures r.Failure? ==> RefusedDetailName(r.error)
      ensures r.Success? ==> r.value == cloned
      ensures r.Success? ==> cloned.authorizedRoles == RolesOwnedBy(authorizedRoles, cloned)
      ensures r.Success? && !includeChildren ==> cloned.children == []
      ensures r.Success? && includeChildren ==> exists clones :: ClonedChildren(children, cloned, clones)
      ensures r.Success? ==> forall j :: 0 <= j < |cloned.children| ==> fresh(cloned.children[j])
      decreases h, 1
    {
      var childrenCloned, clones := CloneChildren(includeChildren, cloned, h, nodes);
      if childrenCloned.Failure? {
        return Failure(childrenCloned.error);
      }
      CloneAuthorizedRoles(cloned);
      assert includeChildren ==> ClonedChildren(children, cloned, clones);
      return Success(cloned);
    }

    /** `MemberwiseClone()` followed by resetting the copy's id and url. */
    method MemberwiseCopy() returns (cloned: ContentItem)
      ensures fresh(cloned) && CopiedFrom(cloned, this) && cloned.parent == parent
      ensures cloned.details == details && cloned.detailCollections == detailCollections
      ensures cloned.authorizedRoles == authorizedRoles && cloned.children == children
    {
      cloned := new ContentItem.Copy(this);
      cloned.id := 0;
      cloned.url := None;
    }

    /** `CloneChildren(includeChildren, cloned)`: the clone starts with no
        children; when asked, each child in turn is cloned (with its own
        children) and attached to the clone through `AddTo`. `clones` are
        the copies, in the order of the children they were made from. */
    method CloneChildren(includeChildren: bool, cloned: ContentItem, ghost h: nat, ghost nodes: set<ContentItem>)
      returns (r: Result<ContentItem>, ghost clones: seq<ContentItem>)
      requires InTree(this, h, nodes) && cloned !in nodes
      modifies cloned`children
      ensures r.Success? <==>
                (includeChildren && h > 0 ==> forall i :: 0 <= i < |children| ==> Clonable(children[i], true, h - 1, nodes))
      ensures r.Failure? ==> RefusedDetailName(r.error)
      ensures r.Success? && !includeChildren ==> cloned.children == []
      ensures r.Success? && includeChildren ==> ClonedChildren(children, cloned, clones)
      ensures r.Success? ==> forall j :: 0 <= j < |cloned.children| ==> fresh(cloned.children[j])
      decreases h, 0
    {
      cloned.children := [];
      clones := [];
      if !includeChildren {
        return Success(cloned), clones;
      }
      ghost var hc: nat := if h > 0 then h - 1 else 0;
      var i := 0;
      while i < |children|
        invariant 0 <= i <= |children| && |clones| == i
        invariant i > 0 ==> h > 0
        invariant AttachedPrefix(cloned, children, clones, hc, nodes)
        invariant forall k :: 0 <= k < i ==> fresh(clones[k])
      {
        assert h > 0;
        var attached := CloneAndAttach(cloned, hc, nodes, clones, children, children[i]);
        if attached.Failure? {
          return Failure(attached.error), clones;
        }
        clones := clones + [attached.value];
        i := i + 1;
      }
      return Success(cloned), clones;
    }

    /** `CloneDetails(cloned)`: every detail is re-applied through the
        clone's indexer (which throws on an empty name and on the indexer's
        own name), and every detail collection is copied and handed over to
        the clone. */
    method CloneDetails(cloned: ContentItem) returns (r: Result<ContentItem>)
      requires Valid() && cloned != this && cloned.itemType == itemType
      modifies cloned`details, cloned`detailCollections
      ensures r.Success? <==> "" !in details && IndexerName !in details
      ensures r.Failure? ==> (r.error == InvalidArgument && "" in details) ||
                             (r.error == ParameterCountMismatch && IndexerName in details)
      ensures r.Success? ==> r.value == cloned
      ensures r.Success? ==> DetailsCloned(this, cloned)
      ensures r.Success? ==> fresh(cloned.detailCollections.Values)
    {
      cloned.details := map[];
      var remaining := details.Keys;
      while remaining != {}
        invariant remaining <= details.Keys
        invariant "" !in details.Keys - remaining && IndexerName !in details.Keys - remaining
        invariant cloned.details == ClonedDetails(details, details.Keys - remaining, cloned)
        decreases remaining
      {
        var k :| k in remaining;
        var detail := details[k];
        ghost var before := cloned.details;
        var outcome := cloned.SetItem(detail.name, Plain(detail.value));
        if outcome.Failure? {
          return Failure(outcome.error);
        }
        assert k !in before;
        remaining := remaining - {k};
        assert cloned.details == ClonedDetails(details, details.Keys - remaining, cloned);
      }
      assert details.Keys - remaining == details.Keys;
      CloneCollections(cloned);
      return Success(cloned);
    }

    /** The second half of `CloneDetails`: each detail collection is copied,
        handed over to the clone, and registered under its name. */
    method CloneCollections(cloned: ContentItem)
      requires Valid() && cloned != this
      modifies cloned`detailCollections
      ensures CollectionsHandedOver(detailCollections, cloned)
      ensures fresh(cloned.detailCollections.Values)
    {
      cloned.detailCollections := map[];
      var keys := detailCollections.Keys;
      while keys != {}
        invariant keys <= detailCollections.Keys
        invariant cloned.detailCollections.Keys == detailCollections.Keys - keys
        invariant forall k :: k in cloned.detailCollections ==> HandedOver(detailCollections[k], cloned.detailCollections[k], cloned)
        invariant forall k :: k in cloned.detailCollections ==> fresh(cloned.detailCollections[k])
        decreases keys
      {
        var k :| k in keys;
        var collection := detailCollections[k];
        var copy := collection.Clone();
        copy.enclosingItem := cloned;
        cloned.detailCollections := cloned.detailCollections[collection.name := copy];
        keys := keys - {k};
      }
      assert forall c :: c in cloned.detailCollections.Values ==> exists k :: k in cloned.detailCollections && cloned.detailCollections[k] == c;
    }

    /** `CloneAuthorizedRoles(cloned)`: a copy of every role, owned by the clone. */
    method CloneAuthorizedRoles(cloned: ContentItem)
      requires cloned != this
      modifies cloned`authorizedRoles
      ensures cloned.authorizedRoles == RolesOwnedBy(authorizedRoles, cloned)
    {
      cloned.authorizedRoles := [];
      var i := 0;
      while i < |authorizedRoles|
        invariant 0 <= i <= |authorizedRoles|
        invariant cloned.authorizedRoles == RolesOwnedBy(authorizedRoles[..i], cloned)
      {
        cloned.authorizedRoles := cloned.authorizedRoles + [authorizedRoles[i].(enclosingItem := cloned)];
        i := i + 1;
      }
      assert authorizedRoles[..i] == authorizedRoles;
    }

    /** `AddTo(newParent)` leaves its current parent: there is one, it is
        not the new parent (by reference), and its children hold an item
        equal to this one. */
    predicate Leaves(newParent: ContentItem?): (r: bool)
      reads this`parent, this`id, if parent != null then parent.children else []
      reads if parent != null then {parent} else {}
      ensures r ==> parent != null && parent != newParent && EqualIndex(parent.children, this) < |parent.children|
      ensures parent != null && parent != newParent && this in parent.children ==> r
    {
      parent != null && parent != newParent && ContainsEqual(parent.children, this)
    }

    /** The objects whose `children` lists `AddTo(newParent)` may change: the
        parent being left and the new parent. */
    function AddToFrame(newParent: ContentItem?): set<ContentItem>
      reads this`parent, this`id, if parent != null then parent.children else []
      reads if parent != null then {parent} else {}
    {
      (if Leaves(newParent) then {parent} else {}) + (if newParent != null then {newParent} else {})
    }

    /** `AddTo(newParent)`: the parent being left loses the first child equal
        to this item (by `Equals`, so possibly another object with the same
        id); the parent is set; and unless the new parent already holds an
        item equal to this one, this item joins its children at the position
        the gap rule picks from the siblings' sort orders. This item's own
        sort order plays no part. */
    method AddTo(newParent: ContentItem?)
      modifies this`parent, AddToFrame(newParent)`children
      ensures parent == newParent
      ensures old(Leaves(newParent)) ==>
                old(parent).children == SortOrder.RemoveAt(old(parent.children), old(EqualIndex(parent.children, this)))
      ensures newParent != null ==> ContainsEqual(newParent.children, this)
      ensures newParent != null && old(ContainsEqual(newParent.children, this)) ==>
                newParent.children == old(newParent.children)
      ensures newParent != null && !old(ContainsEqual(newParent.children, this)) ==>
                newParent.children ==
                  SortOrder.InsertAt(old(newParent.children),
                                     SortOrder.InsertionPoint(old(SortOrders(newParent.children))), this)
    {
      var oldParent := parent;
      ghost var siblings := if newParent != null then newParent.children else [];
      ghost var present := ContainsEqual(siblings, this);
      ghost var orders := SortOrders(siblings);
      if oldParent != null && oldParent != newParent && ContainsEqual(oldParent.children, this) {
        RemoveChild(oldParent, EqualIndex(oldParent.children, this));
      }
      parent := newParent;
      if newParent != null {
        assert newParent.children == siblings;
        assert ContainsEqual(newParent.children, this) == present;
        assert SortOrders(newParent.children) == orders;
        JoinChildren(newParent, this);
      }
    }
  }

  /** `list.IndexOf(x)` under `Equals`: the index of the first item equal to
      `x`, or `|s|` when there is none. */
  function EqualIndex(s: seq<ContentItem>, x: ContentItem): (i: nat)
    reads s`id, x`id
    ensures i <= |s|
    ensures i < |s| ==> s[i].Equals(x)
    ensures forall j :: 0 <= j < i ==> !s[j].Equals(x)
    ensures x in s ==> i < |s|
  {
    if |s| == 0 then 0
    else if s[0].Equals(x) then 0
    else 1 + EqualIndex(s[1..], x)
  }

  /** `list.Contains(x)` under `Equals`: an item that is in the list by
      reference is always contained, and a contained item has an equal
      one at `EqualIndex`. */
  predicate ContainsEqual(s: seq<ContentItem>, x: ContentItem): (r: bool)
    reads s`id, x`id
    ensures x in s ==> r
    ensures r ==> EqualIndex(s, x) < |s| && s[EqualIndex(s, x)].Equals(x)
  {
    EqualIndex(s, x) < |s|
  }

  /** `Contains` holds exactly when some item of the list equals `x`. */
  lemma ContainsEqualIffSome(s: seq<ContentItem>, x: ContentItem)
    ensures ContainsEqual(s, x) <==> exists j :: 0 <= j < |s| && s[j].Equals(x)
  {
  }

  /** An unsaved item (id 0) equals only itself, so for it `Contains` and
      `IndexOf` are the reference tests. */
  lemma UnsavedEqualsOnlyItself(s: seq<ContentItem>, x: ContentItem)
    requires x.id == 0
    ensures ContainsEqual(s, x) <==> x in s
    ensures ContainsEqual(s, x) ==> s[EqualIndex(s, x)] == x
  {
  }

  /** Detaching a child that `AddTo` inserted gives back the siblings it
      found, when none of them equals it: `AddTo(p)` followed by
      `AddTo(null)` leaves `p`'s children as they were. */
  lemma RemoveInsertedChild(s: seq<ContentItem>, pos: nat, x: ContentItem)
    requires pos <= |s| && !ContainsEqual(s, x)
    ensures EqualIndex(SortOrder.InsertAt(s, pos, x), x) == pos
    ensures SortOrder.RemoveAt(SortOrder.InsertAt(s, pos, x), pos) == s
  {
    SortOrder.RemoveAtInserted(s, pos, x);
  }

  /** The removal half of `AddTo`: `p` loses the child at index `i`. */
  method RemoveChild(p: ContentItem, i: nat)
    requires i < |p.children|
    modifies p`children
    ensures p.children == SortOrder.RemoveAt(old(p.children), i)
  {
    p.children := SortOrder.RemoveAt(p.children, i);
  }

  /** The joining half of `AddTo`: unless `p` already holds an item equal
      to `item`, `item` joins `p`'s children where the gap rule puts it. */
  method JoinChildren(p: ContentItem, item: ContentItem)
    modifies p`children
    ensures ContainsEqual(p.children, item)
    ensures old(ContainsEqual(p.children, item)) ==> p.children == old(p.children)
    ensures !old(ContainsEqual(p.children, item)) ==>
              p.children ==
                SortOrder.InsertAt(old(p.children), SortOrder.InsertionPoint(old(SortOrders(p.children))), item)
  {
    if !ContainsEqual(p.children, item) {
      InsertChild(p, item);
      assert item in p.children;
    }
  }

  /** The insertion half of `AddTo`: `item` joins `p`'s children where the
      gap rule puts it. */
  method InsertChild(p: ContentItem, item: ContentItem)
    modifies p`children
    ensures p.children ==
              SortOrder.InsertAt(old(p.children), SortOrder.InsertionPoint(old(SortOrders(p.children))), item)
  {
    var pos := FindInsertionIndex(p.children);
    p.children := SortOrder.InsertAt(p.children, pos, item);
  }

  /** The sort orders of a list of items. */
  function SortOrders(s: seq<ContentItem>): (r: seq<Int32>)
    reads s`sortOrder
    ensures |r| == |s| && forall i :: 0 <= i < |s| ==> r[i] == s[i].sortOrder
  {
    if |s| == 0 then [] else SortOrders(s[..|s| - 1]) + [s[|s| - 1].sortOrder]
  }

  /** The backward scan of `AddTo` over the new siblings: the position after
      the last gap larger than the threshold, else the front when the first
      sibling's order is above the threshold, else the end. */
  method FindInsertionIndex(siblings: seq<ContentItem>) returns (pos: nat)
    ensures pos == SortOrder.InsertionPoint(SortOrders(siblings))
  {
    ghost var orders := SortOrders(siblings);
    if |siblings| > 0 {
      var lastOrder := siblings[|siblings| - 1].sortOrder;
      var i := |siblings| - 2;
      while i >= 0
        invariant -1 <= i <= |siblings| - 2
        invariant lastOrder == orders[i + 1]
        invariant SortOrder.LastGap(orders, |siblings| - 1) == SortOrder.LastGap(orders, i + 1)
        decreases i + 1
      {
        if siblings[i].sortOrder < Wrap32(lastOrder - SortOrder.Threshold) {
          assert SortOrder.IsGap(orders, i);
          return i + 1;
        }
        lastOrder := siblings[i].sortOrder;
        i := i - 1;
      }
      if lastOrder > SortOrder.Threshold {
        return 0;
      }
    }
    return |siblings|;
  }

  /** The items that pass every filter, in their original order. */
  function KeepMatching(items: seq<ContentItem>, filters: seq<ItemFilter>, custom: (nat, ContentItem) -> bool)
    : (r: seq<ContentItem>)
    ensures forall i :: 0 <= i < |r| ==> r[i] in items && AllMatch(filters, r[i], custom)
    ensures forall i :: 0 <= i < |items| && AllMatch(filters, items[i], custom) ==> items[i] in r
    ensures |r| <= |items|
  {
    if |items| == 0 then []
    else
      var rest := KeepMatching(items[1..], filters, custom);
      assert forall i :: 1 <= i < |items| ==> items[i] == items[1..][i - 1];
      if AllMatch(filters, items[0], custom) then [items[0]] + rest else rest
  }

  /** Where in `items`, from position `from` on, the items `KeepMatching`
      keeps come from: strictly increasing positions of items that pass
      every filter. */
  function KeptIndices(items: seq<ContentItem>, from: nat, filters: seq<ItemFilter>, custom: (nat, ContentItem) -> bool)
    : (idx: seq<nat>)
    requires from <= |items|
    ensures forall j :: 0 <= j < |idx| ==> from <= idx[j] < |items| && AllMatch(filters, items[idx[j]], custom)
    ensures forall j, k :: 0 <= j < k < |idx| ==> idx[j] < idx[k]
    decreases |items| - from
  {
    if from == |items| then []
    else
      var rest := KeptIndices(items, from + 1, filters, custom);
      if AllMatch(filters, items[from], custom) then [from] + rest else rest
  }

  /** `KeepMatching` keeps the items at `KeptIndices`, one for one, so the
      kept items stay in their original order. */
  lemma {:induction false} KeepMatchingInOrder(items: seq<ContentItem>, from: nat, filters: seq<ItemFilter>,
                                               custom: (nat, ContentItem) -> bool)
    requires from <= |items|
    ensures |KeptIndices(items, from, filters, custom)| == |KeepMatching(items[from..], filters, custom)|
    ensures forall j :: 0 <= j < |KeepMatching(items[from..], filters, custom)| ==>
              KeepMatching(items[from..], filters, custom)[j] == items[KeptIndices(items, from, filters, custom)[j]]
    decreases |items| - from
  {
    if from < |items| {
      KeepMatchingInOrder(items, from + 1, filters, custom);
      assert items[from..][1..] == items[from + 1..];
      if AllMatch(filters, items[from], custom) {
        assert KeepMatching(items[from..], filters, custom)[1..] == KeepMatching(items[from + 1..], filters, custom);
      }
    }
  }

  /** The index of the first item whose `Name` equals `name` under
      `sameName`, or `|s|` when there is none. */
  function FirstNamedIndex(s: seq<ContentItem>, name: string, sameName: (string, string) -> bool): (i: nat)
    reads s
    ensures i <= |s|
    ensures i < |s| ==> sameName(name, s[i].Name())
    ensures forall j :: 0 <= j < i ==> !sameName(name, s[j].Name())
  {
    if |s| == 0 then 0
    else if sameName(name, s[0].Name()) then 0
    else 1 + FirstNamedIndex(s[1..], name, sameName)
  }

  /** The first item named `name` under `sameName`, or null. */
  function FirstNamed(s: seq<ContentItem>, name: string, sameName: (string, string) -> bool): (r: ContentItem?)
    reads s
    ensures r == null <==> forall j :: 0 <= j < |s| ==> !sameName(name, s[j].Name())
    ensures r != null ==> r in s && sameName(name, r.Name())
  {
    var i := FirstNamedIndex(s, name, sameName);
    if i < |s| then s[i] else null
  }

  /** What `GetChild(path)` returns when started at `n`. */
  ghost function Resolve(n: ContentItem, path: string, sameName: (string, string) -> bool): (r: ContentItem?)
    reads *
    ensures path == "" ==> r == null
    ensures path == "/" ==> r == n
    ensures path != "" && '/' !in path ==> r == FirstNamed(n.children, path, sameName)
    ensures path != "" && '/' !in path && r != null ==> r in n.children && sameName(path, r.Name())
    decreases |path|
  {
    if |path| == 0 then null
    else
      var k := IndexOf(path, '/');
      if k == 0 then
        if |path| == 1 then n else Resolve(n, path[1..], sameName)
      else if k > 0 then
        var child := FirstNamed(n.children, path[..k], sameName);
        if child == null then null else Resolve(child, path[k..], sameName)
      else FirstNamed(n.children, path, sameName)
  }

  /** `"/"` is the item itself and a leading slash is skipped. */
  lemma {:induction false} ResolveLeadingSlash(n: ContentItem, path: string, sameName: (string, string) -> bool)
    ensures Resolve(n, "/", sameName) == n
    ensures path != "" ==> Resolve(n, "/" + path, sameName) == Resolve(n, path, sameName)
  {
    if path != "" {
      assert ("/" + path)[1..] == path;
    }
  }

  /** A path is resolved one segment at a time: the first child with the
      segment's name, then the rest of the path from that child; a missing
      child ends the walk with null, and a trailing slash returns the child. */
  lemma {:induction false} ResolveSegment(n: ContentItem, name: string, rest: string, sameName: (string, string) -> bool)
    requires name != "" && '/' !in name && (rest == "" || rest[0] == '/')
    ensures var child := FirstNamed(n.children, name, sameName);
            Resolve(n, name + rest, sameName) == (if child == null then null else if rest == "" then child else Resolve(child, rest, sameName))
    ensures var child := FirstNamed(n.children, name, sameName);
            child != null ==> Resolve(n, name + "/", sameName) == child
  {
    var path := name + rest;
    if rest != "" {
      IndexOfAfterPrefix(name, rest, '/');
      assert path[..|name|] == name && path[|name|..] == rest;
    } else {
      assert path == name;
    }
    IndexOfAfterPrefix(name, "/", '/');
    var slashed := name + "/";
    assert slashed[..|name|] == name && slashed[|name|..] == "/";
    var child := FirstNamed(n.children, name, sameName);
    if child != null {
      ResolveLeadingSlash(child, "", sameName);
    }
  }

  /** `chain` is `n` followed by its ancestors up to a root. */
  ghost predicate IsAncestorChain(n: ContentItem, chain: seq<ContentItem>)
    reads chain
  {
    |chain| > 0 && chain[0] == n && chain[|chain| - 1].parent == null &&
    forall i :: 0 <= i < |chain| - 1 ==> chain[i].parent == chain[i + 1]
  }

  /** The path `Path` has built after walking `k` steps up `chain`. */
  function PathOf(chain: seq<ContentItem>, k: nat): (p: string)
    requires k < |chain|
    reads chain
    ensures |p| > 0 && p[0] == '/' && p[|p| - 1] == '/'
  {
    if k == 0 then "/" else "/" + chain[k - 1].Name() + PathOf(chain, k - 1)
  }

  /** `c` is found among the children of `p` by its name, which is a single
      path segment. */
  ghost predicate FoundAsChild(p: ContentItem, c: ContentItem, sameName: (string, string) -> bool)
    reads *
  {
    c.Name() != "" && '/' !in c.Name() && FirstNamed(p.children, c.Name(), sameName) == c
  }

  /** Every item of `chain` below the top is found by its name below the next. */
  ghost predicate FoundByName(chain: seq<ContentItem>, sameName: (string, string) -> bool)
    reads *
  {
    forall i :: 0 <= i < |chain| - 1 ==> FoundAsChild(chain[i + 1], chain[i], sameName)
  }

  /** One step of `PathLeadsBack`: `/name` followed by more path leads from
      the parent to the child found by that name. */
  lemma {:induction false} PathStep(p: ContentItem, c: ContentItem, rest: string, sameName: (string, string) -> bool)
    requires FoundAsChild(p, c, sameName) && |rest| > 0 && rest[0] == '/'
    ensures Resolve(p, "/" + c.Name() + rest, sameName) == Resolve(c, rest, sameName)
  {
    var name := c.Name();
    assert "/" + name + rest == "/" + (name + rest);
    ResolveLeadingSlash(p, name + rest, sameName);
    ResolveSegment(p, name, rest, sameName);
  }

  /** `Path` and `GetChild` are inverse: resolving from the `k`-th ancestor
      the path built up to it leads back to the item, when every step
      down is found by its name. */
  lemma {:induction false} PathLeadsBack(chain: seq<ContentItem>, k: nat, sameName: (string, string) -> bool)
    requires k < |chain| && FoundByName(chain, sameName)
    ensures Resolve(chain[k], PathOf(chain, k), sameName) == chain[0]
  {
    if k == 0 {
      ResolveLeadingSlash(chain[0], "", sameName);
    } else {
      assert FoundAsChild(chain[k], chain[k - 1], sameName);
      PathLeadsBack(chain, k - 1, sameName);
      PathStep(chain[k], chain[k - 1], PathOf(chain, k - 1), sameName);
    }
  }

  /** The index of the first page in `chain` at or after `k`, or `|chain|`. */
  function NearestPage(chain: seq<ContentItem>, k: nat): (p: nat)
    requires k <= |chain|
    ensures k <= p <= |chain|
    ensures p < |chain| ==> chain[p].itemType.isPage
    ensures forall j :: k <= j < p ==> !chain[j].itemType.isPage
    decreases |chain| - k
  {
    if k == |chain| || chain[k].itemType.isPage then k else NearestPage(chain, k + 1)
  }

  /** The address `RewrittenUrl` builds for `chain[0]`, whose ancestors
      follow it in `chain`. */
  function RewrittenUrlOf(chain: seq<ContentItem>, toAbsolute: string -> string): (r: Result<string>)
    requires |chain| > 0
    reads chain
    ensures r.Failure? ==> r.error == TemplateNotFound
    ensures r.Failure? <==>
              (forall j :: 0 <= j < |chain| ==> !chain[j].itemType.isPage) && chain[0].versionOf == null
  {
    var n := chain[0];
    if n.itemType.isPage then
      Success(toAbsolute(n.itemType.templateUrl) + "?page=" + IntToString(n.id))
    else
      var p := NearestPage(chain, 1);
      if p < |chain| then
        Success(toAbsolute(chain[p].itemType.templateUrl) + "?page=" + IntToString(chain[p].id) +
                "&item=" + IntToString(n.id))
      else if n.versionOf != null then Success(n.versionOf.itemType.templateUrl)
      else Failure(TemplateNotFound)
  }

  /** A page's address identifies it: two pages whose templates resolve to
      addresses without a query string have the same address only when
      they have the same id and the same template address. */
  lemma {:induction false} PageAddressIdentifiesPage(a: seq<ContentItem>, b: seq<ContentItem>, toAbsolute: string -> string)
    requires |a| > 0 && |b| > 0 && a[0].itemType.isPage && b[0].itemType.isPage
    requires '?' !in toAbsolute(a[0].itemType.templateUrl) && '?' !in toAbsolute(b[0].itemType.templateUrl)
    requires RewrittenUrlOf(a, toAbsolute) == RewrittenUrlOf(b, toAbsolute)
    ensures a[0].id == b[0].id
    ensures toAbsolute(a[0].itemType.templateUrl) == toAbsolute(b[0].itemType.templateUrl)
  {
    PageQueryIsUnambiguous(toAbsolute(a[0].itemType.templateUrl), a[0].id,
                           toAbsolute(b[0].itemType.templateUrl), b[0].id);
  }

  /** The string behind `PageAddressIdentifiesPage`: `?` splits a page's
      address back into its template and its id. */
  lemma {:induction false} PageQueryIsUnambiguous(t: string, id: int, t': string, id': int)
    requires '?' !in t && '?' !in t'
    requires t + "?page=" + IntToString(id) == t' + "?page=" + IntToString(id')
    ensures t == t' && id == id'
  {
    var x, x' := IntToString(id), IntToString(id');
    PageSplit(t, x, t', x');
    IntToStringInjective(id, id');
  }

  /** `?` splits `t?page=x` back into its parts when `t` holds no `?`. */
  lemma {:induction false} PageSplit(t: string, x: string, t': string, x': string)
    requires '?' !in t && '?' !in t'
    requires t + "?page=" + x == t' + "?page=" + x'
    ensures t == t' && x == x'
  {
    var q, q' := "page=" + x, "page=" + x';
    assert t + "?page=" + x == t + ['?'] + q;
    assert t' + "?page=" + x' == t' + ['?'] + q';
    SplitAtSeparator(t, q, t', q', '?');
    assert x == q[5..] && x' == q'[5..];
  }

  /** A part's address identifies it and the page that shows it: two non-page
      items with a page above them, whose page templates resolve to addresses
      without a query string, have the same address only when they have the
      same id and their nearest pages have the same id. */
  lemma {:induction false} PartAddressIdentifiesPart(a: seq<ContentItem>, b: seq<ContentItem>, toAbsolute: string -> string)
    requires |a| > 0 && |b| > 0 && !a[0].itemType.isPage && !b[0].itemType.isPage
    requires NearestPage(a, 1) < |a| && NearestPage(b, 1) < |b|
    requires '?' !in toAbsolute(a[NearestPage(a, 1)].itemType.templateUrl)
    requires '?' !in toAbsolute(b[NearestPage(b, 1)].itemType.templateUrl)
    requires RewrittenUrlOf(a, toAbsolute) == RewrittenUrlOf(b, toAbsolute)
    ensures a[0].id == b[0].id
    ensures a[NearestPage(a, 1)].id == b[NearestPage(b, 1)].id
  {
    var pa, pb := a[NearestPage(a, 1)], b[NearestPage(b, 1)];
    PartQueryIsUnambiguous(toAbsolute(pa.itemType.templateUrl), pa.id, a[0].id,
                           toAbsolute(pb.itemType.templateUrl), pb.id, b[0].id);
  }

  /** The string behind `PartAddressIdentifiesPart`: `?` and `&` split a
      part's address back into its template, its page id and its own id. */
  lemma {:induction false} PartQueryIsUnambiguous(t: string, page: int, item: int, t': string, page': int, item': int)
    requires '?' !in t && '?' !in t'
    requires t + "?page=" + IntToString(page) + "&item=" + IntToString(item) ==
             t' + "?page=" + IntToString(page') + "&item=" + IntToString(item')
    ensures page == page' && item == item'
  {
    var x, y, x', y' := IntToString(page), IntToString(item), IntToString(page'), IntToString(item');
    NumberHasOnlyDigits(page, '&');
    NumberHasOnlyDigits(page', '&');
    QueryIsUnambiguous(t, x, y, t', x', y');
    IntToStringInjective(page, page');
    IntToStringInjective(item, item');
  }

  /** `?` and `&` split `t?page=x&item=y` back into its parts when neither
      occurs where it is not a separator. */
  lemma {:induction false} QueryIsUnambiguous(t: string, x: string, y: string, t': string, x': string, y': string)
    requires '?' !in t && '?' !in t' && '&' !in x && '&' !in x'
    requires t + "?page=" + x + "&item=" + y == t' + "?page=" + x' + "&item=" + y'
    ensures x == x' && y == y'
  {
    var q, q' := "page=" + x + "&item=" + y, "page=" + x' + "&item=" + y';
    assert "?page=" == ['?'] + "page=" && "&item=" == ['&'] + "item=";
    Reassociate(t, '?', "page=", x, "&item=", y);
    Reassociate(t', '?', "page=", x', "&item=", y');
    assert t + ['?'] + q == t' + ['?'] + q';
    SplitAtSeparator(t, q, t', q', '?');
    var h, h' := "page=" + x, "page=" + x';
    ReassociateShort(h, '&', "item=", y);
    ReassociateShort(h', '&', "item=", y');
    assert h + ['&'] + ("item=" + y) == h' + ['&'] + ("item=" + y');
    SplitAtSeparator(h, "item=" + y, h', "item=" + y', '&');
    assert x == h[5..] && x' == h'[5..];
    assert y == ("item=" + y)[5..] && y' == ("item=" + y')[5..];
  }

  lemma ReassociateShort<T>(t: seq<T>, c: T, p: seq<T>, x: seq<T>)
    ensures t + ([c] + p) + x == t + [c] + (p + x)
  {
  }

  lemma Reassociate<T>(t: seq<T>, c: T, p: seq<T>, x: seq<T>, q: seq<T>, y: seq<T>)
    ensures t + ([c] + p) + x + q + y == t + [c] + (p + x + q + y)
  {
  }

  /** The details the clone's indexer stores when the details named `keys`
      are re-applied to it: a new detail per non-null value whose name is
      not a declared writable property. */
  function ClonedDetails(bag: DetailBag.Bag, keys: set<string>, cloned: ContentItem): (r: DetailBag.Bag)
    ensures forall k :: k in r <==> k in keys && k in bag && k !in cloned.itemType.writableProperties && bag[k].value != Null
    ensures forall k :: k in r ==> r[k] == NewDetail(cloned, k, bag[k].value)
  {
    map k | k in keys && k in bag && k !in cloned.itemType.writableProperties && bag[k].value != Null ::
      NewDetail(cloned, k, bag[k].value)
  }

  /** `copy` is a fresh-looking copy of `original` that `owner` now encloses. */
  ghost predicate HandedOver(original: DetailCollection, copy: DetailCollection, owner: ContentItem)
    reads original`values, copy`values, copy`enclosingItem
  {
    copy != original && copy.name == original.name && copy.values == original.values && copy.enclosingItem == owner
  }

  /** The clone's detail collections are copies of the source's, under the
      same names, owned by the clone. */
  ghost predicate CollectionsHandedOver(source: map<string, DetailCollection>, cloned: ContentItem)
    reads cloned`detailCollections, source.Values`values
    reads cloned.detailCollections.Values`values, cloned.detailCollections.Values`enclosingItem
  {
    cloned.detailCollections.Keys == source.Keys &&
    forall k :: k in source ==> HandedOver(source[k], cloned.detailCollections[k], cloned)
  }

  /** `cloned` holds what `CloneDetails` gives it: the details of `n`
      re-applied through its indexer, and copies of `n`'s detail collections. */
  ghost predicate DetailsCloned(n: ContentItem, cloned: ContentItem)
    reads n`details, n`detailCollections, n.detailCollections.Values`values
    reads cloned`details, cloned`detailCollections
    reads cloned.detailCollections.Values`values, cloned.detailCollections.Values`enclosingItem
  {
    cloned.details == ClonedDetails(n.details, n.details.Keys, cloned) &&
    CollectionsHandedOver(n.detailCollections, cloned)
  }

  /** The roles with `owner` as their enclosing item. */
  function RolesOwnedBy(roles: seq<AuthorizedRole>, owner: ContentItem): (r: seq<AuthorizedRole>)
    ensures |r| == |roles|
    ensures forall i :: 0 <= i < |roles| ==> r[i].role == roles[i].role && r[i].enclosingItem == owner
  {
    if |roles| == 0 then [] else RolesOwnedBy(roles[..|roles| - 1], owner) + [roles[|roles| - 1].(enclosingItem := owner)]
  }

  /** The subtree below `n` is at most `h` levels deep, lies within `nodes`,
      and each of its items keeps its details and collections under their
      own names. */
  ghost predicate InTree(n: ContentItem, h: nat, nodes: set<ContentItem>)
    reads nodes`children, nodes`details, nodes`detailCollections
    decreases h
  {
    n in nodes && n.Valid() &&
    (h == 0 ==> n.children == []) &&
    (h > 0 ==> forall i :: 0 <= i < |n.children| ==> InTree(n.children[i], h - 1, nodes))
  }

  /** Cloning `n` goes through: no item that gets cloned has a detail with
      an empty name or named like the indexer, which the clone's indexer
      would refuse. */
  ghost predicate Clonable(n: ContentItem, includeChildren: bool, h: nat, nodes: set<ContentItem>)
    reads nodes`details, nodes`children
    decreases h
  {
    n in nodes && "" !in n.details && IndexerName !in n.details &&
    (includeChildren && h > 0 ==> forall i :: 0 <= i < |n.children| ==> Clonable(n.children[i], true, h - 1, nodes))
  }

  /** The exceptions the clone's indexer throws on a detail name it refuses:
      an empty name, or the indexer's own. */
  predicate RefusedDetailName(e: Error)
  {
    e == InvalidArgument || e == ParameterCountMismatch
  }

  /** `c` carries `n`'s copied fields, with the identity reset. */
  ghost predicate CopiedFrom(c: ContentItem, n: ContentItem)
    reads c, n
  {
    c.itemType == n.itemType && c.id == 0 && c.url == None &&
    c.title == n.title && c.name == n.name && c.zoneName == n.zoneName &&
    c.created == n.created && c.updated == n.updated && c.published == n.published &&
    c.expires == n.expires && c.sortOrder == n.sortOrder && c.visible == n.visible &&
    c.versionOf == n.versionOf && c.savedBy == n.savedBy
  }

  /** `clones[k]` is a copy of `sources[k]` with `cloned` as its parent and
      as many children as `sources[k]`, for each source item copied so far;
      the copies are distinct and neither list holds `cloned`. */
  ghost predicate CopiesOf(cloned: ContentItem, sources: seq<ContentItem>, clones: seq<ContentItem>)
    reads sources, clones
  {
    |clones| <= |sources| && cloned !in sources && cloned !in clones &&
    (forall a, b :: 0 <= a < b < |clones| ==> clones[a] != clones[b]) &&
    forall k :: 0 <= k < |clones| ==>
      clones[k].parent == cloned && CopiedFrom(clones[k], sources[k]) &&
      |clones[k].children| == |sources[k].children|
  }

  /** `cloned`'s children are exactly `clones`, each once, in whatever order
      `AddTo` left them. */
  ghost predicate ChildrenAre(cloned: ContentItem, clones: seq<ContentItem>)
    reads cloned`children
  {
    |cloned.children| == |clones| &&
    (forall j :: 0 <= j < |cloned.children| ==> cloned.children[j] in clones) &&
    (forall k :: 0 <= k < |clones| ==> clones[k] in cloned.children)
  }

  /** `cloned` has one child per source item: the copies `clones` of
      `sources`, each with `cloned` as its parent. */
  ghost predicate ClonedChildren(sources: seq<ContentItem>, cloned: ContentItem, clones: seq<ContentItem>)
    reads cloned`children, sources, clones
  {
    |clones| == |sources| && CopiesOf(cloned, sources, clones) && ChildrenAre(cloned, clones)
  }

  /** The state of `CloneChildren`'s loop: the first `|clones|` source items
      could be cloned, and their copies are `cloned`'s children. */
  ghost predicate AttachedPrefix(cloned: ContentItem, sources: seq<ContentItem>, clones: seq<ContentItem>,
                                 h: nat, nodes: set<ContentItem>)
    reads cloned`children, sources, clones, nodes`details, nodes`children
  {
    CopiesOf(cloned, sources, clones) && ChildrenAre(cloned, clones) &&
    forall k :: 0 <= k < |clones| ==> Clonable(sources[k], true, h, nodes)
  }

  /** A new copy of the next source item, with `cloned` as parent, extends
      the copies. */
  lemma CopiesOfExtend(cloned: ContentItem, sources: seq<ContentItem>, clones: seq<ContentItem>, c: ContentItem)
    requires CopiesOf(cloned, sources, clones) && |clones| < |sources| && c != cloned && c !in clones
    requires c.parent == cloned && CopiedFrom(c, sources[|clones|])
    requires |c.children| == |sources[|clones|].children|
    ensures CopiesOf(cloned, sources, clones + [c])
  {
    var all := clones + [c];
    assert forall k :: 0 <= k < |clones| ==> all[k] == clones[k];
  }

  /** `c.AddTo(p)` for an item that is in no parent's children and not yet
      among `p`'s: `p` gains exactly `c`, and the copies made so far and the
      clonability of the source items are left as they were. */
  method AdoptOrphan(p: ContentItem, c: ContentItem, ghost sources: seq<ContentItem>, ghost clones: seq<ContentItem>,
                     ghost h: nat, ghost nodes: set<ContentItem>)
    requires CopiesOf(p, sources, clones) && c != p && c !in clones && c !in sources
    requires p !in nodes && c !in nodes && c.id == 0
    requires c !in p.children
    requires c.parent == null || c !in c.parent.children
    modifies c`parent, p`children
    ensures c.parent == p
    ensures |p.children| == old(|p.children|) + 1
    ensures forall x :: x in p.children <==> x in old(p.children) || x == c
    ensures CopiesOf(p, sources, clones)
    ensures forall k :: 0 <= k < |sources| ==>
              old(Clonable(sources[k], true, h, nodes)) ==> Clonable(sources[k], true, h, nodes)
  {
    UnsavedEqualsOnlyItself(p.children, c);
    if c.parent != null {
      UnsavedEqualsOnlyItself(c.parent.children, c);
    }
    assert c.AddToFrame(p) == {p};
    ghost var pos := SortOrder.InsertionPoint(SortOrders(p.children));
    c.AddTo(p);
    assert p.children == SortOrder.InsertAt(old(p.children), pos, c);
    SortOrder.InsertAtMembers(old(p.children), pos, c);
  }

  /** One step of `CloneChildren`: the copy `c` of the next source item is
      attached to `cloned` through `AddTo`. */
  method AttachClone(cloned: ContentItem, c: ContentItem, ghost clones: seq<ContentItem>,
                     ghost sources: seq<ContentItem>, ghost h: nat, ghost nodes: set<ContentItem>)
    requires AttachedPrefix(cloned, sources, clones, h, nodes) && |clones| < |sources|
    requires cloned !in nodes && c !in nodes && Clonable(sources[|clones|], true, h, nodes)
    requires c != cloned && c !in clones && c !in sources
    requires CopiedFrom(c, sources[|clones|]) && |c.children| == |sources[|clones|].children|
    requires c.parent == null || c !in c.parent.children
    modifies c`parent, cloned`children
    ensures AttachedPrefix(cloned, sources, clones + [c], h, nodes)
  {
    ghost var before := cloned.children;
    AdoptOrphan(cloned, c, sources, clones, h, nodes);
    ChildrenExtend(before, cloned.children, clones, c);
    CopiesOfExtend(cloned, sources, clones, c);
  }

  /** Children that gained exactly `c` are the copies so far plus `c`. */
  lemma ChildrenExtend(before: seq<ContentItem>, after: seq<ContentItem>, clones: seq<ContentItem>, c: ContentItem)
    requires |before| == |clones|
    requires forall j :: 0 <= j < |before| ==> before[j] in clones
    requires forall k :: 0 <= k < |clones| ==> clones[k] in before
    requires |after| == |before| + 1 && forall x :: x in after <==> x in before || x == c
    ensures |after| == |clones + [c]|
    ensures forall j :: 0 <= j < |after| ==> after[j] in clones + [c]
    ensures forall k :: 0 <= k < |clones + [c]| ==> (clones + [c])[k] in after
  {
    var all := clones + [c];
    assert forall k :: 0 <= k < |clones| ==> all[k] == clones[k];
    forall j | 0 <= j < |after|
      ensures after[j] in all
    {
      assert after[j] in after;
    }
  }

  /** The body of `CloneChildren`'s loop: `child.Clone(true)` for the next
      source item, followed by `AddTo(cloned)` on the copy. */
  method CloneAndAttach(cloned: ContentItem, ghost h: nat, ghost nodes: set<ContentItem>,
                        ghost clones: seq<ContentItem>, ghost sources: seq<ContentItem>, child: ContentItem)
    returns (r: Result<ContentItem>)
    requires AttachedPrefix(cloned, sources, clones, h, nodes) && |clones| < |sources| && child == sources[|clones|]
    requires InTree(child, h, nodes) && cloned !in nodes
    modifies cloned`children
    ensures r.Success? <==> Clonable(child, true, h, nodes)
    ensures r.Failure? ==> RefusedDetailName(r.error)
    ensures r.Success? ==> fresh(r.value) && AttachedPrefix(cloned, sources, clones + [r.value], h, nodes)
    decreases h, 4
  {
    r := child.Clone(true, h, nodes);
    if r.Success? {
      AttachClone(cloned, r.value, clones, sources, h, nodes);
    }
  }
}
