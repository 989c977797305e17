/** A site member stored as a content item (N2.Security.Items.User): every
    membership property lives in the item's details bag under its own name,
    with a default that is never stored, and the roles live in the detail
    collection "Roles". A user is a ContentItem whose type is `UserType`; the
    property accessors are written here over the item's details. */
module Users {
  import opened Wrappers
  import opened Text
  import opened Details
  import DetailBag
  import opened Content

  /** `new DateTime(2000, 1, 1)`, in ticks. */
  const Jan2000: int := 630822816000000000

  const PasswordKey: string := "Password"
  const EmailKey: string := "Email"
  const RolesKey: string := "Roles"
  const PasswordQuestionKey: string := "PasswordQuestion"
  const PasswordAnswerKey: string := "PasswordAnswer"
  const IsOnlineKey: string := "IsOnline"
  const IsApprovedKey: string := "IsApproved"
  const IsLockedOutKey: string := "IsLockedOut"
  const ProviderUserKeyName: string := "ProviderUserKey"
  const CommentKey: string := "Comment"
  const LastLoginDateKey: string := "LastLoginDate"
  const LastActivityDateKey: string := "LastActivityDate"
  const LastPasswordChangedDateKey: string := "LastPasswordChangedDate"
  const LastLockoutDateKey: string := "LastLockoutDate"

  /** The public instance properties with a setter that a User inherits
      from ContentItem (the indexer, `Item`, is handled by `SetItem` itself;
      the static `DefaultExtension`, declared on ContentItem, is not found
      by `GetProperty` on a User and is stored as a detail). */
  const ContentItemProperties: set<string> :=
    {"ID", "Parent", "Title", "Name", "ZoneName", "Created", "Updated", "Published", "Expires",
     "SortOrder", "Visible", "VersionOf", "SavedBy", "Details", "DetailCollections", "Children",
     "AuthorizedRoles"}

  /** The settable properties a User declares itself. */
  const MembershipProperties: set<string> :=
    {PasswordKey, EmailKey, PasswordQuestionKey, PasswordAnswerKey, IsOnlineKey, IsApprovedKey,
     IsLockedOutKey, ProviderUserKeyName, CommentKey, LastLoginDateKey, LastActivityDateKey,
     LastPasswordChangedDateKey, LastLockoutDateKey}

  /** The User item type: never a page, default template. */
  const UserType: ItemType :=
    ItemType("User", false, DefaultTemplateUrl, ContentItemProperties + MembershipProperties)

  /** The membership user a provider hands over: its string members may be
      null, its key is any object, its dates are ticks. */
  datatype MembershipUser = MembershipUser(
    userName: Option<string>,
    providerUserKey: Value,
    email: Option<string>,
    passwordQuestion: Option<string>,
    comment: Option<string>,
    isApproved: bool,
    isLockedOut: bool,
    isOnline: bool,
    creationDate: int,
    lastLoginDate: int,
    lastActivityDate: int,
    lastPasswordChangedDate: int,
    lastLockoutDate: int)

  /** A C# string reference as a detail value. */
  function TextValue(value: Option<string>): (v: Value)
    ensures v == Null <==> value.None?
    ensures value.Some? ==> v == Str(value.value)
  {
    if value.Some? then Str(value.value) else Null
  }

  /** What a string property reads after `value` was assigned to it. */
  function TextOrEmpty(value: Option<string>): string
  {
    if value.Some? then value.value else ""
  }

  /** A string property's getter, `(string)(GetDetail(key) ?? "")`: a
      missing detail reads as the empty string, a detail of another type
      fails the cast. */
  function TextOf(details: DetailBag.Bag, key: string): (r: Result<string>)
    ensures var v := DetailBag.GetDetail(details, key);
              r.Success? <==> v.Null? || v.Str?
    ensures r.Failure? ==> r.error == InvalidCast
    ensures r.Success? && r.value != "" ==> DetailBag.GetDetail(details, key) == Str(r.value)
  {
    match DetailBag.GetDetailOr(details, key, Str(""))
    case Str(s) => Success(s)
    case _ => Failure(InvalidCast)
  }

  /** A flag property's getter, `(bool)(GetDetail(key) ?? false)`. */
  function FlagOf(details: DetailBag.Bag, key: string): (r: Result<bool>)
    ensures var v := DetailBag.GetDetail(details, key);
              r.Success? <==> v.Null? || v.Bool?
    ensures r.Failure? ==> r.error == InvalidCast
    ensures r == Success(true) ==> DetailBag.GetDetail(details, key) == Bool(true)
  {
    match DetailBag.GetDetailOr(details, key, Bool(false))
    case Bool(b) => Success(b)
    case _ => Failure(InvalidCast)
  }

  /** A date property's getter, `(DateTime)(GetDetail(key) ?? Published.Value)`:
      a missing detail reads as the publication date, and fails when the item
      is unpublished; the publication date is only consulted then. */
  function DateOf(details: DetailBag.Bag, published: Option<int>, key: string): (r: Result<int>)
    ensures var v := DetailBag.GetDetail(details, key);
              (v.Date? ==> r == Success(v.ticks)) &&
              (v.Null? && published.Some? ==> r == Success(published.value)) &&
              (v.Null? && published.None? ==> r == Failure(NoValue)) &&
              (!v.Null? && !v.Date? ==> r == Failure(InvalidCast))
  {
    match DetailBag.GetDetail(details, key)
    case Date(t) => Success(t)
    case Null => if published.Some? then Success(published.value) else Failure(NoValue)
    case _ => Failure(InvalidCast)
  }

  /** `LastLockoutDate` getter, `(DateTime?)GetDetail(key)`: no detail is no date. */
  function LockoutOf(details: DetailBag.Bag): (r: Result<Option<int>>)
    ensures var v := DetailBag.GetDetail(details, LastLockoutDateKey);
              (r == Success(None) <==> v.Null?) &&
              (r.Success? <==> v.Null? || v.Date?) &&
              (r.Failure? ==> r.error == InvalidCast) &&
              (forall t :: r == Success(Some(t)) <==> v == Date(t))
  {
    match DetailBag.GetDetail(details, LastLockoutDateKey)
    case Null => Success(None)
    case Date(t) => Success(Some(t))
    case _ => Failure(InvalidCast)
  }

  /** What the `LastLockoutDate` setter stores: a date before 2000 (the
      providers' "never locked out" marker) is stored as no date. */
  function ClampLockout(value: Option<int>): (r: Option<int>)
    ensures r.None? <==> value.None? || value.value < Jan2000
    ensures r.Some? ==> r == value && r.value >= Jan2000
  {
    if value.Some? && value.value < Jan2000 then None else value
  }

  /** The entry under `key` is the same in both bags. */
  ghost predicate Untouched(bag: DetailBag.Bag, bag': DetailBag.Bag, key: string)
  {
    (key in bag <==> key in bag') && (key in bag ==> bag'[key] == bag[key])
  }

  /** Setter of `Password`, `Email`, `PasswordQuestion`, `PasswordAnswer`
      and `Comment`: the empty string (and null) is the default and is not
      stored. */
  method SetText(u: ContentItem, key: string, value: Option<string>)
    modifies u`details
    ensures u.details == DetailBag.SetDetailOrDefault(old(u.details), u, key, StringType, TextValue(value), Str(""))
    ensures TextOf(u.details, key) == Success(TextOrEmpty(value))
    ensures TextOrEmpty(value) == "" ==> key !in u.details
    ensures DetailBag.SameExcept(old(u.details), u.details, key)
  {
    u.SetDetailOrDefault(key, StringType, TextValue(value), Str(""));
  }

  /** Setter of `IsOnline`, `IsApproved` and `IsLockedOut`: false is the
      default and is not stored. */
  method SetFlag(u: ContentItem, key: string, value: bool)
    modifies u`details
    ensures u.details == DetailBag.SetDetailOrDefault(old(u.details), u, key, BoolType, Bool(value), Bool(false))
    ensures FlagOf(u.details, key) == Success(value)
    ensures !value ==> key !in u.details
    ensures DetailBag.SameExcept(old(u.details), u.details, key)
  {
    u.SetDetailOrDefault(key, BoolType, Bool(value), Bool(false));
  }

  /** Setter of `LastLoginDate`, `LastActivityDate` and
      `LastPasswordChangedDate`: the publication date is the default and is
      not stored; it is read before anything is stored, so an unpublished
      user fails and keeps its details. */
  method SetDate(u: ContentItem, key: string, value: int) returns (r: Result<()>)
    modifies u`details
    ensures u.published.None? ==> r == Failure(NoValue) && u.details == old(u.details)
    ensures u.published.Some? ==>
              r == Success(()) &&
              u.details == DetailBag.SetDetailOrDefault(old(u.details), u, key, DateType, Date(value), Date(u.published.value))
    ensures u.published.Some? ==> DateOf(u.details, u.published, key) == Success(value)
    ensures u.published.Some? && value == u.published.value ==> key !in u.details
    ensures DetailBag.SameExcept(old(u.details), u.details, key)
  {
    if u.published.None? {
      return Failure(NoValue);
    }
    u.SetDetailOrDefault(key, DateType, Date(value), Date(u.published.value));
    r := Success(());
  }

  /** `LastLockoutDate` setter: a date before 2000 and null both remove the detail. */
  method SetLastLockoutDate(u: ContentItem, value: Option<int>)
    modifies u`details
    ensures u.details == DetailBag.SetDetail(old(u.details), u, LastLockoutDateKey, NullableDateType,
                                             if ClampLockout(value).Some? then Date(ClampLockout(value).value) else Null)
    ensures LockoutOf(u.details) == Success(ClampLockout(value))
    ensures ClampLockout(value).None? ==> LastLockoutDateKey !in u.details
    ensures DetailBag.SameExcept(old(u.details), u.details, LastLockoutDateKey)
  {
    var stored := if value.Some? && value.value < Jan2000 then Null else if value.Some? then Date(value.value) else Null;
    u.SetDetail(LastLockoutDateKey, NullableDateType, stored);
  }

  /** `ProviderUserKey` setter: any object, null removes the detail. */
  method SetProviderUserKey(u: ContentItem, value: Value)
    modifies u`details
    ensures u.details == DetailBag.SetDetail(old(u.details), u, ProviderUserKeyName, ObjectType, value)
    ensures u.GetDetail(ProviderUserKeyName) == value
    ensures DetailBag.SameExcept(old(u.details), u.details, ProviderUserKeyName)
  {
    u.SetDetail(ProviderUserKeyName, ObjectType, value);
  }

  /** `Roles` getter: the "Roles" collection, created empty and registered
      on first use, the same collection on every later call. */
  method Roles(u: ContentItem) returns (c: DetailCollection)
    modifies u`detailCollections
    ensures RolesKey in u.detailCollections && c == u.detailCollections[RolesKey]
    ensures RolesKey in old(u.detailCollections) ==> u.detailCollections == old(u.detailCollections)
    ensures RolesKey !in old(u.detailCollections) ==>
              fresh(c) && c.name == RolesKey && c.enclosingItem == u && c.values == [] &&
              u.detailCollections == old(u.detailCollections)[RolesKey := c]
    ensures old(u.Valid()) ==> u.Valid()
  {
    var found := u.GetDetailCollection(RolesKey, true);
    c := found;
  }

  /** `value as string`: the string, or null for anything else. */
  function AsString(v: Value): (r: Option<string>)
    ensures r.Some? <==> v.Str?
    ensures r.Some? ==> v == Str(r.value)
  {
    if v.Str? then Some(v.s) else None
  }

  /** The role names `GetRoles` reads from the values of the roles collection. */
  function RoleNames(values: seq<Value>): (r: seq<Option<string>>)
    ensures |r| == |values|
    ensures forall i :: 0 <= i < |r| ==> (r[i].Some? <==> values[i].Str?)
    ensures forall i :: 0 <= i < |r| && r[i].Some? ==> values[i] == Str(r[i].value)
  {
    if values == [] then [] else [AsString(values[0])] + RoleNames(values[1..])
  }

  /** Element `i` of the role names is value `i` as a string. */
  lemma {:induction false} RoleNamesElementwise(values: seq<Value>)
    ensures forall i :: 0 <= i < |values| ==> RoleNames(values)[i] == AsString(values[i])
  {
    if values != [] {
      RoleNamesElementwise(values[1..]);
      assert forall i :: 1 <= i < |values| ==> RoleNames(values)[i] == RoleNames(values[1..])[i - 1];
    }
  }

  /** `GetRoles()`: an array as long as the roles collection whose element `i`
      is its `i`-th value as a string; the collection is looked up again for
      every element, which registers it on first use only. */
  method GetRoles(u: ContentItem) returns (roles: array<Option<string>>)
    modifies u`detailCollections
    ensures RolesKey in u.detailCollections
    ensures fresh(roles) && roles[..] == RoleNames(u.detailCollections[RolesKey].values)
    ensures RolesKey in old(u.detailCollections) ==> u.detailCollections == old(u.detailCollections)
    ensures RolesKey !in old(u.detailCollections) ==>
              roles.Length == 0 && u.detailCollections.Keys == old(u.detailCollections).Keys + {RolesKey}
  {
    var collection := Roles(u);
    ghost var registered := u.detailCollections;
    roles := new Option<string>[|collection.values|](_ => None);
    var i := 0;
    while i < roles.Length
      invariant 0 <= i <= roles.Length == |collection.values|
      invariant u.detailCollections == registered && collection == registered[RolesKey]
      invariant forall j :: 0 <= j < i ==> roles[j] == AsString(collection.values[j])
    {
      var current := Roles(u);
      roles[i] := AsString(current.values[i]);
      i := i + 1;
    }
    RoleNamesElementwise(collection.values);
  }

  /** Every entry outside `keys` is the same in both bags. */
  ghost predicate SameOutside(bag: DetailBag.Bag, bag': DetailBag.Bag, keys: set<string>)
  {
    forall k :: k !in keys ==> Untouched(bag, bag', k)
  }

  /** The details `UpdateFromMembershipUser` assigns. */
  const ContactKeys: set<string> := {CommentKey, EmailKey}
  const FlagKeys: set<string> := {IsApprovedKey, IsLockedOutKey, IsOnlineKey}
  const DateKeys: set<string> := {LastActivityDateKey, LastLockoutDateKey, LastLoginDateKey}
  const AccountKeys: set<string> := {LastPasswordChangedDateKey, PasswordQuestionKey, ProviderUserKeyName}

  /** The comment and the e-mail address read what `mu` holds. */
  ghost predicate ContactAssigned(details: DetailBag.Bag, mu: MembershipUser)
  {
    TextOf(details, CommentKey) == Success(TextOrEmpty(mu.comment)) &&
    TextOf(details, EmailKey) == Success(TextOrEmpty(mu.email))
  }

  /** The three flags read what `mu` holds. */
  ghost predicate FlagsAssigned(details: DetailBag.Bag, mu: MembershipUser)
  {
    FlagOf(details, IsApprovedKey) == Success(mu.isApproved) &&
    FlagOf(details, IsLockedOutKey) == Success(mu.isLockedOut) &&
    FlagOf(details, IsOnlineKey) == Success(mu.isOnline)
  }

  /** The activity and login dates read what `mu` holds, the lockout date
      as its setter stores it. */
  ghost predicate DatesAssigned(details: DetailBag.Bag, published: int, mu: MembershipUser)
  {
    DateOf(details, Some(published), LastActivityDateKey) == Success(mu.lastActivityDate) &&
    LockoutOf(details) == Success(ClampLockout(Some(mu.lastLockoutDate))) &&
    DateOf(details, Some(published), LastLoginDateKey) == Success(mu.lastLoginDate)
  }

  /** The password change date, the password question and the provider key
      read what `mu` holds. */
  ghost predicate AccountAssigned(details: DetailBag.Bag, published: int, mu: MembershipUser)
  {
    DateOf(details, Some(published), LastPasswordChangedDateKey) == Success(mu.lastPasswordChangedDate) &&
    TextOf(details, PasswordQuestionKey) == Success(TextOrEmpty(mu.passwordQuestion)) &&
    DetailBag.GetDetail(details, ProviderUserKeyName) == mu.providerUserKey
  }

  /** `UpdateFromMembershipUser(mu)`: the provider's member is copied onto
      the user property by property, in source order, the name last. An
      unpublished user fails at `LastActivityDate`, after the comment, the
      creation date, the e-mail address and the three flags are already
      assigned. The password and its answer are never touched. */
  method UpdateFromMembershipUser(u: ContentItem, mu: MembershipUser) returns (r: Result<()>)
    modifies u`details, u`created, u`name, u`url
    ensures r.Failure? <==> u.published.None?
    ensures r.Failure? ==> r.error == NoValue && u.name == old(u.name) && u.url == old(u.url)
    ensures Untouched(old(u.details), u.details, PasswordKey)
    ensures Untouched(old(u.details), u.details, PasswordAnswerKey)
    ensures u.created == mu.creationDate
    ensures ContactAssigned(u.details, mu) && FlagsAssigned(u.details, mu)
    ensures r.Success? ==>
              DatesAssigned(u.details, u.published.value, mu) && AccountAssigned(u.details, u.published.value, mu)
    ensures r.Success? ==> u.name == mu.userName && u.url == None
    ensures SameOutside(old(u.details), u.details, ContactKeys + FlagKeys + DateKeys + AccountKeys)
    ensures r.Failure? ==> SameOutside(old(u.details), u.details, ContactKeys + FlagKeys)
  {
    AssignProfile(u, mu);
    label profiled:
    r := AssignActivity(u, mu);
    ProfileKept(old(u.details), old@profiled(u.details), u.details, mu);
    Widen(old(u.details), old@profiled(u.details), u.details, ContactKeys + FlagKeys, DateKeys + AccountKeys);
    if r.Failure? {
      return;
    }
    u.SetName(mu.userName);
  }

  /** The assignments up to the first date, which cannot fail. */
  method AssignProfile(u: ContentItem, mu: MembershipUser)
    modifies u`details, u`created
    ensures u.created == mu.creationDate
    ensures ContactAssigned(u.details, mu) && FlagsAssigned(u.details, mu)
    ensures SameOutside(old(u.details), u.details, ContactKeys + FlagKeys)
  {
    ghost var d0 := u.details;
    AssignContact(u, mu);
    ghost var d1 := u.details;
    AssignFlags(u, mu);
    Kept(d1, u.details, FlagKeys, ContactKeys);
    Widen(d0, d1, u.details, ContactKeys, FlagKeys);
  }

  /** The assignments from the first date on; they leave the details alone
      on an unpublished user. */
  method AssignActivity(u: ContentItem, mu: MembershipUser) returns (r: Result<()>)
    modifies u`details
    ensures r.Failure? <==> u.published.None?
    ensures r.Failure? ==> u.details == old(u.details) && r.error == NoValue
    ensures r.Success? ==>
              DatesAssigned(u.details, u.published.value, mu) && AccountAssigned(u.details, u.published.value, mu)
    ensures SameOutside(old(u.details), u.details, DateKeys + AccountKeys)
  {
    ghost var d0 := u.details;
    r := AssignDates(u, mu);
    if r.Failure? {
      return;
    }
    ghost var d1 := u.details;
    r := AssignAccount(u, mu);
    Kept(d1, u.details, AccountKeys, DateKeys);
    Widen(d0, d1, u.details, DateKeys, AccountKeys);
  }

  /** The comment, creation date and e-mail assignments. */
  method AssignContact(u: ContentItem, mu: MembershipUser)
    modifies u`details, u`created
    ensures u.created == mu.creationDate
    ensures ContactAssigned(u.details, mu)
    ensures SameOutside(old(u.details), u.details, ContactKeys)
  {
    ghost var d0 := u.details;
    SetText(u, CommentKey, mu.comment);
    u.created := mu.creationDate;
    ghost var d1 := u.details;
    SetText(u, EmailKey, mu.email);
    Kept(d1, u.details, {EmailKey}, {CommentKey});
  }

  /** The three flag assignments. */
  method AssignFlags(u: ContentItem, mu: MembershipUser)
    modifies u`details
    ensures FlagsAssigned(u.details, mu)
    ensures SameOutside(old(u.details), u.details, FlagKeys)
  {
    ghost var d0 := u.details;
    SetFlag(u, IsApprovedKey, mu.isApproved);
    ghost var d1 := u.details;
    SetFlag(u, IsLockedOutKey, mu.isLockedOut);
    ghost var d2 := u.details;
    SetFlag(u, IsOnlineKey, mu.isOnline);
    ThreeSteps(d0, d1, d2, u.details, IsApprovedKey, IsLockedOutKey, IsOnlineKey);
  }

  /** The activity, lockout and login date assignments; the first fails on
      an unpublished user before anything is stored. */
  method AssignDates(u: ContentItem, mu: MembershipUser) returns (r: Result<()>)
    modifies u`details
    ensures r.Failure? <==> u.published.None?
    ensures r.Failure? ==> r.error == NoValue && u.details == old(u.details)
    ensures r.Success? ==> DatesAssigned(u.details, u.published.value, mu)
    ensures SameOutside(old(u.details), u.details, DateKeys)
  {
    ghost var d0 := u.details;
    r := SetDate(u, LastActivityDateKey, mu.lastActivityDate);
    if r.Failure? {
      return;
    }
    ghost var d1 := u.details;
    SetLastLockoutDate(u, Some(mu.lastLockoutDate));
    ghost var d2 := u.details;
    r := SetDate(u, LastLoginDateKey, mu.lastLoginDate);
    ThreeSteps(d0, d1, d2, u.details, LastActivityDateKey, LastLockoutDateKey, LastLoginDateKey);
  }

  /** The password change date, password question and provider key
      assignments; the date fails on an unpublished user. */
  method AssignAccount(u: ContentItem, mu: MembershipUser) returns (r: Result<()>)
    modifies u`details
    ensures r.Failure? <==> u.published.None?
    ensures r.Success? ==> AccountAssigned(u.details, u.published.value, mu)
    ensures SameOutside(old(u.details), u.details, AccountKeys)
  {
    ghost var d0 := u.details;
    r := SetDate(u, LastPasswordChangedDateKey, mu.lastPasswordChangedDate);
    if r.Failure? {
      return;
    }
    ghost var d1 := u.details;
    SetText(u, PasswordQuestionKey, mu.passwordQuestion);
    ghost var d2 := u.details;
    SetProviderUserKey(u, mu.providerUserKey);
    ThreeSteps(d0, d1, d2, u.details, LastPasswordChangedDateKey, PasswordQuestionKey, ProviderUserKeyName);
  }

  /** What the profile assignments established survives the later ones,
      and neither touches the password or its answer. */
  lemma {:induction false} ProfileKept(d0: DetailBag.Bag, d1: DetailBag.Bag, d2: DetailBag.Bag, mu: MembershipUser)
    requires SameOutside(d0, d1, ContactKeys + FlagKeys)
    requires ContactAssigned(d1, mu) && FlagsAssigned(d1, mu)
    requires SameOutside(d1, d2, DateKeys + AccountKeys)
    ensures ContactAssigned(d2, mu) && FlagsAssigned(d2, mu)
    ensures Untouched(d0, d2, PasswordKey) && Untouched(d0, d2, PasswordAnswerKey)
  {
    Kept(d0, d1, ContactKeys + FlagKeys, {PasswordKey, PasswordAnswerKey});
    Kept(d1, d2, DateKeys + AccountKeys, ContactKeys + FlagKeys + {PasswordKey, PasswordAnswerKey});
  }

  /** Three assignments to three different details: each of the first two
      still reads what it was given, and nothing else changed. */
  lemma {:induction false} ThreeSteps(d0: DetailBag.Bag, d1: DetailBag.Bag, d2: DetailBag.Bag, d3: DetailBag.Bag,
                                      k1: string, k2: string, k3: string)
    requires k1 != k2 && k1 != k3 && k2 != k3
    requires DetailBag.SameExcept(d0, d1, k1) && DetailBag.SameExcept(d1, d2, k2) && DetailBag.SameExcept(d2, d3, k3)
    ensures DetailBag.GetDetail(d3, k1) == DetailBag.GetDetail(d1, k1)
    ensures DetailBag.GetDetail(d3, k2) == DetailBag.GetDetail(d2, k2)
    ensures SameOutside(d0, d3, {k1, k2, k3})
  {
    Kept(d1, d2, {k2}, {k1});
    Kept(d2, d3, {k3}, {k1, k2});
    Widen(d0, d1, d2, {k1}, {k2});
    Widen(d0, d2, d3, {k1, k2}, {k3});
  }

  /** Details outside the assigned ones read as before. */
  lemma {:induction false} Kept(d: DetailBag.Bag, d': DetailBag.Bag, changed: set<string>, earlier: set<string>)
    requires SameOutside(d, d', changed) && changed !! earlier
    ensures forall k :: k in earlier ==> Untouched(d, d', k)
    ensures forall k :: k in earlier ==> DetailBag.GetDetail(d', k) == DetailBag.GetDetail(d, k)
  {
    forall k | k in earlier
      ensures Untouched(d, d', k)
    {
      assert k !in changed;
    }
  }

  /** Frames compose: the details that may change over two steps are those
      of either step. */
  lemma {:induction false} Widen(d0: DetailBag.Bag, d: DetailBag.Bag, d': DetailBag.Bag, keys: set<string>, keys': set<string>)
    requires SameOutside(d0, d, keys) && SameOutside(d, d', keys')
    ensures SameOutside(d0, d', keys + keys')
  {
  }

  /** A string property reads back what was assigned to it, null as the
      empty string, and assigning it changes no other property. */
  lemma {:induction false} TextRoundTrip(details: DetailBag.Bag, owner: object?, key: string, other: string, value: Option<string>)
    requires other != key
    ensures TextOf(DetailBag.SetDetailOrDefault(details, owner, key, StringType, TextValue(value), Str("")), key) ==
              Success(TextOrEmpty(value))
    ensures TextOf(DetailBag.SetDetailOrDefault(details, owner, key, StringType, TextValue(value), Str("")), other) ==
              TextOf(details, other)
  {
    DetailBag.DefaultElisionRoundTrip(details, owner, key, StringType, TextValue(value), Str(""));
    DetailBag.SetDetailOrDefaultFrame(details, owner, key, other, StringType, TextValue(value), Str(""));
  }

  /** A date property reads back what was assigned, whether or not it
      equals the publication date (which is then not stored). */
  lemma {:induction false} DateRoundTrip(details: DetailBag.Bag, owner: object?, published: int, key: string, value: int)
    ensures DateOf(DetailBag.SetDetailOrDefault(details, owner, key, DateType, Date(value), Date(published)),
                   Some(published), key) == Success(value)
  {
    DetailBag.DefaultElisionRoundTrip(details, owner, key, DateType, Date(value), Date(published));
  }

  /** A stored lockout date is never before 2000, and a date from 2000 on
      reads back unchanged. */
  lemma {:induction false} LockoutRoundTrip(details: DetailBag.Bag, owner: object?, value: Option<int>)
    ensures var stored := DetailBag.SetDetail(details, owner, LastLockoutDateKey, NullableDateType,
                                              if ClampLockout(value).Some? then Date(ClampLockout(value).value) else Null);
            (forall t :: LockoutOf(stored) == Success(Some(t)) ==> t >= Jan2000) &&
            (value.Some? && value.value >= Jan2000 ==> LockoutOf(stored) == Success(value))
  {
  }

  /** A user is never a page: its address names the nearest page above it
      and then the user itself, and without such a page only a version has
      one. */
  lemma {:induction false} UserAddress(chain: seq<ContentItem>, toAbsolute: string -> string)
    requires |chain| > 0 && chain[0].itemType == UserType
    ensures var p := NearestPage(chain, 1);
            p < |chain| ==>
              RewrittenUrlOf(chain, toAbsolute) ==
                Success(toAbsolute(chain[p].itemType.templateUrl) + "?page=" + IntToString(chain[p].id) +
                        "&item=" + IntToString(chain[0].id))
    ensures NearestPage(chain, 1) == |chain| && chain[0].versionOf == null ==>
              RewrittenUrlOf(chain, toAbsolute) == Failure(TemplateNotFound)
  {
  }
}
