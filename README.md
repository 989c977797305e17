# N2 content items, composite filters and membership users in Dafny

This project models the core of the N2 CMS content model:

- `N2.ContentItem`: a node of the content tree. It has a details bag, named
  detail collections, authorized roles, ordered children and a back-reference
  to its parent.
- `N2.Collections.CompositeFilter`: the conjunction of item filters.
- `N2.Security.Items.User`: a site member stored as a content item whose
  membership properties live in the details bag.

`ContentItem` is a Dafny `class`. Its fields are the item's fields, and its
methods change them in place. These methods cover the `Name` and `Expires`
setters, `SetDetail`, the indexer setter, `GetDetailCollection`, `AddTo` and
`Clone` with its helpers. Lookups that only walk the tree are methods
specified by functions:

- `FindChild`, specified by `FirstNamed`.
- `GetChild`, specified by the ghost function `Resolve`, which reads the
  whole heap. `GetChild` terminates because every call shortens the path.
- `Path`, specified by `PathOf`.
- `RewrittenUrl`, specified by `RewrittenUrlOf`.

`Path` and `RewrittenUrl` walk up the tree. They are given a ghost ancestor
chain, so a cyclic parent chain, on which the source would loop forever, is
excluded by the caller. `Clone` walks down the tree with a ghost depth bound
and node set, which exclude a cyclic child list in the same way.

Names are compared with a `sameName` function parameter. It stands for
.NET's culture-aware `string.Equals(a, b, StringComparison.InvariantCultureIgnoreCase)`.

Other modules:

- `DetailBag`: the pure operations on the details dictionary
  (`GetDetail` and both `SetDetail` overloads).
- `SortOrder`: the pure policy behind `AddTo`'s choice of insertion index, and
  `CompareTo` over 32-bit sort orders.
- `Filters`: `CompositeFilter` as a datatype of filters with a match function.
- `Users`: the `User` accessors as methods over a `ContentItem` whose
  `itemType` is `UserType`. Each property is a read of, or an update to, one
  detail. `UpdateFromMembershipUser` assigns them in source order.
- `Text`: `IndexOf`, and decimal rendering and parsing of ids.
- `Numerics`: 32-bit integers and wrap-around.
- `Details`: detail values and detail collections.
- `Wrappers`: `Option` and `Result`.

Exceptions thrown by the source become `Result.Failure` values:

- `ArgumentNullException` is `InvalidArgument`.
- `N2Exception` is `UsageError`.
- `TemplateNotFoundException` is `TemplateNotFound`.
- A failed cast is `InvalidCast`.
- `Nullable.Value` on a missing publish date is `NoValue`.

Dates are `DateTime` ticks, with `DateTime.MinValue` as 0. `DateTime.Now` is a
constructor parameter. `Utility.ToAbsolute` is a function parameter.

## Model

| member | source | states |
|---|---|---|
| Content.ContentItem.constructor | src/N2/ContentItem.cs:87-92 | a new item has id 0, no name, no parent, no children, details or roles, and created, updated and published all equal to the given time |
| Content.ContentItem.Copy | src/N2/ContentItem.cs:595 | a memberwise copy: every field, the details, collections, roles and children included, equals the source's; the dictionaries and lists are values, so later changes to one item do not show in the other |
| Content.ContentItem.MemberwiseCopy | src/N2/ContentItem.cs:595-597 | the clone starts as a fresh copy of the item with equal details, collections, roles, children and parent, id 0 and no cached url |
| Content.ContentItem.Name | src/N2/ContentItem.cs:130-136 | the stored name when there is one; otherwise empty exactly when the id is not positive, and else the id's decimal digits, which parse back to the id |
| Content.ContentItem.SetName | src/N2/ContentItem.cs:137-141 | setting the name also clears the cached url |
| Content.ContentItem.SetExpires | src/N2/ContentItem.cs:173-177 | `DateTime.MinValue` is stored as "no expiry"; every other value is stored as given |
| Content.NormalizedExpiry | src/N2/ContentItem.cs:176 | the result is never `MinValue`; any other input passes through unchanged |
| Content.NormalizedExpiryIdempotent | src/N2/ContentItem.cs:176 | setting an expiry read back from the property stores it again unchanged |
| Content.ContentItem.Equals | src/N2/ContentItem.cs:299-308 | reflexive and null-false; items of different types differ; two items with non-zero ids are equal exactly when the ids are equal; distinct equal items share a non-zero id |
| Content.ContentItem.EqualsSymmetric | src/N2/ContentItem.cs:299-308 | equality is symmetric |
| Content.ContentItem.EqualsTransitive | src/N2/ContentItem.cs:299-308 | equality is transitive |
| Content.ContentItem.CompareTo | src/N2/ContentItem.cs:569-579 | the corrected comparison (see Findings): negative, zero or positive exactly as this sort order is below, equal to or above the other's; 0 against a non-item |
| Content.ContentItem.IsAuthorized | src/N2/ContentItem.cs:686-703 | authorized exactly when the role list is empty or some role authorizes the user |
| Content.ContentItem.GetDetail | src/N2/ContentItem.cs:381-386 | the value of the detail filed under the name, or null when there is none |
| Content.ContentItem.SetDetail | src/N2/ContentItem.cs:407-425 | the new bag is `DetailBag.SetDetail` of the old one; the detail reads back the value; details stay filed under their own names |
| Content.ContentItem.SetDetailOrDefault | src/N2/ContentItem.cs:392-402 | the new bag is `DetailBag.SetDetailOrDefault` of the old one; the detail reads back the value, or nothing when the value is the default |
| Content.ContentItem.SetItem | src/N2/ContentItem.cs:355-373 | an empty name fails with InvalidArgument; `Item`, the indexer itself, fails with ParameterCountMismatch; a writable property name goes to the property; a detail collection fails with UsageError; any other value is stored as a detail; the bag changes only in the last case |
| Content.ContentItem.GetDetailCollection | src/N2/ContentItem.cs:433-445 | an existing collection is returned unchanged; a missing one is null, or, when asked for, a fresh empty collection owned by the item and filed under its name |
| Content.ContentItem.FindChild | src/N2/ContentItem.cs:520-528 | the first child whose name equals the given one under the `sameName` comparison, or null |
| Content.FirstNamedIndex | src/N2/ContentItem.cs:520-528 | the index of the first child with a matching name; no earlier child matches |
| Content.FirstNamed | src/N2/ContentItem.cs:520-528 | null exactly when no child's name matches; otherwise a child whose name matches |
| Content.Resolve | src/N2/ContentItem.cs:493-518 | the empty path gives null and "/" the item itself; a path without a slash gives the first child whose name matches, which is a child of the item |
| Content.ContentItem.GetChild | src/N2/ContentItem.cs:493-518 | the item the path resolves to; the empty path gives null and "/" gives the item itself |
| Content.ResolveLeadingSlash | src/N2/ContentItem.cs:499-505 | a leading slash is skipped, and "/" alone resolves to the item |
| Content.ResolveSegment | src/N2/ContentItem.cs:506-517 | a path's first segment selects the first child with that name, and the rest of the path is resolved from that child; a missing child gives null |
| Content.ContentItem.Path | src/N2/ContentItem.cs:719-730 | the path is `PathOf` the chain: "/" followed, from the top down, by the name and a slash of every item on the chain except the root, the item's own name last; the root's name is not part of it; it starts and ends with a slash |
| Content.PathOf | src/N2/ContentItem.cs:722-726 | the path built after `k` steps up the chain, which prepends one name and slash per step, starts and ends with a slash |
| Content.PathStep | src/N2/ContentItem.cs:726 | resolving "/name/rest" from the parent is resolving "/rest" from the child it names |
| Content.PathLeadsBack | src/N2/ContentItem.cs:719-730 | when every item is found by its name under its parent, resolving an item's path from the root gives back the item |
| Content.ContentItem.RewrittenUrl | src/N2/ContentItem.cs:261-279 | a page's address is its template plus `?page=id`; a part's address names the nearest page ancestor and the part; otherwise it is the master version's template, or TemplateNotFound |
| Content.RewrittenUrlOf | src/N2/ContentItem.cs:261-279 | fails, with TemplateNotFound, exactly when neither the item nor any ancestor is a page and the item is not a version |
| Content.NearestPage | src/N2/ContentItem.cs:270-272 | the nearest ancestor that is a page; no item in between is a page |
| Content.PageAddressIdentifiesPage | src/N2/ContentItem.cs:260-268 | two pages with the same rewritten url have the same id and the same template address |
| Content.PageQueryIsUnambiguous | src/N2/ContentItem.cs:267 | the `?page=..` query and the template before it determine each other: equal addresses mean equal templates and equal ids |
| Content.PageSplit | src/N2/ContentItem.cs:267 | a template with no `?` followed by `?page=x` splits back into the template and `x` |
| Content.PartAddressIdentifiesPart | src/N2/ContentItem.cs:270-272 | two parts with the same rewritten url have the same id and the same page ancestor id |
| Content.PartQueryIsUnambiguous | src/N2/ContentItem.cs:272 | the `?page=..&item=..` query determines both ids |
| Content.QueryIsUnambiguous | src/N2/ContentItem.cs:272 | a query built from strings with no `&` in the page part, on a template with no `?`, determines both parts |
| Content.ContentItem.GetChildren | src/N2/ContentItem.cs:559-563 | the master version's children are used for a version; the result holds exactly the children every filter accepts, in their original order: the j-th is the child at position `KeptIndices(..)[j]`, and those positions strictly increase |
| Content.ContentItem.ChildSource | src/N2/ContentItem.cs:561 | a version draws on its master's children, any other item on its own |
| Content.ContentItem.VersionListsMasterChildren | src/N2/ContentItem.cs:559-562 | a version and its master return the same children for any filters |
| Content.KeepMatching | src/N2/ContentItem.cs:559-562 | exactly the items that every filter accepts are kept, and no others |
| Content.KeptIndices | src/N2/ContentItem.cs:559-562 | the positions of the items every filter accepts, strictly increasing |
| Content.KeepMatchingInOrder | src/N2/ContentItem.cs:559-562 | the kept items are, one for one, the items at `KeptIndices`, so the filter keeps their original order |
| Content.ContentItem.AddTo | src/N2/ContentItem.cs:454-487 | the old parent, when it is not the new one and holds an item `Equals` to this one, loses the first such item; the new parent keeps its children when it already holds an equal item, and otherwise gains this item at the index the sort-order gap policy picks |
| Content.EqualIndex | src/N2/ContentItem.cs:457 | `IndexOf` under `Equals`: the first index whose item equals the given one, none earlier; an item in the list is always found |
| Content.ContainsEqual | src/N2/ContentItem.cs:456-461 | `Contains` under `Equals`: an item in the list by reference is always contained, and when the list contains an item, the one at `EqualIndex` equals it |
| Content.ContainsEqualIffSome | src/N2/ContentItem.cs:456-461 | `Contains` under `Equals` holds exactly when some item of the list equals the given one |
| Content.ContentItem.Leaves | src/N2/ContentItem.cs:456 | `AddTo` leaves the current parent only when there is one, it is not the new parent, and an item equal to this one is at some index of its children; it always leaves a parent that holds it by reference |
| Content.UnsavedEqualsOnlyItself | src/N2/ContentItem.cs:299-308 | for an unsaved item (id 0) `Contains` under `Equals` is membership by reference, and `IndexOf` finds the item itself |
| Content.RemoveChild | src/N2/ContentItem.cs:457 | the parent being left loses the child at the given index, and nothing else |
| Content.JoinChildren | src/N2/ContentItem.cs:461-485 | the new parent ends up holding an item equal to this one; it is unchanged when it already held one, and otherwise gains the item at the gap policy's index |
| Content.RemoveInsertedChild | src/N2/ContentItem.cs:454-487 | moving an item that no sibling equals to a parent and then away again restores the parent's children |
| Content.InsertChild | src/N2/ContentItem.cs:461-485 | the children become the old children with the item inserted at the policy's index |
| Content.FindInsertionIndex | src/N2/ContentItem.cs:463-483 | the backward loop over the siblings finds `SortOrder.InsertionPoint` of their sort orders |
| Content.ContentItem.Clone | src/N2/ContentItem.cs:593-604 | succeeds exactly when no cloned item has a detail with an empty name or one named `Item`; the copy is fresh with id 0 and no url; it has cloned details and collections and roles owned by the copy; its children are fresh copies (id 0, no url, the copy as parent) of the children, each once, or there are none |
| Content.ContentItem.CloneInto | src/N2/ContentItem.cs:598-603 | details, children and roles are cloned into the copy, in that order, with the same outcomes as `Clone` |
| Content.ContentItem.CloneChildrenAndRoles | src/N2/ContentItem.cs:599-600 | the children are cloned and then the roles; a refused child ends the clone with its error; on success the roles are owned by the copy and the children are fresh copies of the source's |
| Content.ContentItem.CloneChildren | src/N2/ContentItem.cs:621-632 | the copy's children become exactly one fresh clone per source child, attached through `AddTo`, or none when children are not included |
| Content.CopiesOfExtend | src/N2/ContentItem.cs:626-630 | a copy of the next source child with the clone as parent extends the copies made so far |
| Content.AdoptOrphan | src/N2/ContentItem.cs:629 | `AddTo` on a copy that no parent lists adds exactly that copy to the clone's children and leaves the earlier copies alone |
| Content.AttachClone | src/N2/ContentItem.cs:628-629 | attaching the next copy keeps the loop invariant: the clone's children are the copies of the first n+1 source children |
| Content.CloneAndAttach | src/N2/ContentItem.cs:626-630 | one loop step succeeds exactly when the next child can be cloned, and then extends the copies |
| Content.ContentItem.CloneDetails | src/N2/ContentItem.cs:634-649 | fails with InvalidArgument when a detail has an empty name and with ParameterCountMismatch when one is named `Item`, and succeeds otherwise; then each non-null detail that is not a writable property is copied under its name, owned by the copy, and every collection is cloned |
| Content.ClonedDetails | src/N2/ContentItem.cs:636-640 | the copied bag holds exactly the source's non-null, non-property details, each as a new detail owned by the copy |
| Content.ContentItem.CloneCollections | src/N2/ContentItem.cs:642-648 | every collection is replaced by a fresh clone with the same values, owned by the copy and filed under its name |
| Content.ContentItem.CloneAuthorizedRoles | src/N2/ContentItem.cs:607-619 | the copy's roles are the source's roles in order, each owned by the copy |
| Content.RolesOwnedBy | src/N2/ContentItem.cs:611-617 | one role per source role, with the same role name and the copy as owner |
| DetailBag.SetDetail | src/N2/ContentItem.cs:407-425 | the value reads back; null removes the detail; a detail of an assignable type is updated in place, otherwise a new detail replaces it; all other details are untouched |
| DetailBag.SetDetailOrDefault | src/N2/ContentItem.cs:392-402 | the value reads back, except that the default removes the detail; all other details are untouched |
| DetailBag.DefaultElisionRoundTrip | src/N2/ContentItem.cs:392-402 | reading with the default as fallback gives back any non-null value stored |
| DetailBag.SetDetailOrDefaultFrame | src/N2/ContentItem.cs:392-402 | storing one detail leaves every other name's value unchanged |
| DetailBag.SetDetailKeepsNames | src/N2/ContentItem.cs:407-425 | both setters keep every detail filed under its own name |
| DetailBag.GetDetail | src/N2/ContentItem.cs:381-386 | the stored detail's value, or null when no detail is filed under the name |
| DetailBag.GetDetailOr | src/N2.Security/Items/User.cs:42 | the stored value when there is a non-null one, and the default otherwise; null only when the default is null |
| Details.NewDetail | src/N2/ContentItem.cs:423 | a new detail is transient (id 0), has the given name and owner, holds the value, and its type accepts the value |
| Details.IsAssignableFrom | src/N2/ContentItem.cs:411 | `object` accepts every type and each type accepts itself; besides that, only `DateTime?` accepts `DateTime` |
| Details.AssignableIsPreorder | src/N2/ContentItem.cs:411 | assignability is reflexive and transitive, with `object` on top |
| Details.DetailCollection.constructor | src/N2/ContentItem.cs:439 | a new collection is empty and has the given name and owner |
| Details.DetailCollection.Clone | src/N2/ContentItem.cs:645 | a fresh collection with the same name, owner and values |
| Filters.FromArray | src/Framework/N2/Collections/CompositeFilter.cs:12-15 | a null array becomes the empty composite; otherwise the composite holds the array |
| Filters.FromEnumerable | src/Framework/N2/Collections/CompositeFilter.cs:17-20 | the composite holds the enumerated filters in order |
| Filters.Matches | src/Framework/N2/Collections/CompositeFilter.cs:31-42 | the null filter and the empty composite match every item; another filter answers through the given oracle; a composite of one filter matches as that filter does |
| Filters.CompositeMatch | src/Framework/N2/Collections/CompositeFilter.cs:31-37 | true exactly when every filter matches; filters are tried in order and the first failing one stops the loop |
| Filters.Wrap | src/Framework/N2/Collections/CompositeFilter.cs:39-52 | no filters give the null filter; one filter is returned itself; two or more become a composite of them |
| Filters.WrapMatches | src/Framework/N2/Collections/CompositeFilter.cs:39-47 | the wrapped filter matches exactly the items every given filter matches |
| Filters.CompositeOfConcat | src/Framework/N2/Collections/CompositeFilter.cs:31-37 | a composite of two lists matches exactly when each list's composite matches |
| Filters.NestedCompositeFlattens | src/Framework/N2/Collections/CompositeFilter.cs:31-37 | nesting a composite inside another matches like the flattened list |
| Filters.EmptyCompositeMatchesAll | src/Framework/N2/Collections/CompositeFilter.cs:12-37 | the composite built from a null array matches every item |
| Numerics.Wrap32 | src/N2/ContentItem.cs:470 | the 32-bit result is congruent to the mathematical one, and equal to it when it fits |
| SortOrder.LastGap | src/N2/ContentItem.cs:468-476 | the last sibling index followed by a gap wider than the threshold, scanning backwards; no later index has one |
| SortOrder.InsertionPoint | src/N2/ContentItem.cs:463-485 | the insertion index lies within the siblings |
| SortOrder.InsertionPointCases | src/N2/ContentItem.cs:463-485 | the item goes right after the last gap; with no gap, first when the first sort order is above the threshold, and otherwise last |
| SortOrder.GapWithoutWrap | src/N2/ContentItem.cs:470 | when the subtraction does not wrap, the gap test is a plain comparison |
| SortOrder.WrappedGap | src/N2/ContentItem.cs:470 | with a successor at `int.MinValue` the subtraction wraps and a gap is reported between 0 and `int.MinValue` |
| SortOrder.InsertAt | src/N2/ContentItem.cs:472 | the item sits at the index, with earlier siblings before it and later ones after it |
| SortOrder.RemoveAt | src/N2/ContentItem.cs:457 | the list one shorter, with the items before the index in place and the later ones moved down by one |
| SortOrder.RemoveAtCounts | src/N2/ContentItem.cs:457 | removal takes away exactly one occurrence of the removed item |
| SortOrder.RemoveAtInserted | src/N2/ContentItem.cs:454-487 | removing an item at the index where it was just inserted restores the list |
| SortOrder.InsertKeepsOthers | src/N2/ContentItem.cs:472-485 | insertion keeps the other children in order and adds one occurrence of the item |
| SortOrder.InsertAtMembers | src/N2/ContentItem.cs:461-485 | after insertion the children are the old ones plus the item |
| SortOrder.Select | src/N2/ContentItem.cs:626-629 | picks the sort orders at the given indices |
| SortOrder.AttachOrder | src/N2/ContentItem.cs:621-632 | the order in which re-attached clones end up lists n indices below n |
| SortOrder.AttachOrderIsPermutation | src/N2/ContentItem.cs:621-632 | every source child appears in the cloned order |
| SortOrder.InsertionPointAtEnd | src/N2/ContentItem.cs:478-485 | without gaps and with a first sort order up to the threshold, the item is appended |
| SortOrder.AttachOrderKeepsOrderWithoutGaps | src/N2/ContentItem.cs:621-632 | without gaps and with a first sort order up to the threshold, cloned children keep the source order |
| SortOrder.AttachOrderWithGap | src/N2/ContentItem.cs:621-632 | children with sort orders 0, 20000, 30000 are cloned in the order 0, 30000, 20000 |
| SortOrder.CompareSortOrderAsWritten | src/N2/ContentItem.cs:576-579 | the 32-bit difference as the source computes it |
| SortOrder.CompareToOverflows | src/N2/ContentItem.cs:576-579 | comparing `int.MaxValue` with -1 reports "less" |
| SortOrder.CompareSortOrder | src/N2/ContentItem.cs:569-579 | the sign agrees with the order of the two sort orders |
| SortOrder.CompareSortOrderAntisymmetric | src/N2/ContentItem.cs:569-579 | swapping the arguments negates the result |
| SortOrder.AsWrittenAgreesWithoutOverflow | src/N2/ContentItem.cs:576-579 | when the difference fits in 32 bits the written comparison has the same sign as the corrected one |
| Text.IndexOf | src/N2/ContentItem.cs:498 | -1 exactly when the character is absent; otherwise its first position |
| Text.IndexOfAfterPrefix | src/N2/ContentItem.cs:498 | the first separator after a separator-free prefix is at the prefix's length |
| Text.NatToString | src/N2/ContentItem.cs:135 | a non-empty run of digits |
| Text.IntToString | src/N2/ContentItem.cs:135 | digits, with a leading minus for negatives |
| Text.NatToStringRoundTrip | src/N2/ContentItem.cs:135 | parsing the digits gives back the number |
| Text.IntToStringRoundTrip | src/N2/ContentItem.cs:135 | parsing an id's rendering gives back the id |
| Text.NegativeToStringRoundTrip | src/N2/ContentItem.cs:272 | parsing a negative id's rendering gives back the id |
| Text.NegatedRoundTrip | src/N2/ContentItem.cs:272 | a minus sign followed by digits parses to the negated number |
| Text.NegativeRoundTrip | src/N2/ContentItem.cs:272 | parsing a leading minus negates the rest |
| Text.IntToStringInjective | src/N2/ContentItem.cs:272 | different ids render differently |
| Text.SplitAtSeparator | src/N2/ContentItem.cs:272 | splitting at the first separator is unambiguous |
| Text.NumberHasOnlyDigits | src/N2/ContentItem.cs:272 | a rendered id contains no `?` or `&` |
| Users.TextOf | src/N2.Security/Items/User.cs:39-44 | a string getter reads the stored string, empty when absent; a detail of another type fails the cast |
| Users.FlagOf | src/N2.Security/Items/User.cs:66-71 | a flag getter reads the stored flag, false when absent; a detail of another type fails the cast |
| Users.DateOf | src/N2.Security/Items/User.cs:100-105 | a date getter reads the stored date, the publish date when absent, and fails when absent on an unpublished user |
| Users.LockoutOf | src/N2.Security/Items/User.cs:121-124 | the lockout date is the stored date or none |
| Users.ClampLockout | src/N2.Security/Items/User.cs:125 | dates before 1 January 2000 are stored as none; later dates unchanged |
| Users.SetText | src/N2.Security/Items/User.cs:39-44 | a string setter stores through `SetDetail` with the empty default; the getter reads the value back; no other detail changes |
| Users.SetFlag | src/N2.Security/Items/User.cs:66-71 | a flag setter stores with default false; the getter reads the value back; no other detail changes |
| Users.SetDate | src/N2.Security/Items/User.cs:100-105 | a date setter fails on an unpublished user and changes nothing; otherwise it stores with the publish date as default, and the getter reads the value back |
| Users.SetLastLockoutDate | src/N2.Security/Items/User.cs:121-126 | the clamped date is stored; the getter reads the clamped value back; no other detail changes |
| Users.SetProviderUserKey | src/N2.Security/Items/User.cs:87-91 | the key is stored without a default and reads back |
| Users.Roles | src/N2.Security/Items/User.cs:46-50 | the "Roles" collection, created empty and filed on first use |
| Users.AsString | src/N2.Security/Items/User.cs:168 | `as string`: a string value, or null for any other value |
| Users.RoleNames | src/N2.Security/Items/User.cs:163-171 | one entry per role value: the string, or null when the value is not a string |
| Users.RoleNamesElementwise | src/N2.Security/Items/User.cs:163-171 | each entry is `as string` of the value at the same index |
| Users.GetRoles | src/N2.Security/Items/User.cs:163-171 | a fresh array of the role names as strings; the only possible change is creating the "Roles" collection |
| Users.UpdateFromMembershipUser | src/N2.Security/Items/User.cs:146-161 | comment, creation date, e-mail and flags are always copied; on a published user the dates, clamped lockout, password question, provider key and name are copied too; an unpublished user fails at the first date with name and url unchanged; password and answer are never touched |
| Users.AssignProfile | src/N2.Security/Items/User.cs:148-153 | comment, creation date, e-mail and the three flags are copied, and nothing else in the bag changes |
| Users.AssignActivity | src/N2.Security/Items/User.cs:154-159 | fails exactly on an unpublished user, changing nothing; otherwise the dates and account details are copied and nothing else changes |
| Users.AssignContact | src/N2.Security/Items/User.cs:148-150 | comment, creation date and e-mail are copied; nothing else in the bag changes |
| Users.AssignFlags | src/N2.Security/Items/User.cs:151-153 | approved, locked-out and online flags are copied; nothing else changes |
| Users.AssignDates | src/N2.Security/Items/User.cs:154-156 | fails exactly on an unpublished user, changing nothing; otherwise activity, lockout and login dates are copied |
| Users.AssignAccount | src/N2.Security/Items/User.cs:157-159 | password-change date, password question and provider key are copied on a published user |
| Users.ProfileKept | src/N2.Security/Items/User.cs:146-161 | what the profile assignments stored survives the later assignments, and the password and its answer are never touched |
| Users.TextRoundTrip | src/N2.Security/Items/User.cs:39-44 | a string read right after it is set gives the value back, empty for null, and other properties keep theirs |
| Users.DateRoundTrip | src/N2.Security/Items/User.cs:100-105 | a date read right after it is set gives the value back, also when it equals the publish date |
| Users.LockoutRoundTrip | src/N2.Security/Items/User.cs:121-126 | a stored lockout date is never before 2000, and dates from 2000 on read back unchanged |
| Users.UserAddress | src/N2.Security/Items/User.cs:128-131 | a user is never a page, so its address is the nearest page's template with `?page=` and `&item=`, and it has no address without a page ancestor or master version |

## Left out

- `Url`, the url parser and `SetUrlParser` are left out because the parser is an injected service. `RewrittenUrl` is modelled.
- `IconUrl`, `ClassNames`, `IContainable.AddTo` and `ContainerName` are left out. They build user-interface strings and controls.
- `GetHashCode` and `ToString` are left out. They carry no behaviour beyond `id` and `Name`.
- `GetMembershipUser` is left out. It builds the framework's `MembershipUser` from the getters, which are modelled.
- The indexer getter is left out. It evaluates property paths through reflection (`Utility.Evaluate`).
- `Content.ContentItem.SetItem`: for a writable property it reports that the property was assigned but does not run the property's setter, which is reached through reflection. So `Content.ContentItem.CloneDetails` skips the details that back a declared property. A cloned `User` keeps such values in the source through its property setters, which this model does not run.
- `AuthorizedRole.IsAuthorized` is an `authorizes` parameter. `role.Clone()` is modelled as a copy of the role name with a new owner.
- `DateTime.Now` is the constructor's `now` parameter. `Utility.ToAbsolute` is a parameter of `RewrittenUrl`.
- Concurrency, persistence attributes and NHibernate proxies are left out.
- `User` is not a subclass. It is a `ContentItem` whose `itemType` says it is not a page and lists its declared properties. The `Title` and `Name` overrides only forward to the base class, so they are the inherited members.
- `Content.ContentItem.Clone` does not state the order of the cloned children in its heap contract. It states that they are exactly one fresh copy of each source child. `SortOrder.AttachOrder` and its lemmas state the order on sort-order values.
- `Content.ContentItem.Clone`, `Content.ContentItem.Path` and `Content.ContentItem.RewrittenUrl` take a ghost depth bound or ancestor chain. So they do not model the source's endless loop on a cyclic tree.
- `Content.ContentItem.Clone` states the copy's details, collections and roles, and that its children are fresh copies of the source's children with their fields, parent and child count. It does not restate this for the grandchildren and deeper items once later siblings have been attached. Each of those was stated by the recursive call's own contract when that call returned.
- `Content.ContentItem.MemberwiseCopy` and `Content.ContentItem.Copy`: in the source, `MemberwiseClone` makes the copy share the original's `Details`, `DetailCollections`, `AuthorizedRoles` and `Children` objects until `CloneDetails`, `CloneChildren` and `CloneAuthorizedRoles` replace them. Here these are values, so that aliasing does not exist.
- `Content.ContentItem.CloneDetails`: when the bag holds both a detail with an empty name and one named `Item`, the source throws whichever it meets first in the dictionary's enumeration order. The contract allows either error.
- `Content.ContentItem.FindChild` and `Content.ContentItem.GetChild` take the name comparison as the `sameName` parameter. .NET's invariant-culture case-insensitive comparison is not written out.
- `Filters.CompositeMatch` returns a ghost count of the filters evaluated. The source does not expose it.
- `Filters.FromArray`: the composite holds a copy of the filters, as a value. The source's params constructor keeps the caller's array by reference (src/Framework/N2/Collections/CompositeFilter.cs:14), so a later write to that array changes what the filter matches. The public `Filters` setter (:25-29), which replaces the array after construction, is not modelled. `Filters.FromEnumerable` takes a sequence, so the `ArgumentNullException` that `new List<ItemFilter>(null)` throws for a null enumerable (:19) is not modelled.

## Findings

| source | as written | input that shows it | evidently intended | confidence | as-written member | corrected member |
|---|---|---|---|---|---|---|
| src/N2/ContentItem.cs:569-579 | `SortOrder - other.SortOrder` in unchecked 32-bit arithmetic | this sort order `int.MaxValue`, the other's -1: the difference wraps to `int.MinValue`, so the item sorts before the other | a result whose sign follows the order of the two sort orders (`SortOrder.CompareTo(other.SortOrder)`) | not executed | SortOrder.CompareToOverflows | SortOrder.CompareSortOrder |
