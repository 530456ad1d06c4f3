# A verified model of the CMS backend's state machines

This project models the parts of the backend in which several functions or requests have to agree with
each other, and proves what they keep. Collections are sequences or maps, soft-deleted documents stay in
them and are hidden from queries, each service call is one atomic step, and instants are UTC milliseconds.
Every operation is a method (on a class where the service updates fields) proved against a specification
function; the theorems are lemmas about those functions and about runs of them. What a specification function means
is stated once more in the `...Effects`, `...Texts` and `Visibility` modules, by stored fields and texts alone.

| file | what it covers |
|---|---|
| `MenuTree.dfy` | the sidebar forest: parent links, the walk without a visited set, the linked nodes it builds |
| `AdminBackend.dfy`, `AdminService.dfy`, `AdminTheorems.dfy` | menus, roles and the shared cache; what every run of their commands keeps |
| `Visibility.dfy`, `AdminEffects.dfy` | who sees which item, and what each command refuses and stores, told by the stored fields |
| `StaleCaches.dfy` | exactly which steps leave a cached tree stale |
| `Delivery.dfy`, `DeliveryTheorems.dfy` | e-mail delivery status: webhooks one at a time, and the manual sync; where they lead, by event names |
| `Json.dfy`, `Flattening.dfy`, `DottedKeys.dfy`, `LatestRecords.dfy` | template parameters: dotted keys, and collapsing arrays to their latest record, as a tree rewrite and in place on the heap |
| `Recipients.dfy`, `RecipientTexts.dfy` | recipient expressions |
| `Calendar.dfy`, `Blogs.dfy`, `BlogEffects.dfy`, `Engagement.dfy` | archive dates, the blog life cycle and its sweep, buffered counters |
| `Attendance.dfy`, `AttendanceEffects.dfy`, `AttendanceTheorems.dfy` | registrations, attendees, check-in |
| `Reminders.dfy`, `ReminderEffects.dfy`, `ReminderTheorems.dfy` | the event reminder sweep, and whom it reaches over attendance runs |
| `Nominations.dfy`, `NominationEffects.dfy` | nominations and their quota |
| `StorageKeys.dfy`, `KeyTexts.dfy`, `Pagination.dfy`, `Text.dfy`, `Common.dfy` | storage keys and image variants, paged lists, shared helpers |

Some properties one would expect are not what the code does. Each is stated as an if-and-only-if or with a
concrete instance:

- A role keyed `unknown` shares its cache entry with users that have no role
  (`AdminTheorems.ReservedHolderSharesEntry`); creating it is the one write that does not clear the cache
  (`AdminTheorems.CreateRoleCoherentIff`, `AdminTheorems.ReservedKeyBreaksCoherence`).
- When clearing the cache throws, the error is logged and stale trees stay (`StaleCaches.StepKeepsCoherenceIff`,
  `StaleCaches.RunStaysCoherentIff`, `AdminTheorems.FailedClearLeavesStale`).
- Restricted users cannot add the wildcard or a protected permission, but menus are matched with quotes dropped, and a
  quoted one passes, in a new role and in an update (`AdminTheorems.UpdateUncoversIff`,
  `AdminTheorems.CreateUncoversIff`, `AdminTheorems.QuotedPermissionIsAccepted`).
- An explicit order or a move can leave gaps and ties among the positions of siblings
  (`AdminTheorems.CreateKeepsDenseIff`, `AdminTheorems.UpdateKeepsDenseIff`), and closing the gap of a tied item can
  tie two of its siblings (`AdminTheorems.DeleteKeepsOrderIff`).
- The sync and the webhooks word the error of a failure without a reason differently
  (`Delivery.SyncSimulatesWebhooks`).
- An array that ends in a scalar can make collapsing invent or change a key (`Flattening.CollapseThenFlattenIff`,
  `Flattening.ScalarEndingInventsKey`), and a nested array of objects is peeled one level per pass
  (`Flattening.CollapseIdempotentIff`, `Flattening.NestedArrayPeelsTwice`), so that one can remain
  (`Flattening.CollapseLeavesNoArrayOfObjectsIff`). Keys with dots can hide each other (`Flattening.DottedKeysCollide`).
- Adding months is not monotone (`Calendar.InversionIff`, `Calendar.NovemberOvertakesDecember`,
  `Calendar.LateOvertakesEarly`).
- The sweep publishes without computing an archive date. A blog without one then stays published
  (`Blogs.ScheduledRunStaysUndated`, `Blogs.UndatedStaysPublished`); one with the date of an earlier publication may be
  archived early, even by the same sweep (`Blogs.RunArchivesEarlyIff`, `Blogs.RescheduledRunArchivesAtOnce`).
- A new blog without a status is an active draft, and a request can set the flag against the status
  (`Blogs.StepKeepsAlignedIff`).
- An action that lands inside a sync is lost, and so is whatever a cache clear finds
  (`Engagement.EngagementConserved`, `Engagement.ExactIffNothingLanded`).
- Approving saves the registration before it looks up the event, and moving an attendee to another event leaves the
  approved registration without one (`AttendanceTheorems.StepKeepsBackedIff`,
  `AttendanceTheorems.MovedAttendeeLeavesRegistration`). The unique index on event and e-mail refuses the move
  that would give an event two attendees of one e-mail.
- Approve and block act on the first registration for an event even when a later one is open
  (`AttendanceTheorems.StepKeepsSingleOpenIff`, `AttendanceTheorems.SecondRegistrationIsOvertaken`).
- An administrator's update can make an attendee fit to be checked in again (`AttendanceTheorems.StepLeavesOpenIff`,
  `AttendanceTheorems.ResetAttendeeIsCheckedInTwice`).
- A reject has no guard, so that it lifts the block of someone who is blocked as registree only
  (`AttendanceTheorems.StepKeepsBlockIff`, `AttendanceTheorems.RejectLiftsBlock`).
- The comment on the reminder query promises the registrees approved for the event; the query asks for *some*
  registration for the event and *some* approved one, so that people blocked for the event can be reminded of it
  (`ReminderTheorems.ReachableBlockedIsRemindedIff`, `ReminderTheorems.BlockedRunIsReminded`).
- Two images whose names differ only in the extension share all variant keys (`StorageKeys.ImagesShareAKeyIff`).

What the rows take for granted:

- *Over every run* means from any state in which the stated property, and the uniqueness of ids and keys that the
  database indexes give, hold; the empty store is one. Engagement runs start with nothing stored or buffered.
- A *restricted* user is signed in and not a super admin. *Exactly unless* and *except exactly* are equivalences.
- A tree is *tidy* if the keys of an object are distinct, none is empty, contains a dot or reads as an array index,
  and no array sits directly in an array. Trees have an object at the root.
- The rows that compare a sync with webhooks or with itself concern logs whose last event has a name and an instant or
  neither, and events with names.
- Slugs are in the form the schema stores them in, trimmed and in lower case.
- Lower-casing of storage keys is any function that agrees with the usual one on ASCII.
- In the reminder theorems an attendee that belongs to no registree shares no registree's id.
- Page numbers are at least 1 and page sizes positive, as the query validation demands.

## Model

| member | source | states |
|---|---|---|
| `MenuTree.ForestHoldsRootedOnce` | src/core/sidebar-menu/sidebar-menu.service.ts:227-253 | the tree holds exactly the items whose parent chain reaches null, each once, for any list with unique ids: cycles, self-parents and missing parents included |
| `MenuTree.SubtreesExact` | src/core/sidebar-menu/sidebar-menu.service.ts:243-252 | at every point of the walk, the subtrees still to come hold exactly the items whose chain enters one of them, once each |
| `MenuTree.PathBound` | src/core/sidebar-menu/sidebar-menu.service.ts:244-250 | no chain of parents from null repeats an id or is longer than the list, so the recursion without a visited set ends |
| `MenuTree.PathUnique` | src/core/sidebar-menu/sidebar-menu.service.ts:244-250 | at most one chain from null leads to an item |
| `MenuTree.ForestLevels` | src/core/sidebar-menu/sidebar-menu.service.ts:231-250 | each level of the tree is the whole bucket of its parent |
| `MenuTree.SiblingsInInputOrder` | src/core/sidebar-menu/sidebar-menu.service.ts:231-241 | siblings come in the order of the input list |
| `MenuTree.RootedMonotone` | src/core/sidebar-menu/sidebar-menu.service.ts:227-253 | a longer list loses no node |
| `MenuTree.SameForestIff` | src/core/sidebar-menu/sidebar-menu.service.ts:227-253 | two lists give the same tree if and only if they agree on every level the walk gets to |
| `MenuTree.BuildTree` | src/core/sidebar-menu/sidebar-menu.service.ts:227-253 | grouping by parent and linking `children` in place yields linked nodes that spell out exactly that forest |
| `MenuTree.GetChildren` | src/core/sidebar-menu/sidebar-menu.service.ts:244-250 | the inner recursion returns the bucket, links every node of its subtree and unlinks none |
| `AdminBackend.ShownMembers` | src/core/sidebar-menu/sidebar-menu.service.ts:186-216 | a role is shown exactly the live, active, visible items it is permitted, quotes in permissions ignored |
| `AdminBackend.SortSorted` | src/core/sidebar-menu/sidebar-menu.service.ts:194-198 | the list handed to the tree builder is sorted by order |
| `AdminBackend.MorePermissionsKeepNodes` | src/core/sidebar-menu/sidebar-menu.service.ts:186-219 | enlarging a role's permissions never removes a node from its tree |
| `Visibility.InTreeIff` | src/core/sidebar-menu/sidebar-menu.service.ts:175-253 | an item is in a role's tree if and only if it and every item above it, up to a root, is live and active and, for any key but super_admin, visible, outside the group super admin controls in whatever letter case, and granted by a permission that without its quotes is the wildcard or the item's own |
| `Visibility.HiddenItems` | src/core/sidebar-menu/sidebar-menu.service.ts:186-216 | so nobody is shown deleted or inactive items, and only a super admin invisible, reserved or ungranted ones |
| `Visibility.RootsAreSeen` | src/core/sidebar-menu/sidebar-menu.service.ts:186-253 | and a root item that passes all these is in the tree |
| `AdminService.SidebarBackend.CreateSidebarMenu` | src/core/sidebar-menu/sidebar-menu.service.ts:39-63 | duplicate path refused, position appended behind the live siblings, cache cleared |
| `AdminService.SidebarBackend.UpdateSidebarMenu` | src/core/sidebar-menu/sidebar-menu.service.ts:65-93 | duplicate path refused, missing item refused, given fields replaced, cache cleared |
| `AdminService.SidebarBackend.DeleteSidebarMenu` | src/core/sidebar-menu/sidebar-menu.service.ts:95-119 | soft delete, gap closed among the live siblings, cache cleared |
| `AdminService.SidebarBackend.ClearCache` | src/core/sidebar-menu/sidebar-menu.service.ts:27-37 | the whole cache goes, or, when clearing throws, stays |
| `AdminService.SidebarBackend.GetUserSidebarMenus` | src/core/sidebar-menu/sidebar-menu.service.ts:175-225 | the cached tree, or the computed one, which is then cached |
| `AdminEffects.MenuIsCreated` | src/core/sidebar-menu/sidebar-menu.service.ts:39-63 | every refusal and every stored field of a new item, its place behind the last live sibling included |
| `AdminEffects.MenuIsUpdated` | src/core/sidebar-menu/sidebar-menu.service.ts:65-93 | every refusal of an update; each field of the item is the given one or what it was, and no other item changes |
| `AdminEffects.MenuIsDeleted` | src/core/sidebar-menu/sidebar-menu.service.ts:95-119 | the item is marked, live siblings behind it move up by one, nothing else changes |
| `AdminEffects.ReadStores` | src/core/sidebar-menu/sidebar-menu.service.ts:175-225 | a read changes nothing but the cache entry of its own key |
| `AdminEffects.EvictionDrops` | src/core/sidebar-menu/sidebar-menu.service.ts:221-222 | a cache entry that expires is gone, and no other |
| `AdminEffects.RequestGoesBy` | src/core/sidebar-menu/sidebar-menu.controller.ts:93-102 | without a live role a request goes by unknown and carries no permissions, otherwise by its role's |
| `AdminService.SidebarBackend.CreateRole` | src/core/roles/roles.service.ts:34-83 | protected permissions refused to restricted users, duplicates refused, and the cache left alone |
| `AdminService.SidebarBackend.UpdateRole` | src/core/roles/roles.service.ts:114-200 | every refusal in its order, and otherwise the stored role with protected permissions preserved and the cache cleared |
| `AdminService.SidebarBackend.RemoveRole` | src/core/roles/roles.service.ts:202-226 | the super admin role cannot be removed; any other is soft-deleted and the cache cleared |
| `AdminEffects.ProtectedIff` | src/common/constants/permissions.ts:106-118 | the protected permissions: viewing and updating feature toggles, settings and support tickets, and five for the menus |
| `AdminEffects.RoleIsCreated` | src/core/roles/roles.service.ts:34-83 | the refusals in their order and the stored fields of a new role |
| `AdminEffects.RoleIsUpdated` | src/core/roles/roles.service.ts:114-200 | the refusals in their order and the stored fields; a restricted update stores what it asks for and the protected permissions there were, each once, any other exactly what it asks for |
| `AdminEffects.RoleIsRemoved` | src/core/roles/roles.service.ts:202-226 | the role is marked and the cache cleared, unless it is the super admin's |
| `AdminTheorems.IdentityMatchesKey` | src/core/sidebar-menu/sidebar-menu.controller.ts:93-102 | the permissions a request carries are those its role key stands for |
| `AdminTheorems.ReadIsTransparent` | src/core/sidebar-menu/sidebar-menu.service.ts:175-225 | served from the cache or not, a request gets the tree of the current menus and permissions |
| `AdminTheorems.StepKeepsCoherence` | src/core/sidebar-menu/sidebar-menu.service.ts:61-225 | every single command keeps all cached trees current, given that clearing the cache works and no role takes the key unknown or an empty key |
| `AdminTheorems.RunsKeepCacheCoherent` | src/core/roles/roles.service.ts:190-225 | over every run of menu and role commands, reads and evictions in which clearing works and no role takes the key unknown or an empty key, each cached tree is the one computed afresh |
| `AdminTheorems.FailedClearLeavesStale` | src/core/sidebar-menu/sidebar-menu.service.ts:27-37 | an instance where clearing throws: the deleted item stays in the cached tree of the super admin |
| `StaleCaches.LevelOfShown` | src/core/sidebar-menu/sidebar-menu.service.ts:186-216 | each level of a role's list is what the role is shown below that parent, sorted stably by order |
| `StaleCaches.TreesAgreeIff` | src/core/sidebar-menu/sidebar-menu.service.ts:186-219 | a change of menus or permissions leaves a role's tree as it was if and only if, on every level the walk gets to, it shows and hides the same items as before |
| `StaleCaches.UnclearedCreateIff` | src/core/sidebar-menu/sidebar-menu.service.ts:39-63 | a create whose clear throws leaves a stale tree if and only if some cached role is shown the new item and the item's parent, if any, has a place in its tree |
| `StaleCaches.UnclearedUpdateIff` | src/core/sidebar-menu/sidebar-menu.service.ts:65-93 | an update whose clear throws, if and only if it changes the item and some cached role had a place for the old form or has one for the new |
| `StaleCaches.UnclearedDeleteIff` | src/core/sidebar-menu/sidebar-menu.service.ts:95-119 | a delete whose clear throws, if and only if some cached role had a place for the item or for a sibling behind it |
| `StaleCaches.UnclearedRoleUpdateIff` | src/core/roles/roles.service.ts:190-198 | a role update whose clear throws, if and only if a tree is cached for the role and its new permissions, or the loss of its key, change what it shows, or one is cached under its new key and it is shown some root item |
| `StaleCaches.UnclearedRemovalIff` | src/core/roles/roles.service.ts:202-226 | a role removal whose clear throws, if and only if a tree is cached for the role and the role was shown some root item |
| `StaleCaches.StepKeepsCoherenceIff` | src/core/sidebar-menu/sidebar-menu.service.ts:27-225 | any step at all, a read or an eviction included, keeps every cached tree current, except exactly when it leaves one stale in one of these ways, creates a role, not the super admin, that is shown some root item under a key with a cached tree, or caches a read that carries other permissions than its key stands for and that show something else |
| `StaleCaches.RunStaysCoherentIff` | src/core/sidebar-menu/sidebar-menu.service.ts:27-225 | over any run, failed clears and reserved keys included, all cached trees stay current if and only if no step is one of these |
| `AdminTheorems.CreateRoleCoherentIff` | src/core/roles/roles.service.ts:34-83 | creating a role keeps the cache coherent, except exactly when its key is the reserved one, a tree is cached under that, and its permissions show some root item |
| `AdminTheorems.ReservedHolderSharesEntry` | src/core/sidebar-menu/sidebar-menu.controller.ts:93-102 | the holder of such a role and a user without a role share a cache entry: whoever reads first while it is empty, the other is answered right if and only if the role's permissions show no root item |
| `AdminTheorems.ReservedKeyBreaksCoherence` | src/core/sidebar-menu/sidebar-menu.controller.ts:93-102 | instances where it does not, for every user who may create the role and any permission that shows the item |
| `AdminTheorems.RolelessReadIsCached` | src/core/sidebar-menu/sidebar-menu.controller.ts:93-102 | the state they start from is reachable, and there the create passes for exactly the users who may grant its permissions |
| `AdminTheorems.TreeSiblingsAscend` | src/core/sidebar-menu/sidebar-menu.service.ts:194-219 | below every parent of a role's tree the positions ascend |
| `AdminTheorems.CreateKeepsDense` | src/core/sidebar-menu/sidebar-menu.service.ts:52-58 | an appended item takes the next position |
| `AdminTheorems.CreateKeepsDenseIff` | src/core/sidebar-menu/sidebar-menu.service.ts:52-60 | an explicit order keeps the positions 0..n-1 if and only if it is the next one |
| `AdminTheorems.UpdateKeepsDenseIff` | src/core/sidebar-menu/sidebar-menu.service.ts:65-93 | an update keeps the positions 0..n-1 under every parent if and only if it leaves the item its place, or moves the last item of one parent behind the last of another |
| `AdminTheorems.DeleteKeepsDense` | src/core/sidebar-menu/sidebar-menu.service.ts:99-115 | closing the gap leaves positions 0..n-1, under every parent |
| `AdminTheorems.DeleteKeepsOrderIff` | src/core/sidebar-menu/sidebar-menu.service.ts:99-115 | a delete keeps the relative order of two other siblings, except exactly where the first is tied with the deleted item and the second comes right behind it |
| `AdminTheorems.DeleteKeepsRelativeOrder` | src/core/sidebar-menu/sidebar-menu.service.ts:99-115 | so it keeps the order of all of them where positions are dense |
| `AdminTheorems.StepKeepsDenseIff` | src/core/sidebar-menu/sidebar-menu.service.ts:39-119 | any command keeps them, except exactly an accepted create with an order that is not the next one and an accepted update that does neither |
| `AdminTheorems.RunsKeepPositionsDense` | src/core/sidebar-menu/sidebar-menu.service.ts:39-119 | over any run of appending creates and deletes the live siblings under each parent hold exactly positions 0..n-1 |
| `AdminTheorems.UpdateRoleNoEscalation` | src/core/roles/roles.service.ts:133-168 | an update by a restricted user leaves every role's protected permissions as they were and adds no wildcard |
| `AdminTheorems.RunsNeverEscalate` | src/core/roles/roles.service.ts:34-226 | over any run of role commands by restricted users the protected permissions of each role are constant, new roles have none, and the wildcard is never gained |
| `AdminTheorems.UpdateUncoversIff` | src/core/roles/roles.service.ts:133-168 | menus are matched with quotes dropped, so an accepted restricted update makes a role match a guarded permission (the wildcard or a protected one) that it did not match before if and only if it adds a form of it that reads the same without quotes |
| `AdminTheorems.CreateUncoversIff` | src/core/roles/roles.service.ts:34-60 | the same for a role that a restricted user creates |
| `AdminTheorems.UpdateAddsWildcardIff` | src/core/roles/roles.service.ts:133-168 | in particular it comes to see every menu if and only if the update adds such a form of the wildcard |
| `AdminTheorems.QuotedPermissionIsAccepted` | src/core/roles/roles.service.ts:143-150 | instances: any permission free of quotes, put between quotes, passes the checks of an update and is matched |
| `AdminTheorems.QuotedWildcardIsAccepted` | src/core/roles/roles.service.ts:143-150 | the quoted wildcard among them |
| `AdminTheorems.RunsUncoverNothing` | src/core/roles/roles.service.ts:34-226 | over every run by restricted users that names no such form of a guarded permission, no role comes to match it |
| `AdminTheorems.RunsNeverShowEverything` | src/core/roles/roles.service.ts:34-226 | so none comes to see every menu |
| `AdminTheorems.RunsKeepRolesUnique` | src/core/roles/roles.service.ts:34-226 | over every run names and keys stay unique, so at most one role is the super admin |
| `AdminTheorems.IndexFiresOnlyForDeleted` | src/core/roles/roles.service.ts:170-188 | the look-up before an update catches every clash with a live role; the database index fires only for deleted roles or emptied names and keys |
| `Delivery.DeliveryService.HandleBrevoWebhook` | src/modules/communications/communications.service.ts:658-757 | what one webhook does to which log: unknown ids ignored, bad instants refused, precedence, error text, latest event, audit trail |
| `Delivery.DeliveryService.SyncLogStatusWithProvider` | src/modules/communications/communications.service.ts:1142-1276 | what a sync does: refusals, the loop over the report, and the fields it stores |
| `DeliveryTheorems.WebhooksByName` | src/modules/communications/communications.service.ts:615-729 | after any webhooks the status is that of the last hard_bounce, soft_bounce, blocked, spam, invalid_email or error; without one an initial failure stays; otherwise it is clicked if a click came, otherwise opened if one of the four opening events came, then delivered, sent, requested and pending, whatever the order of arrival |
| `DeliveryTheorems.SyncByName` | src/modules/communications/communications.service.ts:1203-1260 | the same for a sync and the names of the provider's report |
| `DeliveryTheorems.WebhooksKeepError` | src/modules/communications/communications.service.ts:714-728 | the error is the reason of the last failing webhook or a text with its name; without one it stays |
| `DeliveryTheorems.SyncKeepsError` | src/modules/communications/communications.service.ts:1225-1262 | the same for a sync, which also turns an empty error into none |
| `DeliveryTheorems.WebhooksKeepLatest` | src/modules/communications/communications.service.ts:731-749 | the name and instant kept are those of the last webhook of the latest instant, unless a later one is on file |
| `DeliveryTheorems.SyncKeepsLatest` | src/modules/communications/communications.service.ts:1249-1270 | a sync replaces both audit trails by the report and keeps its latest event, if that has a name |
| `DeliveryTheorems.WebhooksAreAudited` | src/modules/communications/communications.service.ts:678-702 | each webhook is appended to both trails with its name, its instant in milliseconds or the moment of receipt, and its reason |
| `DeliveryTheorems.MessageIdFinds` | src/modules/communications/communications.service.ts:665-671 | a webhook is for the first live log with its message id |
| `DeliveryTheorems.IdFinds` | src/modules/communications/communications.service.ts:1142-1155 | a sync is for the first live log with its id |
| `DeliveryTheorems.TimeRange` | src/modules/communications/communications.service.ts:678-682 | instants range over a hundred million days either way |
| `Delivery.WebhooksFold` | src/modules/communications/communications.service.ts:696-751 | a sequence of webhooks folds one absorbing rule and keeps every event in arrival order |
| `Delivery.FinalPrecedenceIsMax` | src/modules/communications/communications.service.ts:636-650 | the final precedence is the maximum of the initial one and all mapped ones |
| `Delivery.FinalInstantIsLatest` | src/modules/communications/communications.service.ts:731-749 | the stored instant is the largest, the initial one included |
| `Delivery.OrderIndependence` | src/modules/communications/communications.service.ts:703-749 | order, repetition and grouping of events change neither precedence nor instant, nor the status below the failure level |
| `Delivery.PermutationIndependence` | src/modules/communications/communications.service.ts:703-749 | the same for every permutation |
| `Delivery.WebhookOrderIndependence` | src/modules/communications/communications.service.ts:703-749 | and for the webhook handler itself, error and audit length included |
| `Delivery.FailureAbsorbs` | src/modules/communications/communications.service.ts:714-728 | failures absorb: the last-arrived one gives status and error, whatever came around it |
| `Delivery.LatestEventNamed` | src/modules/communications/communications.service.ts:731-749 | the stored event is the last arrival among those at the latest instant |
| `Delivery.SameNameSameStatus` | src/modules/communications/communications.service.ts:1203-1216 | the two name tables map corresponding events to the same status |
| `Delivery.SyncSimulatesWebhooks` | src/modules/communications/communications.service.ts:1203-1270 | a sync ends with the status and instant the webhooks would have given, always, and with the same error exactly when the last failure carries a reason or there is none and no empty text was stored |
| `Delivery.SyncSimulatesInAnyOrder` | src/modules/communications/communications.service.ts:1203-1270 | in whatever order the report lists the events, precedence and instant agree with the webhooks, and below the failure level so does the status |
| `Delivery.AbsorbTwice` | src/modules/communications/communications.service.ts:1225-1254 | absorbing the same report again changes nothing |
| `Delivery.SyncTwiceIsSyncOnce` | src/modules/communications/communications.service.ts:1203-1270 | syncing twice with one report leaves the whole log as after the first |
| `Json.DecInjective` | src/modules/communications/communications.service.ts:64-66 | different indices have different texts |
| `Json.RenderInjective` | src/modules/communications/communications.service.ts:53-54 | different tidy paths never share a dotted key |
| `DottedKeys.ValueOfDec` | src/modules/communications/communications.service.ts:64-66 | the text of an index reads, in decimal, as that index |
| `Flattening.FlattenObject` | src/modules/communications/communications.service.ts:48-79 | the loops that assign into one result, later assignments winning |
| `Flattening.FlattenArray` | src/modules/communications/communications.service.ts:62-71 | every element under its index, then every element without it |
| `Flattening.LaterPassWins` | src/modules/communications/communications.service.ts:62-71 | where the two passes over an array meet in a key, the one without indices has the last word |
| `Flattening.FlattenIsResolve` | src/modules/communications/communications.service.ts:48-79 | in a tidy tree the value under a rendered path is what the path resolves to, absence included |
| `Flattening.FlattenMeaning` | src/modules/communications/communications.service.ts:48-79 | the keys of a tidy tree are exactly the rendered paths that resolve, each with the scalar it resolves to |
| `Flattening.DottedKeysCollide` | src/modules/communications/communications.service.ts:53-54 | why keys must be tidy: a key with a dot in it overwrites the entry of the nested field it spells |
| `Flattening.IndexedPathLooksUp` | src/modules/communications/communications.service.ts:63-66 | in a tidy tree a key that names an index at every array gives the scalar at exactly that place |
| `DottedKeys.WrittenKeyLooksUp` | src/modules/communications/communications.service.ts:48-79 | where a text split at its dots leads, by field names and decimal positions, to a field with a scalar, the flattened tree has that scalar under this very text |
| `DottedKeys.KeysSpellPaths` | src/modules/communications/communications.service.ts:48-79 | every key of a flattened tidy tree, split at its dots, spells a path that resolves to its scalar: field names as they are, positions in decimal |
| `Flattening.IndexlessTakesLast` | src/modules/communications/communications.service.ts:67-70 | a key without an index gives the last element that has it, and none after it has |
| `Flattening.CollapseResolves` | src/modules/events/event-listeners.ts:634-654 | where no replaced array ends in an array, after collapsing a path gives the scalar a replaced array there ends in, and otherwise only what it gave before |
| `Flattening.ReplacedIff` | src/modules/events/event-listeners.ts:637-650 | an array stays if it is empty or starts with null, a truth value, a number or a text, and otherwise gives way to its last element |
| `Flattening.CollapseRefines` | src/modules/events/event-listeners.ts:634-654 | so, where replaced arrays end in objects, whatever resolves after collapsing resolved to the same scalar before |
| `Flattening.CollapseThenFlattenIff` | src/modules/events/event-listeners.ts:634-654 | every key of a tidy tree flattened after collapsing is a key of it flattened before, with the same value, if and only if every scalar that takes the place of an array was what the path of that array resolved to |
| `Flattening.PlainRecordsAgreeIff` | src/modules/events/event-listeners.ts:634-654 | in a tidy tree where the replacing elements hold no arrays, that is: if and only if they are objects |
| `Flattening.CollapseThenFlatten` | src/modules/events/event-listeners.ts:634-654 | in particular it holds for every key of a tidy tree if every replaced array ends in an object |
| `Flattening.ScalarEndingInventsKey` | src/modules/events/event-listeners.ts:637-648 | a family where it fails: a scalar at the end of an array of objects becomes a new key |
| `Flattening.CollapseLeavesNoArrayOfObjectsIff` | src/modules/events/event-listeners.ts:633-654 | no array of objects remains if and only if every array that is not replaced holds nothing of type object, as arrays and dates also are, and every array that a replaced one ends in holds none once its elements are collapsed |
| `Flattening.CollapseLeavesNoArrayOfObjects` | src/modules/events/event-listeners.ts:633-654 | in particular where each array holds only things of type object or none, and no array sits directly in an array |
| `Flattening.CollapseShrinks` | src/modules/events/event-listeners.ts:634-654 | collapsing never makes a tree larger |
| `Flattening.CollapseIdempotentIff` | src/modules/events/event-listeners.ts:633-654 | collapsing twice is collapsing once if and only if no replaced array ends in an array that, once collapsed, starts with an object |
| `Flattening.CollapseIdempotent` | src/modules/events/event-listeners.ts:633-654 | in particular where no array sits directly in an array |
| `Flattening.NestedArrayPeelsTwice` | src/modules/events/event-listeners.ts:637-648 | an instance that needs two passes |
| `LatestRecords.ResolveLatestArrayRecords` | src/modules/events/event-listeners.ts:634-654 | overwriting values in place turns the tree of objects behind a reference into exactly the collapsed tree, and touches nothing outside it |
| `LatestRecords.ResolveEntry` | src/modules/events/event-listeners.ts:636-652 | one entry is replaced by its latest record or rewritten below, its neighbours stay |
| `LatestRecords.ResolveItems` | src/modules/events/event-listeners.ts:643-648 | every element is resolved before the last one is taken |
| `Recipients.ResolveRecipientList` | src/modules/events/event-listeners.ts:656-681 | the loop over the comma-separated parts |
| `Recipients.RecipientsExactly` | src/modules/events/event-listeners.ts:656-681 | the recipients are exactly the contributed texts with an at sign or equal to admin, once each, in order of first mention |
| `Recipients.JoinedAddressesComeBack` | src/modules/events/event-listeners.ts:656-681 | distinct plain addresses joined by commas come back as they are, whatever paths resolve to |
| `RecipientTexts.TrimIs` | src/modules/events/event-listeners.ts:661-663 | trimming takes away the white space of ECMA-262 at both ends, all of it and nothing else |
| `RecipientTexts.SpacesAre` | src/modules/events/event-listeners.ts:661-663 | the white space and line terminators of sections 12.2 and 12.3 of ECMA-262 |
| `RecipientTexts.WrappedContributes` | src/modules/events/event-listeners.ts:660-677 | whatever spaces and braces surround it, an address adds itself, and anything else what it resolves to, trimmed |
| `RecipientTexts.SpacesContributeNothing` | src/modules/events/event-listeners.ts:661-662 | a part of spaces alone adds nothing |
| `RecipientTexts.WrappedAddressesComeBack` | src/modules/events/event-listeners.ts:656-681 | distinct addresses joined by commas come back in order, however each is wrapped |
| `Calendar.MonthsTile` | src/modules/blogs/blogs.service.ts:121-141 | months tile the proleptic Gregorian calendar (MakeDay, section 21.4.1 of ECMA-262) |
| `Calendar.DatesAreUnique` | src/modules/blogs/blogs.service.ts:125-138 | every day number is exactly one date of one month |
| `Calendar.Epoch` | src/modules/blogs/blogs.service.ts:121-141 | day 0 is 1 January 1970 |
| `Calendar.FourCenturies` | src/modules/blogs/blogs.service.ts:121-141 | years are counted from their first January, and 400 of them are 146097 days |
| `Calendar.LeapYears` | src/modules/blogs/blogs.service.ts:121-141 | the leap years and the lengths of years |
| `Calendar.MonthLengths` | src/modules/blogs/blogs.service.ts:121-141 | the lengths of the twelve months |
| `Calendar.JsDate.SetMonth` | src/modules/blogs/blogs.service.ts:126-131 | the time of day stays; the date stays if the target month has it, and otherwise becomes its excess over that month, in the next one |
| `Calendar.JsDate.SetFullYear` | src/modules/blogs/blogs.service.ts:132-137 | the same for years: only 29 February can move, to 1 March |
| `Calendar.CalculateArchiveDate` | src/modules/blogs/blogs.service.ts:121-141 | the four durations through the mutable date |
| `Calendar.SameDateLater` | src/modules/blogs/blogs.service.ts:121-141 | a date that every month has comes back 3, 6, 12 or 36 months later, at the same time of day |
| `Calendar.ArchiveIsMonthSum` | src/modules/blogs/blogs.service.ts:121-141 | the archive date lies exactly the lengths of that many months, from the publish month on, after publication |
| `Calendar.YearSum` | src/modules/blogs/blogs.service.ts:132-134 | a year takes 366 days exactly when it takes in a leap day |
| `Calendar.ArchiveSpan` | src/modules/blogs/blogs.service.ts:121-141 | 89..92, 181..184, 365..366 and 1095..1096 days, for every date |
| `Calendar.InversionIff` | src/modules/blogs/blogs.service.ts:121-141 | exactly when a later publication is archived earlier: it is in the very next month, the earlier date exceeds its target month, and the excess passes the later date, or meets it and the time of day is later |
| `Calendar.NovemberOvertakesDecember` | src/modules/blogs/blogs.service.ts:127-128 | 30 November against 1 December, in every year that is followed by a common year |
| `Calendar.LateOvertakesEarly` | src/modules/blogs/blogs.service.ts:121-141 | late on 30 November against early on 1 December, in every year that is followed by a leap year: the same archive day, in the wrong order |
| `Blogs.BlogsService.HandleStatusTransitions` | src/modules/blogs/blogs.service.ts:143-168 | what is added to a request, field by field |
| `Blogs.BlogsService.Create` | src/modules/blogs/blogs.service.ts:170-193 | slug clashes and missing or empty slugs refused, otherwise the document with derived fields |
| `Blogs.BlogsService.Update` | src/modules/blogs/blogs.service.ts:373-396 | missing blogs and slug clashes refused, otherwise the merged document |
| `Blogs.BlogsService.RunMaintenance` | src/modules/blogs/services/blog-maintenance.service.ts:26-70 | the two bulk updates, publish first |
| `BlogEffects.Creates` | src/modules/blogs/blogs.service.ts:143-193 | the refusals of a create in their order, and every stored field |
| `BlogEffects.Updates` | src/modules/blogs/blogs.service.ts:143-168 | the refusals of an update, and every stored field: left out, emptied or given; a set publication date stays, a missing one is set exactly by a request for publication |
| `BlogEffects.Removes` | src/modules/blogs/blogs.service.ts:397-411 | a removal marks the blog and changes nothing else |
| `BlogEffects.Sweeps` | src/modules/blogs/services/blog-maintenance.service.ts:26-70 | what a sweep makes of each blog: published, archived, both at once, or left alone |
| `BlogEffects.StepMovesPublication` | src/modules/blogs/services/blog-maintenance.service.ts:31-46 | a publication date changes exactly at a first accepted request for publication or at a sweep that finds the blog due, and then to that instant |
| `BlogEffects.PublicationStaysUntil` | src/modules/blogs/blogs.service.ts:143-168 | over every run it stays until the first such step |
| `Blogs.EditsKeepExact` | src/modules/blogs/blogs.service.ts:170-411 | over every run of creates, updates and removals each archive date is the one that follows from publication and duration, and absent without them |
| `Blogs.SweepKeepsExactIff` | src/modules/blogs/services/blog-maintenance.service.ts:31-46 | a sweep keeps all dates so, if and only if no blog it publishes has a duration that asks for another date |
| `Blogs.RunsKeepSound` | src/modules/blogs/services/blog-maintenance.service.ts:26-70 | over every run without rescheduling every archive date is the right one |
| `Blogs.SweepArchivesEarlyIff` | src/modules/blogs/services/blog-maintenance.service.ts:31-70 | a blog with the right date is archived before its months are over if and only if the same sweep published it |
| `Blogs.RunArchivesEarlyIff` | src/modules/blogs/services/blog-maintenance.service.ts:26-70 | after any run at all, a sweep archives a blog early if and only if it publishes it in the same go, or the blog carries a date that has come while the one its publication asks for has not, which takes an earlier sweep that left it a stale date |
| `Blogs.RescheduledRunArchivesAtOnce` | src/modules/blogs/services/blog-maintenance.service.ts:31-70 | the run that does it: publish, schedule again, sweep after the old date |
| `Blogs.NeverArchivedEarly` | src/modules/blogs/services/blog-maintenance.service.ts:55-70 | without rescheduling no sweep archives a blog before the exact month sum after its publication |
| `Blogs.RepeatedSweepsAreOne` | src/modules/blogs/services/blog-maintenance.service.ts:26-70 | any number of sweeps at one instant changes what one does |
| `Blogs.ScheduledRunStaysUndated` | src/modules/blogs/services/blog-maintenance.service.ts:31-46 | the run that leaves one: created as scheduled with a duration, published by a sweep, without an archive date |
| `Blogs.UndatedStaysPublished` | src/modules/blogs/services/blog-maintenance.service.ts:31-70 | a published blog without a date is left as it is by every run that does not edit it |
| `Blogs.StepKeepsAlignedIff` | src/modules/blogs/blogs.service.ts:143-168 | exactly the published blogs are active: any step keeps this, except exactly when an accepted request gives no status and sets the flag against it, or creates an active draft |
| `Blogs.RunsKeepAligned` | src/modules/blogs/blogs.service.ts:143-411 | over every run whose creates give a status or switch the flag off, and whose updates give a status or leave the flag alone, exactly the published blogs are active |
| `Blogs.RunsKeepSlugsUnique` | src/modules/blogs/blogs.service.ts:170-411 | over every run no two blogs share a slug, deleted ones included |
| `Blogs.DeletedSlugIsLost` | src/modules/blogs/schemas/blog.schema.ts:155 | a removed blog keeps its slug for good: no later create or update can take it |
| `Engagement.EngagementBuffer.Engage` | src/modules/blogs/blogs.service.ts:413-496 | an action on an existing blog adds one to its buffered counter |
| `Engagement.EngagementBuffer.ReadStep` | src/modules/blogs/processors/blog-engagement.processor.ts:29-42 | the read of the three counters; nothing read, nothing done |
| `Engagement.EngagementBuffer.AddStep` | src/modules/blogs/processors/blog-engagement.processor.ts:44-51 | the counts read are added to the stored blog |
| `Engagement.EngagementBuffer.DeleteStep` | src/modules/blogs/processors/blog-engagement.processor.ts:53-58 | the three keys are deleted, whatever they hold by then |
| `Engagement.EngagementBuffer.HandleSyncEngagement` | src/modules/blogs/processors/blog-engagement.processor.ts:19-58 | undisturbed, a sync moves exactly the buffered counts and leaves all other cache entries |
| `Engagement.AcceptedCountsOne` | src/modules/blogs/blogs.service.ts:413-496 | an action on a known blog is one more in its own counter; everything else is left alone |
| `Engagement.SyncStepByStep` | src/modules/blogs/processors/blog-engagement.processor.ts:29-58 | between its steps a sync holds what it read, and only the last one takes from the cache |
| `Engagement.UndisturbedSyncMoves` | src/modules/blogs/processors/blog-engagement.processor.ts:19-58 | its three steps in a row move every buffered count of the blog into the store and touch no other blog |
| `Engagement.EngagementConserved` | src/modules/blogs/processors/blog-engagement.processor.ts:29-58 | with any interleaving and no sync in flight, stored plus buffered is what was accepted minus what landed inside a sync and what a clear or expiry wiped |
| `Engagement.ExactIffNothingLanded` | src/modules/blogs/processors/blog-engagement.processor.ts:29-58 | without clears and expiry it never over-counts and is exact exactly when nothing landed inside a sync |
| `Engagement.DoubleCountDuringSync` | src/modules/blogs/processors/blog-engagement.processor.ts:44-58 | between add and delete the stored side alone accounts for everything |
| `Attendance.AttendeesService.Register` | src/modules/attendees/attendees.service.ts:51-152 | the refusals in their order, and otherwise the registree, created or refreshed, with one more pending registration |
| `Attendance.AttendeesService.Refreshed` | src/modules/attendees/attendees.service.ts:121-136 | the name always changes, other details only where given |
| `Attendance.AttendeesService.PatchedContact` | src/modules/attendees/attendees.service.ts:500-522 | each contact field an update gives replaces the stored one |
| `Attendance.AttendeesService.ApproveRegistration` | src/modules/attendees/attendees.service.ts:870-941 | the refusals, the saved registration, and the attendee with its embedded details |
| `Attendance.AttendeesService.RejectRegistration` | src/modules/attendees/attendees.service.ts:980-1005 | the first registration for the event is rejected, whatever it was |
| `Attendance.AttendeesService.BlockRegistration` | src/modules/attendees/attendees.service.ts:1007-1044 | the first registration and the attendee of that event and e-mail are blocked |
| `Attendance.AttendeesService.CheckIn` | src/modules/attendees/attendees.service.ts:171-205 | checked-in and blocked attendees refused, otherwise checked in and marked attended |
| `Attendance.AttendeesService.Create` | src/modules/attendees/attendees.service.ts:343-434 | an attendee entered by an administrator, with or without an enrolled registree |
| `Attendance.AttendeesService.Update` | src/modules/attendees/attendees.service.ts:473-550 | given fields written to the attendee and to its details |
| `AttendanceEffects.RegisterRefusals` | src/modules/attendees/attendees.service.ts:51-120 | the refusals of a registration, exactly and in their order |
| `AttendanceEffects.Registers` | src/modules/attendees/attendees.service.ts:121-152 | what it stores: a new registree or a refreshed one, with one more pending entry |
| `AttendanceEffects.StrangersAreNotFound` | src/modules/attendees/attendees.service.ts:870-1044 | without the registree, or a registration of it for the event, nothing happens |
| `AttendanceEffects.Approves` | src/modules/attendees/attendees.service.ts:870-941 | the refusals of an approval in their order, and the one attendee it adds, field by field: the ticket's id, pass code and QR code, the registration's contact where given and otherwise the registree's, and details that say the same |
| `AttendanceEffects.ApprovedMayCheckIn` | src/modules/attendees/attendees.service.ts:171-205 | a check-in with the new pass code then succeeds on that attendee |
| `AttendanceEffects.Enters` | src/modules/attendees/attendees.service.ts:343-434 | the same for an attendee entered by an administrator |
| `AttendanceEffects.EnteredMayCheckIn` | src/modules/attendees/attendees.service.ts:171-205 | and its check-in, unless it was entered as checked in or blocked |
| `AttendanceEffects.ChecksIn` | src/modules/attendees/attendees.service.ts:171-205 | a check-in changes the status and the attended flag of one attendee |
| `AttendanceEffects.UnknownPassCode` | src/modules/attendees/attendees.service.ts:171-180 | an unknown pass code is not found |
| `AttendanceEffects.Rejects` | src/modules/attendees/attendees.service.ts:980-1005 | a rejection changes one status |
| `AttendanceEffects.Blocks` | src/modules/attendees/attendees.service.ts:1007-1044 | a block changes one registration's status and that of the first attendee of the event and e-mail |
| `AttendanceEffects.Updates` | src/modules/attendees/attendees.service.ts:473-550 | the refusals of an update in their order, and every field of the attendee and its details |
| `AttendanceEffects.UnknownAttendee` | src/modules/attendees/attendees.service.ts:473-485 | an unknown attendee is not found |
| `AttendanceTheorems.RunsKeepCopiesSound` | src/modules/attendees/attendees.service.ts:51-1044 | over every run, moves to other events included: ids, e-mails and pass codes unique, one attendee per event and e-mail, embedded details agree, checked in implies attended |
| `AttendanceTheorems.UpdateKeepsSound` | src/modules/attendees/schemas/attendee.schema.ts:140 | an update keeps that because the unique index refuses a second attendee for an event and e-mail |
| `AttendanceTheorems.ApproveClashesOnlyOnTicket` | src/modules/attendees/attendees.service.ts:897-941 | past its guards an approve can only be refused for a used id or pass code |
| `AttendanceTheorems.CreateClashesOnlyOnTicket` | src/modules/attendees/attendees.service.ts:346-434 | the same for create |
| `AttendanceTheorems.ApproveKeepsBackedIff` | src/modules/attendees/attendees.service.ts:897-941 | approving keeps an attendee behind every approved registration exactly unless the event is gone or the ticket is taken |
| `AttendanceTheorems.UpdateKeepsBackedIff` | src/modules/attendees/attendees.service.ts:473-550 | an update keeps it exactly unless it moves away an attendee that stands behind an approved registration for its old event |
| `AttendanceTheorems.StepKeepsBackedIff` | src/modules/attendees/attendees.service.ts:51-1044 | any step keeps it, except exactly when an approve strands a registration or an update abandons one |
| `AttendanceTheorems.RunsKeepApprovedBacked` | src/modules/attendees/attendees.service.ts:51-1044 | over every run with existing events, fresh tickets and no abandoning move every approved registration has an attendee of that registree, e-mail and event |
| `AttendanceTheorems.MovedAttendeeLeavesRegistration` | src/modules/attendees/attendees.service.ts:525-535 | the run that abandons one: register, approve, move to another event |
| `AttendanceTheorems.StepLeavesOpenIff` | src/modules/attendees/attendees.service.ts:51-1044 | after any step an attendee can be checked in if and only if an accepted update just gave it a status that is neither checked in nor blocked, or it could be before and the step neither checks it in nor blocks it nor is an accepted update that says so |
| `AttendanceTheorems.RunLeavesOpenIff` | src/modules/attendees/attendees.service.ts:51-1044 | and after any run if and only if the last step of either kind was of the first, or, without any, it could be at the start |
| `AttendanceTheorems.CheckInsBounded` | src/modules/attendees/attendees.service.ts:171-205 | so over every run it is checked in at most once more than administrators reset its status, and if it starts checked in or blocked at most as often |
| `AttendanceTheorems.ResetAttendeeIsCheckedInTwice` | src/modules/attendees/attendees.service.ts:171-205 | the run that reaches the bound: checked in, reset by an update, checked in again |
| `AttendanceTheorems.CheckedInAtMostOnce` | src/modules/attendees/attendees.service.ts:171-205 | so at most once, and not at all once blocked, unless an administrator changes its status |
| `AttendanceTheorems.StepKeepsBlockedIff` | src/modules/attendees/attendees.service.ts:51-1044 | any step leaves a blocked attendee blocked, except exactly an accepted update that gives it another status |
| `AttendanceTheorems.BlockedStaysBlocked` | src/modules/attendees/attendees.service.ts:1026-1036 | so over every run it stays blocked, unless an administrator changes its status |
| `AttendanceTheorems.StepKeepsBlockIff` | src/modules/attendees/attendees.service.ts:51-1044 | an e-mail is blocked by an attendee or by a registration of it: any step keeps it blocked, except exactly when a reject takes its only blocked registration and no attendee of it is blocked, or an accepted update gives its only blocked attendee another status and no registration of it is blocked |
| `AttendanceTheorems.BlockedEmailIsShutOut` | src/modules/attendees/attendees.service.ts:62-80 | over every run without such a step a blocked e-mail stays blocked, and its list of registrations gets no entry |
| `AttendanceTheorems.BlockedEmailGainsNoRegistration` | src/modules/attendees/attendees.service.ts:62-80 | in particular, while an attendee of it is blocked and no administrator gives that attendee another status, the e-mail's list of registrations gets no entry |
| `AttendanceTheorems.RejectLiftsBlock` | src/modules/attendees/attendees.service.ts:980-1005 | the run that lifts a block: register, block, reject, register again |
| `AttendanceTheorems.RunsKeepPendingOnce` | src/modules/attendees/attendees.service.ts:82-152 | over every run at most one pending registration per registree and event |
| `AttendanceTheorems.StepKeepsSingleOpenIff` | src/modules/attendees/attendees.service.ts:879-1018 | one registration per event that is not rejected: every step keeps it exactly unless approve or block acts on a superseded one |
| `AttendanceTheorems.SecondRegistrationIsOvertaken` | src/modules/attendees/attendees.service.ts:879-911 | the run that breaks it |
| `AttendanceTheorems.RunsKeepFiled` | src/modules/attendees/attendees.service.ts:51-1044 | over every run each attendee is filed under the e-mail of its registree, and only the first registration for an event ever leaves the pending state |
| `Reminders.EventReminderScheduler.HandleScheduledReminders` | src/modules/event-management/event-reminder-scheduler.service.ts:20-144 | a sweep marks exactly the due schedules of all events and sends their reminders in order |
| `Reminders.EventReminderScheduler.SweepEvent` | src/modules/event-management/event-reminder-scheduler.service.ts:41-140 | the inner loop over one event's schedules |
| `Reminders.EventReminderScheduler.ShouldTrigger` | src/modules/event-management/event-reminder-scheduler.service.ts:46-82 | before, after or at an exact date, missing offsets counting as zero and a missing date never |
| `Reminders.EventReminderScheduler.CollectTargets` | src/modules/event-management/event-reminder-scheduler.service.ts:86-113 | the insertion-ordered set of recipient ids |
| `ReminderEffects.DueIff` | src/modules/event-management/event-reminder-scheduler.service.ts:40-82 | when a schedule is due, in the stored offsets and dates |
| `ReminderEffects.RecipientsAre` | src/modules/event-management/event-reminder-scheduler.service.ts:86-113 | who is on the list, in the stored registrations and statuses |
| `ReminderEffects.SweepMarks` | src/modules/event-management/event-reminder-scheduler.service.ts:129-140 | a sweep marks the due schedules and changes nothing else |
| `ReminderEffects.SelectedIff` | src/modules/event-management/event-reminder-scheduler.service.ts:26-30 | the query asks for an active schedule and an unprocessed one, which need not be the same |
| `ReminderEffects.SweepsInOrder` | src/modules/event-management/event-reminder-scheduler.service.ts:20-144 | reminders go out sweep by sweep |
| `ReminderEffects.EventsInOrder` | src/modules/event-management/event-reminder-scheduler.service.ts:40-144 | reminders go out event by event |
| `ReminderEffects.SchedulesInOrder` | src/modules/event-management/event-reminder-scheduler.service.ts:45-140 | within an event schedule by schedule |
| `ReminderEffects.OneScheduleWrites` | src/modules/event-management/event-reminder-scheduler.service.ts:115-140 | a due schedule sends one reminder per recipient, in the order of the list, and any other none |
| `ReminderEffects.RegistreesComeFirst` | src/modules/event-management/event-reminder-scheduler.service.ts:86-113 | within a schedule to the registrees in their order and then to the attendees in theirs |
| `Reminders.SelectionMissesNothing` | src/modules/event-management/event-reminder-scheduler.service.ts:26-30 | the query skips no event with a due schedule |
| `Reminders.TargetsExactly` | src/modules/event-management/event-reminder-scheduler.service.ts:86-113 | the recipients are distinct and exactly the union of matching registrees and attendees not blocked or rejected |
| `Reminders.FirstFromIsFirst` | src/modules/event-management/event-reminder-scheduler.service.ts:53-81 | what the first sweep at or after an instant is |
| `Reminders.FiresAtFirstSweep` | src/modules/event-management/event-reminder-scheduler.service.ts:40-144 | in every run a waiting schedule of an active event is due at a sweep exactly if that is the first at or after its target |
| `Reminders.RunMarksExactlyFired` | src/modules/event-management/event-reminder-scheduler.service.ts:129-140 | after a run exactly the schedules whose target some sweep reached are marked; all others are untouched |
| `Reminders.RunSendsExactlyOwed` | src/modules/event-management/event-reminder-scheduler.service.ts:40-144 | counted over a whole run, each reminder is sent once per schedule that has its recipient on the list at the sweep where it fires, and not otherwise |
| `ReminderTheorems.RemindedIff` | src/modules/event-management/event-reminder-scheduler.service.ts:86-113 | a reminder reaches a registree if and only if it is let in as an attendee, or registered for the event and approved for any event |
| `ReminderTheorems.BlockedIsRemindedIff` | src/modules/event-management/event-reminder-scheduler.service.ts:86-113 | someone blocked for the event is reminded of it if and only if let in regardless or approved for another event |
| `ReminderTheorems.ReachableBlockedIsRemindedIff` | src/modules/event-management/event-reminder-scheduler.service.ts:86-113 | in every state that runs of the attendance operations reach, someone blocked for the event as registree, and as attendee if there is one, is reminded of it if and only if approved for another event |
| `ReminderTheorems.BlockedRunIsReminded` | src/modules/event-management/event-reminder-scheduler.service.ts:88-94 | the run that gets there: register for two events, be approved for one and blocked for the other |
| `Nominations.NominationsService.FindOrCreateRegistree` | src/modules/nominations/nominations.service.ts:525-570 | the registree of an e-mail, created or refreshed, with the tag |
| `Nominations.NominationsService.CountNominees` | src/modules/nominations/nominations.service.ts:59-69 | the entries of a nominator over live nominations |
| `Nominations.NominationsService.Create` | src/modules/nominations/nominations.service.ts:40-107 | nominator first, then the quota, then one registree and entry per nominee, then the nomination |
| `Nominations.NominationsService.UpdateStatus` | src/modules/nominations/nominations.service.ts:477-506 | the status of a live nomination |
| `Nominations.NominationsService.Remove` | src/modules/nominations/nominations.service.ts:511-519 | soft delete of a live nomination |
| `NominationEffects.Enrols` | src/modules/nominations/nominations.service.ts:525-570 | every stored field of a registree found or created |
| `NominationEffects.UsedAddsUp` | src/modules/nominations/nominations.service.ts:59-69 | a nominator has used up the entries of its live nominations |
| `NominationEffects.Creates` | src/modules/nominations/nominations.service.ts:40-107 | the nominator under the tag nominator, the quota of ten, then the nominees in order under the tag nominee, and the pending nomination |
| `NominationEffects.SetsStatus` | src/modules/nominations/nominations.service.ts:477-506 | the status given is the one stored; nothing else changes |
| `NominationEffects.Removes` | src/modules/nominations/nominations.service.ts:511-519 | a removal marks one nomination; nothing else changes |
| `NominationEffects.NoSuchNomination` | src/modules/nominations/nominations.service.ts:477-519 | deleted or unknown nominations are not found |
| `Nominations.EnrolExtends` | src/modules/nominations/nominations.service.ts:525-570 | finding or creating keeps e-mails and ids unique and tags duplicate-free, only appends tags, and returns the one registree with that e-mail |
| `Nominations.EnrolTags` | src/modules/nominations/nominations.service.ts:552-567 | that registree carries the tag |
| `Nominations.EnrolAllNamesInOrder` | src/modules/nominations/nominations.service.ts:79-99 | the loop yields one entry per nominee, in order, naming that nominee's registree |
| `Nominations.CreateCharges` | src/modules/nominations/nominations.service.ts:59-107 | a create goes through exactly if the total stays within ten, and then charges its nominator and nobody else |
| `Nominations.RemoveRefunds` | src/modules/nominations/nominations.service.ts:511-519 | a removal gives back exactly the entries of the nomination it removes |
| `Nominations.SetStatusCharges` | src/modules/nominations/nominations.service.ts:477-506 | a status change charges nothing |
| `Nominations.RunsKeepQuota` | src/modules/nominations/nominations.service.ts:40-570 | over every run no nominator has more than ten entries over live nominations; registrees stay unique, tags duplicate-free and growing |
| `Nominations.EntriesNameForever` | src/modules/nominations/nominations.service.ts:79-107 | after any further run the entries of a stored nomination still name, in order, the one registree of each nominee's e-mail |
| `StorageKeys.DecodeUndoesEncode` | src/core/files/utils/generate-file-key.ts:25-26 | percent-decoding (section 2.1 of RFC 3986, section 19.2.6 of ECMA-262) undoes the encoding of every string of scalar values |
| `StorageKeys.EncodeIsInjective` | src/core/files/utils/generate-file-key.ts:26 | different segments have different encodings |
| `StorageKeys.EncodedHasNoSlash` | src/core/files/utils/generate-file-key.ts:26-27 | an encoded segment contains no separator |
| `StorageKeys.KeyRoundTrip` | src/core/files/utils/generate-file-key.ts:14-28 | splitting a key at the slashes and decoding returns the six lower-cased segments |
| `KeyTexts.KeySpells` | src/core/files/utils/generate-file-key.ts:14-28 | the six segments are environment, module, entity type, entity id, variant and file name, in this order |
| `KeyTexts.StayingCharacters` | src/core/files/utils/generate-file-key.ts:26 | only letters, digits and nine marks stay as they are |
| `KeyTexts.EscapedCharacters` | src/core/files/utils/generate-file-key.ts:26 | every other character becomes escapes of two capital hexadecimal digits each |
| `StorageKeys.KeysAreInjective` | src/core/files/utils/generate-file-key.ts:14-28 | two keys coincide exactly when all six lower-cased segments do |
| `StorageKeys.SharedKeyIff` | src/core/files/services/variants.service.ts:61-80 | keys of two images of a folder coincide exactly for the same variant of the same lower-cased name |
| `StorageKeys.KeysOfOneImageDiffer` | src/core/files/services/variants.service.ts:56-80 | an image's original and variant keys are pairwise distinct |
| `KeyTexts.ImageKeys` | src/core/files/services/variants.service.ts:49-80 | the keys of an image: its own under original, and thumbnail, small, medium and large under the new extension |
| `KeyTexts.ExtensionIsReplaced` | src/core/files/services/variants.service.ts:54-55 | the new extension replaces the old one, whatever dots come before |
| `KeyTexts.OtherNamesAreKept` | src/core/files/services/variants.service.ts:54-55 | a name without a dot, or ending in one, is kept |
| `StorageKeys.ImagesShareAKeyIff` | src/core/files/services/variants.service.ts:61-80 | two images of a folder, of any names, share a key if and only if their names or the names of their variants agree lower-cased |
| `StorageKeys.StemsDecideSharing` | src/core/files/services/variants.service.ts:61-80 | for ASCII names with an extension: if and only if they agree before the extension, letter case aside |
| `StorageKeys.GenerateVariants` | src/core/files/services/variants.service.ts:49-102 | exactly the fulfilled outcomes are collected, each under its variant with its own key |
| `Pagination.TotalPagesIsLeast` | src/common/utils/pagination.util.ts:12 | the page count is the least number of pages that holds all items |
| `Pagination.PageHoldsItemsIff` | src/common/utils/pagination.util.ts:12-21 | a page is non-empty exactly if it is one of the counted pages |
| `Pagination.ResponseTells` | src/common/utils/pagination.util.ts:6-27 | a response tells of a next page if and only if that would hold something, and of a previous one on every page but the first |
| `Pagination.ItemIsOnItsPage` | src/core/sidebar-menu/sidebar-menu.service.ts:126-168 | every item is on the page, and at the place, its position gives |
| `Pagination.PageIsFullOrLast` | src/core/sidebar-menu/sidebar-menu.service.ts:126-168 | a page before the last is full and the last takes the rest |
| `Pagination.FollowingPagesPartitions` | src/common/utils/pagination.util.ts:6-27 | following the next-page flag from page 1 visits max(1, pages) pages whose concatenation is the list |

## Left out

- Controllers, guards, DTO validation, logging, events emitted to listeners, queue jobs and returned payloads.
- MongoDB, Mongoose, the cache manager, Bull and dayjs beyond their abstract effect; ties in a sort by order keep the stored order.
- Time zones: instants and calendar fields are UTC, offsets are whole numbers, and dates are never unparsable or out of the range of the Date type, except where the webhook refuses them.
- The interleaving of two calls of one service, apart from the steps of the engagement sync; bufferEngagement's read and write of the cached counter count as one step.
- Enriching parameters, template substitution, and what a path resolves to (a parameter of the recipient list).
- Object.prototype names in the two Brevo tables, and message ids shared by several logs beyond the first match.
- ObjectIds inside parameter trees, and graphs of objects that share or contain one another: the in-place collapse is proved for trees.
- Non-ASCII lower-casing of menu groups; lone surrogates in storage keys (the encoder throws for them).
- Blog content, tags, images and comments; menu icons and timestamps; role flags other than name, key and permissions.
- Editing or deleting registrees and deleting attendees; Attendance and Nominations each model the fields of a registree that they touch.
- The name of an event or template, the counter of processed schedules, and faults while recipients are fetched.
- Search queries, aggregation pipelines, analytics, seeders, scripts, feature flags, contacts, sponsors, websites and reports.
