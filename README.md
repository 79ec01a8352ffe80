# Azure table-storage identity stores, modelled in Dafny

This project models the two stores of Korzh.Identity.AzureStorage, which back
the ASP.NET Core Identity user and role contracts with an Azure table.

- **The user store** (`AzureUserStore`) keeps every user in the "Users" table,
  in the partition "Users", under a row key that is the user's id. Each user
  carries an e-mail, a normalised e-mail (which also serves as the normalised
  user name), an e-mail-confirmed flag, a password hash, and `RolesStr`: all
  its role names in one comma-joined string. Creating or updating a user first
  normalises its keys: a null row key gets a fresh GUID string and the
  partition key is forced to "Users". Then the store writes the user with
  insert-or-merge. Role changes read `RolesStr` into a hash set, add or remove
  one name, and join the set back with commas. Role membership is tested by
  substring containment on `RolesStr`.
- **The role store** (`AzureRoleStore`) stores nothing. A role is a string that
  is its own id, name and normalised name. Create, update and delete always
  succeed.

Files and modules:

- `wrappers.dfy` (`Wrappers`): `Option`, which stands for a C# reference that
  may be null, and `Result`, a value or a thrown exception.
- `identity.dfy` (`Identity`): exceptions as `Fault(typeName, message)`,
  `IdentityResult`, how `Task` methods end (`Completion`), and the mapping from
  a caught exception to a failed result.
- `text.dfy` (`Text`): the .NET `String.Split(char)`, `String.Join` and ordinal
  `IndexOf`/`Contains`, with the split/join round trips.
- `enumerable.dfy` (`Enumerable`): `EnumarableExtensions.ToHashSet`, and
  enumerating a hash set as any duplicate-free order of its elements.
- `rolelist.dfy` (`RoleList`): the role set read from `RolesStr`, and what
  joining an enumerated set back into `RolesStr` does.
- `userstore.dfy` (`UserStore`): the `User` class, whose fields the operations
  update in place, and the `AzureUserStore` class, which holds the table as a
  map from (partition key, row key) to user snapshots.
- `rolestore.dfy` (`RoleStore`): the role store as pure functions.

Environment inputs are parameters:

- The outcome of each storage write and delete is a parameter `fault: Option<Fault>`. `None`
  means the call succeeds; `Some(f)` means it throws `f`.
- The value of `Guid.NewGuid().ToString()` is a parameter `guid`.
- The order in which a `HashSet` or a table scan lists its elements is chosen
  nondeterministically. Every contract holds for every such order.

Consequences of the code that the model makes explicit:

- `AddToRoleAsync` (src/AzureUserStore.cs:122-124) never drops empty pieces.
  `"".Split(',')` is `[""]`, so adding a role to the empty role string yields a
  list with an empty entry beside the new role. The empty role string is what
  `RemoveFromRoleAsync` (src/AzureUserStore.cs:149-151) leaves after removing
  the last role. See `AddToEmptyRoleStringKeepsEmptyEntry`.
- `RemoveFromRoleAsync` on a user whose `RolesStr` is null writes `""`, not
  null (src/AzureUserStore.cs:149-151).
- A role name that contains a comma is stored as several roles. `AddToRole`
  states the general law: the new role set is the old set plus the pieces of
  the name.
- Such a name can also store a role twice. The hash set holds the whole name
  beside the old roles, so a user holding "a" who is added to "a,b" gets
  "a,a,b" or "a,b,a". See `AddCommaNameRepeatsRole`.

## Model

| member | source | states |
|---|---|---|
| `Identity.FailedWith` | src/AzureUserStore.cs:75-79 | A caught exception becomes a failed result whose code is the exception's type name and whose description is its message |
| `Identity.IdentityResultOf` | src/AzureUserStore.cs:106-115 | Create, update and delete report `Success` exactly when the storage call did not throw, and otherwise the failure built from the exception |
| `Identity.CompletionOf` | src/AzureUserStore.cs:101-104 | A setter completes exactly when the storage call did not throw, and otherwise the same exception escapes |
| `Text.Split` | src/AzureUserStore.cs:131 | `Split(',')` always yields at least one piece, and no piece contains the separator |
| `Text.JoinSplit` | src/AzureUserStore.cs:122-124 | Joining the pieces of any string's split gives the string back |
| `Text.Join` | src/AzureUserStore.cs:124 | `String.Join(",", …)`: no names join to `""`, and splitting the join of at least one comma-free name gives the names back, so `Split` undoes `Join` (`JoinSplit` states the other direction) |
| `Text.SplitConcat` | src/AzureUserStore.cs:124 | Splitting `a + "," + b` is the split of `a` followed by the split of `b` |
| `Text.IndexOf` | src/AzureUserStore.cs:139 | The result is the first index where the role name occurs in the role string, or -1 exactly when it occurs nowhere |
| `Text.Contains` | src/AzureUserStore.cs:144 | Ordinal `String.Contains`: true exactly when the name occurs somewhere in the string, and always true for the empty name |
| `Text.SplitPiecesOccur` | src/AzureUserStore.cs:144 | Every piece of a split occurs in the split string as a substring |
| `Enumerable.ToHashSet` | src/AzureUserStore.cs:222-233 | A null source throws `ArgumentNullException`. Otherwise the set holds exactly the source's elements, no more of them than the source's length, and exactly that many when the source has no duplicates |
| `Enumerable.EnumerationLength` | src/AzureUserStore.cs:124 | Enumerating a hash set lists as many names as the set holds, so each name exactly once |
| `RoleList.RoleSet` | src/AzureUserStore.cs:122 | The set read from `RolesStr` is empty for null, `{""}` for `""`, and otherwise exactly the comma-split pieces, none containing a comma |
| `RoleList.SplitJoinPieces` | src/AzureUserStore.cs:122-124 | The pieces read back from a joined list are exactly the pieces of the joined strings |
| `RoleList.JoinedEnumeration` | src/AzureUserStore.cs:124 | Joining an enumeration of a non-empty set of comma-free names and reading it back gives the same enumeration and the same set |
| `RoleList.RolesAfterAdd` | src/AzureUserStore.cs:122-124 | After adding a role, the role set read back is the old set plus the role name's pieces. For a comma-free name it is the old set plus the name, listed once each in the enumeration order |
| `RoleList.RolesAfterRemove` | src/AzureUserStore.cs:149-151 | After removing a role, the role set is the old set minus the name when something remains. When nothing remains, the joined string is `""` |
| `RoleList.SplitTwoRoles` | src/AzureUserStore.cs:131 | Two comma-free names joined by a comma split back into exactly those two names |
| `RoleList.RemoveSecondOfTwoRoles` | src/AzureUserStore.cs:149-151 | Removing the second of two distinct roles leaves exactly the first as the role string (`"Admin,Editor"` without "Editor" is `"Admin"`), whatever the hash-set order |
| `RoleList.AddCommaNameRepeatsRole` | src/AzureUserStore.cs:122-124 | Adding "first,second" to a user holding only `first` writes three pieces, `first` twice and `second` once, in every hash-set order |
| `RoleList.AddToEmptyRoleStringKeepsEmptyEntry` | src/AzureUserStore.cs:122-124 | Adding a role to `""` yields a two-entry list, one entry of which is empty |
| `UserStore.NormalizeKeys` | src/AzureUserStore.cs:61-67 | The partition key becomes "Users". A null row key becomes the fresh id and a present one is kept. The entity then has a key, and no other field changes |
| `UserStore.NormalizeKeysIdempotent` | src/AzureUserStore.cs:61-67 | Normalising twice equals normalising once, whatever id the second call is offered |
| `UserStore.AfterInsertOrMerge` | src/AzureUserStore.cs:72 | A successful insert-or-merge stores the user under its key and leaves every other entry alone. A failed one changes nothing |
| `UserStore.AfterDelete` | src/AzureUserStore.cs:85 | A successful delete removes exactly the user's key and leaves every other entry alone. A failed one changes nothing |
| `UserStore.User.constructor` | src/AzureUserStore.cs:14 | `new TUser()`, which the `new()` constraint allows. A `TUser` that implements the properties of `IAzureStorageIdentity` as auto-properties keeps C#'s defaults, so every reference field is null and the confirmed flag is false |
| `UserStore.AzureUserStore.constructor` | src/AzureUserStore.cs:25-28 | The store works on the "Users" table as it stands, with every entry stored under its own key |
| `UserStore.AzureUserStore.InsertOrMergeEntity` | src/AzureUserStore.cs:72 | The storage write: the table becomes `AfterInsertOrMerge` of the old table, and the exception, if any, is passed on |
| `UserStore.AzureUserStore.DeleteEntity` | src/AzureUserStore.cs:85 | The storage delete: the table becomes `AfterDelete` of the old table, and the exception, if any, is passed on |
| `UserStore.KeyedEntitiesCount` | src/AzureUserStore.cs:30-32 | In a table whose entities carry the keys they are stored under, there are as many distinct entities as keys |
| `UserStore.AzureUserStore.GetAllUsers` | src/AzureUserStore.cs:20-32 | Lists every stored entity exactly once, one per key of the table |
| `UserStore.AzureUserStore.ListEntitiesByFilter` | src/AzureUserStore.cs:49-52 | Lists, without duplicates, exactly the stored entities with the given partition key and normalised e-mail |
| `UserStore.AzureUserStore.FindById` | src/AzureUserStore.cs:44-46 | Finds a user exactly when an entity is stored under ("Users", id). That entity has partition key "Users" and row key id |
| `UserStore.AzureUserStore.FindByName` | src/AzureUserStore.cs:48-55 | Returns a stored user of the partition whose normalised e-mail is the given name. Returns null only when no such user exists |
| `UserStore.AzureUserStore.NormalizeUserBeforeInsertOrUpdate` | src/AzureUserStore.cs:61-67 | The user object afterwards is `NormalizeKeys` of the user before |
| `UserStore.AzureUserStore.Create` | src/AzureUserStore.cs:69-81 | Normalises the keys, so `GetUserId` gives the kept or fresh id. Writes the user, and on success `FindById` of its id returns it. A storage exception becomes `Failed(type name, message)` and leaves the table unchanged |
| `UserStore.AzureUserStore.Delete` | src/AzureUserStore.cs:83-94 | Removes the user's entry without normalising keys. On success a user of the partition is no longer found by id. A storage exception becomes a failed result |
| `UserStore.AzureUserStore.SetNormalizedUserName` | src/AzureUserStore.cs:96-99 | Changes only the normalised e-mail, without normalising keys. `GetNormalizedUserName` (lines 57-59) then returns the value written. Then writes the user, letting any exception escape |
| `UserStore.AzureUserStore.SetUserName` | src/AzureUserStore.cs:101-104 | Changes only the e-mail, without normalising keys. `GetUserName` (lines 40-42) and `GetEmail` then return the value written. Then writes the user |
| `UserStore.AzureUserStore.Update` | src/AzureUserStore.cs:106-115 | Same as `Create`: normalise, write, and translate a storage exception into a failed result |
| `UserStore.AzureUserStore.AddToRole` | src/AzureUserStore.cs:118-128 | A null or empty name throws `ArgumentException` and changes neither the user nor the table. Otherwise `RolesStr` becomes the comma join of some enumeration of the old set plus the whole name, so the role set becomes the old set plus the name's pieces (each role listed once for a comma-free name), and re-adding a held role keeps the set. Only `RolesStr` and the keys change, and then the user is written |
| `UserStore.AzureUserStore.GetRoles` | src/AzureUserStore.cs:130-134 | Returns `[]` for null and `[""]` for `""`. Otherwise returns comma-free pieces that join back to `RolesStr`, holding exactly the names of the role set |
| `UserStore.AzureUserStore.GetUsersInRole` | src/AzureUserStore.cs:137-141 | The table scan itself never fails in the model. The filter throws exactly when some user of the partition has a null `RolesStr`, or the name is null and the partition has any user. The exception is `NullReferenceException` whenever the name is present, and `ArgumentNullException` when every user of the partition has a role string. Otherwise lists each user of the partition whose `RolesStr` contains the name as a substring, exactly once |
| `UserStore.AzureUserStore.IsInRole` | src/AzureUserStore.cs:143-145 | False when `RolesStr` is null or empty, even for a null name. Otherwise a null name throws `ArgumentNullException`, and a present name gives true exactly when it occurs in `RolesStr` as a substring |
| `UserStore.AzureUserStore.ExactRoleIsInRole` | src/AzureUserStore.cs:143-145 | Every non-empty name in the user's role set is reported as held |
| `UserStore.AzureUserStore.SubstringRoleIsInRole` | src/AzureUserStore.cs:143-145 | A user whose only role is "SuperAdmin" is reported in role "Admin", which is not in its role set |
| `UserStore.AzureUserStore.GetRolesOfTwoRoles` | src/AzureUserStore.cs:130-134 | `"Admin,Editor"` is listed as `["Admin", "Editor"]` |
| `UserStore.AzureUserStore.RemoveFromRole` | src/AzureUserStore.cs:147-156 | A null or empty name changes nothing and writes nothing. Otherwise `RolesStr` becomes the comma join of some enumeration of the old set minus the name, so the role set becomes that difference; removing an absent role keeps the set but still writes. Removing the only role leaves `""`. Only `RolesStr` and the keys change |
| `UserStore.AzureUserStore.SetPasswordHash` | src/AzureUserStore.cs:163-176 | Changes only the hash and the keys, then writes the user. `GetPasswordHash` then returns the hash written, and `HasPassword` is true exactly when that hash is non-null and non-empty |
| `UserStore.AzureUserStore.FindByEmail` | src/AzureUserStore.cs:179-186 | Returns a stored user of the partition with the given normalised e-mail. Returns null only when no such user exists |
| `UserStore.AzureUserStore.SetEmail` | src/AzureUserStore.cs:188-196 | Changes only the e-mail and the keys. `GetEmail` then returns the value written, and the user is written |
| `UserStore.AzureUserStore.SetEmailConfirmed` | src/AzureUserStore.cs:198-206 | Changes only the flag and the keys. `GetEmailConfirmed` then returns the value written, and the user is written |
| `UserStore.AzureUserStore.SetNormalizedEmail` | src/AzureUserStore.cs:209-218 | Changes only the normalised e-mail and the keys. `GetNormalizedEmail` then returns the value written, and the user is written |
| `RoleStore.Create` | src/AzureRoleStore.cs:10-12 | Succeeds for every role |
| `RoleStore.Delete` | src/AzureRoleStore.cs:14-16 | Succeeds for every role |
| `RoleStore.Update` | src/AzureRoleStore.cs:49-51 | Succeeds for every role |
| `RoleStore.FindById` | src/AzureRoleStore.cs:21-23 | The role found is the id itself |
| `RoleStore.FindByName` | src/AzureRoleStore.cs:25-27 | The role found is the normalised name itself |
| `RoleStore.GetNormalizedRoleName` | src/AzureRoleStore.cs:29-31 | A role is its own normalised name |
| `RoleStore.GetRoleId` | src/AzureRoleStore.cs:33-35 | A role is its own id |
| `RoleStore.GetRoleName` | src/AzureRoleStore.cs:37-39 | A role is its own name |
| `RoleStore.SetNormalizedRoleName` | src/AzureRoleStore.cs:41-43 | A no-op: afterwards every getter still returns the original role |
| `RoleStore.SetRoleName` | src/AzureRoleStore.cs:45-47 | A no-op: afterwards every getter still returns the original role |
| `RoleStore.LookupsInvertGetters` | src/AzureRoleStore.cs:21-39 | Looking a role up by its reported id or normalised name gives the role back, and id, name and normalised name coincide |

## Left out

- Remote I/O: `TableStorageService` and the Azure SDK are not part of this model.
  - The table is a map. Insert-or-merge replaces the stored snapshot.
  - Azure's merge keeps a stored property when the written value is null. The model does not capture that.
  - ETags, timestamps, the network and retries are not modelled.
  - Whether a write or delete fails is the `fault` parameter. Writing or deleting an entity with a null key must be given a fault.
  - Whether deleting an absent entity fails is left to that parameter.
- `async`/`Task`/`CancellationToken`: every operation is synchronous. Concurrent role changes to the same user, which can lose updates, are not modelled.
- `Guid.NewGuid()`: the fresh id is a parameter. Its uniqueness is not modelled.
- `ILookupNormalizer` is stored but never used, so it is left out.
- `Dispose` does nothing in either store, so it is left out.
- `src/AzureIdentityExtensions.cs` is dependency-injection registration done by reflection. It is not part of this model.
- Culture-sensitive comparison: `IndexOf(string)` in `GetUsersInRoleAsync` compares by the current culture. The model uses ordinal substring search, as `Contains` does.
- Storage reads never fail in the model. These are `GetEntityByKeysAsync`, `ListEntitiesByFilterAsync` and `GetEntitiesByFilterAsync`.
  - In the source, their exceptions escape `FindByIdAsync`, `FindByNameAsync`, `FindByEmailAsync`, `GetAllUsersAsync`, `Users` and `GetUsersInRoleAsync` (src/AzureUserStore.cs:31, 45, 49, 138, 180).
  - So the model's `GetUsersInRole` fails only on the role-string and role-name conditions of its contract.
- Null lookup arguments are not modelled. The storage service receives them, and its answer is not part of this model. This covers:
  - a null id passed to `FindByIdAsync`;
  - a null normalised name passed to `FindByNameAsync`;
  - a null e-mail passed to `FindByEmailAsync`.
- A null `user` is not modelled; the model's `User` is always a real object.
  - In `CreateAsync` and `UpdateAsync` (src/AzureUserStore.cs:71, 108), normalising a null user's keys throws `NullReferenceException`. The `catch` turns it into `Failed("NullReferenceException", …)`.
  - In `DeleteAsync` (src/AzureUserStore.cs:85), the exception raised by the storage service for a null entity likewise becomes a failed result.
  - In every other operation, the exception escapes.
- Exception messages:
  - .NET appends the parameter name to the message of `ArgumentException` ("roleName") and of `ArgumentNullException` ("source" from `ToHashSet`, "value" from `String.Contains` and `String.IndexOf`). The model's messages omit it: they are "Empty rolename" and "Value cannot be null.".
  - The message of `NullReferenceException` is the usual .NET text.
- `UserStore.AzureUserStore.GetUsersInRole`: with a null name, a partition can hold both users without a role string and users with one. The scan then throws at whichever it reaches first, which depends on the service's order. The contract says only that one of the two exceptions is thrown.
- The order of the users returned by the lookups and by `GetUsersInRoleAsync` is the storage service's. The model leaves it unspecified.
- `IdentityResult` is reduced to `Success | Failed(code, description)`, with one error.
- The getters `GetUserIdAsync`, `GetUserNameAsync`, `GetNormalizedUserNameAsync`, `GetPasswordHashAsync`, `HasPasswordAsync`, `GetEmailAsync`, `GetEmailConfirmedAsync` and `GetNormalizedEmailAsync` only read a field. The model has them as functions without contracts of their own. Their meaning is stated through the setters' and `Create`'s contracts.
- `RoleStore.SetNormalizedRoleName`, `RoleStore.SetRoleName`: the C# methods return `Task.FromResult(0)`. The model's functions instead return the role as it stands afterwards, which is the same string.
