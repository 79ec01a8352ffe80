/**
  The user store: users kept in the "Users" table, keyed by partition key and
  row key, with the role list, e-mail fields and password hash of each user.

  The table is a map from (partition key, row key) to the stored snapshot of a
  user. What a remote storage write or delete does is a parameter of each
  operation that calls it: `fault` is `None` when the call succeeds and `Some(f)`
  when it throws `f`. Storage reads always succeed. The fresh identifier `Guid.NewGuid().ToString()` is a parameter `guid`.
*/
module UserStore {

  import opened Wrappers
  import opened Identity
  import opened Text
  import opened Enumerable
  import opened RoleList

  /** The one partition every user is written to. */
  const UsersPartition: string := "Users"

  /** The stored fields of a user: its two keys and the fields of `IAzureStorageIdentity`. */
  datatype UserSnapshot = UserSnapshot(
    partitionKey: Option<string>,
    rowKey: Option<string>,
    email: Option<string>,
    normalizedEmail: Option<string>,
    emailConfirmed: bool,
    rolesStr: Option<string>,
    passwordHash: Option<string>)
  {
    /** The table key of the entity, when neither key is null. */
    function Key(): (k: Option<(string, string)>)
      ensures k.Some? <==> partitionKey.Some? && rowKey.Some?
      ensures k.Some? ==> k.value.0 == partitionKey.value && k.value.1 == rowKey.value
    {
      if partitionKey.Some? && rowKey.Some? then Some((partitionKey.value, rowKey.value)) else None
    }
  }

  /**
    The keys a user is written with: a null row key is replaced by the fresh
    identifier, a present one is kept, and the partition key is forced to "Users".
    No other field changes.
  */
  function NormalizeKeys(u: UserSnapshot, guid: string): (r: UserSnapshot)
    ensures r.partitionKey == Some(UsersPartition)
    ensures u.rowKey.Some? ==> r.rowKey == u.rowKey
    ensures u.rowKey.None? ==> r.rowKey == Some(guid)
    ensures r.Key() == Some((UsersPartition, r.rowKey.value))
    ensures r.(partitionKey := u.partitionKey, rowKey := u.rowKey) == u
  {
    u.(rowKey := if u.rowKey.None? then Some(guid) else u.rowKey, partitionKey := Some(UsersPartition))
  }

  /** Normalising an already normalised user changes nothing, whatever fresh identifier is offered. */
  lemma NormalizeKeysIdempotent(u: UserSnapshot, guid: string, guid': string)
    ensures NormalizeKeys(NormalizeKeys(u, guid), guid') == NormalizeKeys(u, guid)
  {
  }

  /** The table after `InsertOrMergeEntityAsync(u)`: unchanged when the call throws, otherwise `u` stored under its key. */
  function AfterInsertOrMerge(t: map<(string, string), UserSnapshot>, u: UserSnapshot, fault: Option<Fault>)
    : (r: map<(string, string), UserSnapshot>)
    requires fault.None? ==> u.Key().Some?
    ensures fault.Some? ==> r == t
    ensures fault.None? ==> r.Keys == t.Keys + {u.Key().value} && r[u.Key().value] == u
    ensures forall k | k in t && (fault.Some? || k != u.Key().value) :: k in r && r[k] == t[k]
  {
    if fault.Some? then t else t[u.Key().value := u]
  }

  /** The table after `DeleteEntityAsync(u)`: unchanged when the call throws, otherwise without `u`'s key. */
  function AfterDelete(t: map<(string, string), UserSnapshot>, u: UserSnapshot, fault: Option<Fault>)
    : (r: map<(string, string), UserSnapshot>)
    requires fault.None? ==> u.Key().Some?
    ensures fault.Some? ==> r == t
    ensures fault.None? ==> r.Keys == t.Keys - {u.Key().value}
    ensures forall k | k in r :: k in t && r[k] == t[k]
  {
    if fault.Some? then t else t - {u.Key().value}
  }

  /** In a table whose entities carry the keys they are stored under, no entity is stored twice. */
  lemma {:induction false} KeyedEntitiesCount(t: map<(string, string), UserSnapshot>)
    requires forall k | k in t :: t[k].Key() == Some(k)
    ensures |t.Values| == |t|
    decreases |t|
  {
    if t != map[] {
      var k :| k in t;
      var rest := t - {k};
      KeyedEntitiesCount(rest);
      assert t.Keys == rest.Keys + {k};
      assert t.Values == rest.Values + {t[k]};
      assert t[k] !in rest.Values;
    }
  }

  /** A user object, whose fields the store's operations update in place. */
  class User {
    var partitionKey: Option<string>
    var rowKey: Option<string>
    var email: Option<string>
    var normalizedEmail: Option<string>
    var emailConfirmed: bool
    var rolesStr: Option<string>
    var passwordHash: Option<string>

    /** `new TUser()`: every reference field null, the flag false. */
    constructor ()
      ensures Snapshot() == UserSnapshot(None, None, None, None, false, None, None)
    {
      partitionKey, rowKey, email, normalizedEmail := None, None, None, None;
      emailConfirmed, rolesStr, passwordHash := false, None, None;
    }

    /** The values of the fields, as the table would store them. */
    function Snapshot(): UserSnapshot
      reads this
    {
      UserSnapshot(partitionKey, rowKey, email, normalizedEmail, emailConfirmed, rolesStr, passwordHash)
    }
  }

  /** `AzureUserStore`: the user, password, e-mail and role-membership store over the "Users" table. */
  class AzureUserStore {
    /** The "Users" table as the storage service holds it. */
    var table: map<(string, string), UserSnapshot>

    /** Every stored entity carries the key it is stored under. */
    ghost predicate Valid()
      reads this
    {
      forall k | k in table :: table[k].Key() == Some(k)
    }

    /** A store over the table as it currently stands. */
    constructor (initial: map<(string, string), UserSnapshot>)
      requires forall k | k in initial :: initial[k].Key() == Some(k)
      ensures Valid() && table == initial
    {
      table := initial;
    }

    // ---------------- the storage service ----------------

    /** `userTable.InsertOrMergeEntityAsync(u)`; an entity with a null key is always refused. */
    method InsertOrMergeEntity(u: UserSnapshot, fault: Option<Fault>) returns (thrown: Option<Fault>)
      requires Valid()
      requires u.Key().None? ==> fault.Some?
      modifies this
      ensures Valid()
      ensures thrown == fault
      ensures table == AfterInsertOrMerge(old(table), u, fault)
    {
      thrown := fault;
      if fault.None? {
        table := table[u.Key().value := u];
      }
    }

    /** `userTable.DeleteEntityAsync(u)`; an entity with a null key is always refused. */
    method DeleteEntity(u: UserSnapshot, fault: Option<Fault>) returns (thrown: Option<Fault>)
      requires Valid()
      requires u.Key().None? ==> fault.Some?
      modifies this
      ensures Valid()
      ensures thrown == fault
      ensures table == AfterDelete(old(table), u, fault)
    {
      thrown := fault;
      if fault.None? {
        table := table - {u.Key().value};
      }
    }

    /** `GetAllUsersAsync` and the `Users` property: every stored entity, each once, in the order the service lists them. */
    method GetAllUsers() returns (users: seq<UserSnapshot>)
      requires Valid()
      ensures IsEnumeration(users, table.Values)
      ensures |users| == |table|
    {
      EnumerationExists(table.Values);
      users :| IsEnumeration(users, table.Values);
      EnumerationLength(users, table.Values);
      KeyedEntitiesCount(table);
    }

    /** `ListEntitiesByFilterAsync` with the filter {PartitionKey = partitionKey, NormalizedEmail = normalizedEmail}. */
    method ListEntitiesByFilter(partitionKey: string, normalizedEmail: string) returns (users: seq<UserSnapshot>)
      requires Valid()
      ensures NoDuplicates(users)
      ensures forall u :: u in users <==>
                u in table.Values && u.partitionKey == Some(partitionKey) && u.normalizedEmail == Some(normalizedEmail)
    {
      var matching := set u | u in table.Values && u.partitionKey == Some(partitionKey) && u.normalizedEmail == Some(normalizedEmail);
      EnumerationExists(matching);
      users :| IsEnumeration(users, matching);
    }

    // ---------------- IUserStore ----------------

    static function GetUserId(user: User): Option<string>
      reads user
    {
      user.rowKey
    }

    static function GetUserName(user: User): Option<string>
      reads user
    {
      user.email
    }

    static function GetNormalizedUserName(user: User): Option<string>
      reads user
    {
      user.normalizedEmail
    }

    /** `FindByIdAsync`: the entity stored under ("Users", userId), or null. */
    function FindById(userId: string): (r: Option<UserSnapshot>)
      requires Valid()
      reads this
      ensures r.Some? <==> (UsersPartition, userId) in table
      ensures r.Some? ==> r.value in table.Values && r.value.partitionKey == Some(UsersPartition) && r.value.rowKey == Some(userId)
    {
      if (UsersPartition, userId) in table then Some(table[(UsersPartition, userId)]) else None
    }

    /** `FindByNameAsync`: some user of the partition whose normalised e-mail is the given name, or null when there is none. */
    method FindByName(normalizedUserName: string) returns (r: Option<UserSnapshot>)
      requires Valid()
      ensures r.Some? ==> r.value in table.Values && r.value.partitionKey == Some(UsersPartition)
                          && r.value.normalizedEmail == Some(normalizedUserName)
      ensures r.None? ==> forall u | u in table.Values ::
                            !(u.partitionKey == Some(UsersPartition) && u.normalizedEmail == Some(normalizedUserName))
    {
      var users := ListEntitiesByFilter(UsersPartition, normalizedUserName);
      r := if users == [] then None else Some(users[0]);
    }

    /** `NormalizeUserBeforeInsertOrUpdate`: give a null row key a fresh identifier and force the partition key. */
    method NormalizeUserBeforeInsertOrUpdate(user: User, guid: string)
      modifies user
      ensures user.Snapshot() == NormalizeKeys(old(user.Snapshot()), guid)
    {
      if user.rowKey.None? {
        user.rowKey := Some(guid);
      }
      user.partitionKey := Some(UsersPartition);
    }

    /** `CreateAsync`: normalise the keys and write the user; a storage exception becomes a failed result. */
    method Create(user: User, guid: string, fault: Option<Fault>) returns (result: IdentityResult)
      requires Valid()
      modifies this, user
      ensures Valid()
      ensures user.Snapshot() == NormalizeKeys(old(user.Snapshot()), guid)
      ensures GetUserId(user) == if old(user.rowKey).None? then Some(guid) else old(user.rowKey)
      ensures result == IdentityResultOf(fault)
      ensures table == AfterInsertOrMerge(old(table), user.Snapshot(), fault)
      ensures result.Success? ==> FindById(user.rowKey.value) == Some(user.Snapshot())
    {
      NormalizeUserBeforeInsertOrUpdate(user, guid);
      var thrown := InsertOrMergeEntity(user.Snapshot(), fault);
      result := IdentityResultOf(thrown);
    }

    /** `DeleteAsync`: remove the user's entity; the keys are not normalised; a storage exception becomes a failed result. */
    method Delete(user: User, fault: Option<Fault>) returns (result: IdentityResult)
      requires Valid()
      requires user.Snapshot().Key().None? ==> fault.Some?
      modifies this
      ensures Valid()
      ensures result == IdentityResultOf(fault)
      ensures table == AfterDelete(old(table), user.Snapshot(), fault)
      ensures result.Success? && user.partitionKey == Some(UsersPartition) ==> FindById(user.rowKey.value).None?
    {
      var thrown := DeleteEntity(user.Snapshot(), fault);
      result := IdentityResultOf(thrown);
    }

    /** `SetNormalizedUserNameAsync`: write the normalised e-mail and store the user, without normalising its keys. */
    method SetNormalizedUserName(user: User, normalizedName: Option<string>, fault: Option<Fault>) returns (c: Completion)
      requires Valid()
      requires user.Snapshot().Key().None? ==> fault.Some?
      modifies this, user
      ensures Valid()
      ensures user.Snapshot() == old(user.Snapshot()).(normalizedEmail := normalizedName)
      ensures GetNormalizedUserName(user) == normalizedName && GetNormalizedEmail(user) == normalizedName
      ensures c == CompletionOf(fault)
      ensures table == AfterInsertOrMerge(old(table), user.Snapshot(), fault)
    {
      user.normalizedEmail := normalizedName;
      var thrown := InsertOrMergeEntity(user.Snapshot(), fault);
      c := CompletionOf(thrown);
    }

    /** `SetUserNameAsync`: the user name is the e-mail; write it and store the user, without normalising its keys. */
    method SetUserName(user: User, userName: Option<string>, fault: Option<Fault>) returns (c: Completion)
      requires Valid()
      requires user.Snapshot().Key().None? ==> fault.Some?
      modifies this, user
      ensures Valid()
      ensures user.Snapshot() == old(user.Snapshot()).(email := userName)
      ensures GetUserName(user) == userName && GetEmail(user) == userName
      ensures c == CompletionOf(fault)
      ensures table == AfterInsertOrMerge(old(table), user.Snapshot(), fault)
    {
      user.email := userName;
      var thrown := InsertOrMergeEntity(user.Snapshot(), fault);
      c := CompletionOf(thrown);
    }

    /** `UpdateAsync`: the same as creating: normalise the keys and write; a storage exception becomes a failed result. */
    method Update(user: User, guid: string, fault: Option<Fault>) returns (result: IdentityResult)
      requires Valid()
      modifies this, user
      ensures Valid()
      ensures user.Snapshot() == NormalizeKeys(old(user.Snapshot()), guid)
      ensures GetUserId(user) == if old(user.rowKey).None? then Some(guid) else old(user.rowKey)
      ensures result == IdentityResultOf(fault)
      ensures table == AfterInsertOrMerge(old(table), user.Snapshot(), fault)
      ensures result.Success? ==> FindById(user.rowKey.value) == Some(user.Snapshot())
    {
      NormalizeUserBeforeInsertOrUpdate(user, guid);
      var thrown := InsertOrMergeEntity(user.Snapshot(), fault);
      result := IdentityResultOf(thrown);
    }

    // ---------------- IUserRoleStore ----------------

    /**
      `AddToRoleAsync`: a null or empty role name throws before anything changes;
      otherwise the name joins the user's role set, the set is written back
      joined with commas, and the user is stored with normalised keys.
    */
    method AddToRole(user: User, roleName: Option<string>, guid: string, fault: Option<Fault>) returns (c: Completion)
      requires Valid()
      modifies this, user
      ensures Valid()
      ensures roleName.None? || roleName == Some("") ==>
                && c == Threw(EmptyRoleNameFault)
                && user.Snapshot() == old(user.Snapshot())
                && table == old(table)
      ensures roleName.Some? && roleName.value != "" ==>
                && user.rolesStr.Some?
                && user.Snapshot() == NormalizeKeys(old(user.Snapshot()), guid).(rolesStr := user.rolesStr)
                && RoleSet(user.rolesStr) == RoleSet(old(user.rolesStr)) + Elements(Split(roleName.value, Separator))
                && (Separator !in roleName.value ==>
                      IsEnumeration(GetRoles(user), RoleSet(old(user.rolesStr)) + {roleName.value}))
                && (roleName.value in RoleSet(old(user.rolesStr)) ==> RoleSet(user.rolesStr) == RoleSet(old(user.rolesStr)))
                && (exists order :: IsEnumeration(order, RoleSet(old(user.rolesStr)) + {roleName.value})
                                    && user.rolesStr == Some(Join(Separator, order)))
                && c == CompletionOf(fault)
                && table == AfterInsertOrMerge(old(table), user.Snapshot(), fault)
    {
      if roleName.None? || roleName.value == "" {
        return Threw(EmptyRoleNameFault);
      }
      var role := roleName.value;
      var roles := RoleSet(user.rolesStr);
      roles := roles + {role};
      EnumerationExists(roles);
      var order :| IsEnumeration(order, roles);
      RolesAfterAdd(user.rolesStr, role, order);
      if role in RoleSet(user.rolesStr) {
        SplitSeparatorFree(role, Separator);
      }
      user.rolesStr := Some(Join(Separator, order));
      NormalizeUserBeforeInsertOrUpdate(user, guid);
      var thrown := InsertOrMergeEntity(user.Snapshot(), fault);
      c := CompletionOf(thrown);
    }

    /**
      `GetRolesAsync`: the comma-separated pieces of the role string in order,
      and an empty list, never null, when there is no role string.
    */
    static function GetRoles(user: User): (roles: seq<string>)
      reads user
      ensures user.rolesStr.None? ==> roles == []
      ensures user.rolesStr.Some? ==> |roles| >= 1 && Join(Separator, roles) == user.rolesStr.value
      ensures user.rolesStr == Some("") ==> roles == [""]
      ensures forall i | 0 <= i < |roles| :: Separator !in roles[i]
      ensures forall x :: x in roles <==> x in RoleSet(user.rolesStr)
    {
      match user.rolesStr
      case None => []
      case Some(s) =>
        JoinSplit(s, Separator);
        Split(s, Separator)
    }

    /**
      `GetUsersInRoleAsync`: the users of the partition whose role string contains
      the role name as a substring. The scan throws at the first user of the
      partition it cannot test: `NullReferenceException` when that user has no
      role string, otherwise `ArgumentNullException` when the role name is null.
      Which of the two is thrown when both kinds of user are present depends on
      the order the service lists the users in.
    */
    method GetUsersInRole(roleName: Option<string>) returns (r: Result<seq<UserSnapshot>, Fault>)
      requires Valid()
      ensures r.Err? <==> exists u | u in table.Values ::
                u.partitionKey == Some(UsersPartition) && (u.rolesStr.None? || roleName.None?)
      ensures r.Err? ==> r.error == NullReferenceFault || r.error == ArgumentNullFault
      ensures r.Err? && roleName.Some? ==> r.error == NullReferenceFault
      ensures r.Err? && (forall u | u in table.Values && u.partitionKey == Some(UsersPartition) :: u.rolesStr.Some?) ==>
                r.error == ArgumentNullFault
      ensures r.Ok? ==> NoDuplicates(r.value)
      ensures r.Ok? ==> forall u :: u in r.value <==>
                u in table.Values && u.partitionKey == Some(UsersPartition)
                && u.rolesStr.Some? && roleName.Some? && Contains(u.rolesStr.value, roleName.value)
    {
      var entities := GetAllUsers();
      var found: seq<UserSnapshot> := [];
      var i := 0;
      while i < |entities|
        invariant 0 <= i <= |entities|
        invariant forall j | 0 <= j < i ::
                    !(entities[j].partitionKey == Some(UsersPartition) && (entities[j].rolesStr.None? || roleName.None?))
        invariant forall u :: u in found <==>
                    u in entities[..i] && u.partitionKey == Some(UsersPartition)
                    && u.rolesStr.Some? && roleName.Some? && Contains(u.rolesStr.value, roleName.value)
        invariant NoDuplicates(found)
      {
        var u := entities[i];
        if u.partitionKey == Some(UsersPartition) {
          if u.rolesStr.None? {
            return Err(NullReferenceFault);
          }
          if roleName.None? {
            return Err(ArgumentNullFault);
          }
          if IndexOf(u.rolesStr.value, roleName.value) >= 0 {
            assert u !in entities[..i];
            found := found + [u];
          }
        }
        assert entities[..i + 1] == entities[..i] + [u];
        i := i + 1;
      }
      assert entities[..i] == entities;
      r := Ok(found);
    }

    /**
      `IsInRoleAsync`: false when the role string is null or empty; otherwise
      whether it contains the role name as a substring, and a null role name
      makes `String.Contains` throw `ArgumentNullException`.
    */
    static function IsInRole(user: User, roleName: Option<string>): (r: Result<bool, Fault>)
      reads user
      ensures r.Err? <==> user.rolesStr.Some? && user.rolesStr.value != "" && roleName.None?
      ensures r.Err? ==> r.error == ArgumentNullFault
      ensures r.Ok? ==> (r.value <==> user.rolesStr.Some? && user.rolesStr.value != "" && roleName.Some?
                                       && exists i :: OccursAt(user.rolesStr.value, roleName.value, i))
    {
      if user.rolesStr.None? || user.rolesStr.value == "" then Ok(false)
      else if roleName.None? then Err(ArgumentNullFault)
      else Ok(Contains(user.rolesStr.value, roleName.value))
    }

    /** A role the user holds exactly, and that is not empty, is reported as held. */
    static lemma ExactRoleIsInRole(user: User, roleName: string)
      requires roleName != "" && roleName in RoleSet(user.rolesStr)
      ensures IsInRole(user, Some(roleName)) == Ok(true)
    {
      var s := user.rolesStr.value;
      var k :| 0 <= k < |Split(s, Separator)| && Split(s, Separator)[k] == roleName;
      SplitPiecesOccur(s, Separator, k);
      assert OccursAt(s, roleName, IndexOf(s, roleName));
    }

    /**
      Membership is substring containment: a user whose only role is "SuperAdmin"
      is reported as being in role "Admin", which is not one of its roles.
    */
    static lemma SubstringRoleIsInRole(user: User)
      requires user.rolesStr == Some("SuperAdmin")
      ensures IsInRole(user, Some("Admin")) == Ok(true)
      ensures "Admin" !in RoleSet(user.rolesStr)
    {
      assert OccursAt("SuperAdmin", "Admin", 5);
      SplitSeparatorFree("SuperAdmin", Separator);
    }

    /** The role string "Admin,Editor" is listed as ["Admin", "Editor"]. */
    static lemma GetRolesOfTwoRoles(user: User)
      requires user.rolesStr == Some("Admin,Editor")
      ensures GetRoles(user) == ["Admin", "Editor"]
    {
      SplitTwoRoles("Admin", "Editor");
      assert "Admin" + [Separator] + "Editor" == "Admin,Editor";
    }

    /** `RemoveFromRoleAsync`: with a non-empty role name, drop it from the role set, write the set back and store the user. */
    method RemoveFromRole(user: User, roleName: Option<string>, guid: string, fault: Option<Fault>) returns (c: Completion)
      requires Valid()
      modifies this, user
      ensures Valid()
      ensures roleName.None? || roleName == Some("") ==>
                && c == Completed
                && user.Snapshot() == old(user.Snapshot())
                && table == old(table)
      ensures roleName.Some? && roleName.value != "" ==>
                var remaining := RoleSet(old(user.rolesStr)) - {roleName.value};
                && user.rolesStr.Some?
                && user.Snapshot() == NormalizeKeys(old(user.Snapshot()), guid).(rolesStr := user.rolesStr)
                && (remaining != {} ==> RoleSet(user.rolesStr) == remaining && IsEnumeration(GetRoles(user), remaining))
                && (remaining == {} ==> user.rolesStr == Some(""))
                && (exists order :: IsEnumeration(order, remaining) && user.rolesStr == Some(Join(Separator, order)))
                && (roleName.value !in RoleSet(old(user.rolesStr)) && remaining != {} ==>
                      RoleSet(user.rolesStr) == RoleSet(old(user.rolesStr)))
                && c == CompletionOf(fault)
                && table == AfterInsertOrMerge(old(table), user.Snapshot(), fault)
    {
      c := Completed;
      if roleName.Some? && roleName.value != "" {
        var role := roleName.value;
        var roles := RoleSet(user.rolesStr);
        roles := roles - {role};
        EnumerationExists(roles);
        var order :| IsEnumeration(order, roles);
        RolesAfterRemove(user.rolesStr, role, order);
        user.rolesStr := Some(Join(Separator, order));
        NormalizeUserBeforeInsertOrUpdate(user, guid);
        var thrown := InsertOrMergeEntity(user.Snapshot(), fault);
        c := CompletionOf(thrown);
      }
    }

    // ---------------- IUserPasswordStore ----------------

    /** `SetPasswordHashAsync`: write the hash and store the user with normalised keys. */
    method SetPasswordHash(user: User, passwordHash: Option<string>, guid: string, fault: Option<Fault>) returns (c: Completion)
      requires Valid()
      modifies this, user
      ensures Valid()
      ensures user.Snapshot() == NormalizeKeys(old(user.Snapshot()).(passwordHash := passwordHash), guid)
      ensures GetPasswordHash(user) == passwordHash
      ensures HasPassword(user) <==> passwordHash.Some? && passwordHash.value != ""
      ensures c == CompletionOf(fault)
      ensures table == AfterInsertOrMerge(old(table), user.Snapshot(), fault)
    {
      user.passwordHash := passwordHash;
      NormalizeUserBeforeInsertOrUpdate(user, guid);
      var thrown := InsertOrMergeEntity(user.Snapshot(), fault);
      c := CompletionOf(thrown);
    }

    static function GetPasswordHash(user: User): Option<string>
      reads user
    {
      user.passwordHash
    }

    static function HasPassword(user: User): bool
      reads user
    {
      !(user.passwordHash.None? || user.passwordHash.value == "")
    }

    // ---------------- IUserEmailStore ----------------

    /** `FindByEmailAsync`: some user of the partition with the given normalised e-mail, or null when there is none. */
    method FindByEmail(normalizedEmail: string) returns (r: Option<UserSnapshot>)
      requires Valid()
      ensures r.Some? ==> r.value in table.Values && r.value.partitionKey == Some(UsersPartition)
                          && r.value.normalizedEmail == Some(normalizedEmail)
      ensures r.None? ==> forall u | u in table.Values ::
                            !(u.partitionKey == Some(UsersPartition) && u.normalizedEmail == Some(normalizedEmail))
    {
      var users := ListEntitiesByFilter(UsersPartition, normalizedEmail);
      r := if users == [] then None else Some(users[0]);
    }

    /** `SetEmailAsync`: write the e-mail and store the user with normalised keys. */
    method SetEmail(user: User, email: Option<string>, guid: string, fault: Option<Fault>) returns (c: Completion)
      requires Valid()
      modifies this, user
      ensures Valid()
      ensures user.Snapshot() == NormalizeKeys(old(user.Snapshot()).(email := email), guid)
      ensures GetEmail(user) == email
      ensures c == CompletionOf(fault)
      ensures table == AfterInsertOrMerge(old(table), user.Snapshot(), fault)
    {
      user.email := email;
      NormalizeUserBeforeInsertOrUpdate(user, guid);
      var thrown := InsertOrMergeEntity(user.Snapshot(), fault);
      c := CompletionOf(thrown);
    }

    static function GetEmail(user: User): Option<string>
      reads user
    {
      user.email
    }

    static function GetEmailConfirmed(user: User): bool
      reads user
    {
      user.emailConfirmed
    }

    /** `SetEmailConfirmedAsync`: write the flag and store the user with normalised keys. */
    method SetEmailConfirmed(user: User, confirmed: bool, guid: string, fault: Option<Fault>) returns (c: Completion)
      requires Valid()
      modifies this, user
      ensures Valid()
      ensures user.Snapshot() == NormalizeKeys(old(user.Snapshot()).(emailConfirmed := confirmed), guid)
      ensures GetEmailConfirmed(user) == confirmed
      ensures c == CompletionOf(fault)
      ensures table == AfterInsertOrMerge(old(table), user.Snapshot(), fault)
    {
      user.emailConfirmed := confirmed;
      NormalizeUserBeforeInsertOrUpdate(user, guid);
      var thrown := InsertOrMergeEntity(user.Snapshot(), fault);
      c := CompletionOf(thrown);
    }

    static function GetNormalizedEmail(user: User): Option<string>
      reads user
    {
      user.normalizedEmail
    }

    /** `SetNormalizedEmailAsync`: write the normalised e-mail and store the user with normalised keys. */
    method SetNormalizedEmail(user: User, normalizedEmail: Option<string>, guid: string, fault: Option<Fault>) returns (c: Completion)
      requires Valid()
      modifies this, user
      ensures Valid()
      ensures user.Snapshot() == NormalizeKeys(old(user.Snapshot()).(normalizedEmail := normalizedEmail), guid)
      ensures GetNormalizedEmail(user) == normalizedEmail
      ensures c == CompletionOf(fault)
      ensures table == AfterInsertOrMerge(old(table), user.Snapshot(), fault)
    {
      user.normalizedEmail := normalizedEmail;
      NormalizeUserBeforeInsertOrUpdate(user, guid);
      var thrown := InsertOrMergeEntity(user.Snapshot(), fault);
      c := CompletionOf(thrown);
    }
  }
}
