/**
  The role store. Roles are not stored anywhere of their own: a role is its
  name, which is also its identifier and its normalised name, so every lookup
  and getter hands back the string it is given, every setter leaves the role
  as it is, and creating, updating or deleting a role always succeeds.
*/
module RoleStore {

  import opened Identity

  /** `CreateAsync`: succeeds for every role and stores nothing. */
  function Create(role: string): (r: IdentityResult)
    ensures r.Success?
  {
    Success
  }

  /** `DeleteAsync`: succeeds for every role and deletes nothing. */
  function Delete(role: string): (r: IdentityResult)
    ensures r.Success?
  {
    Success
  }

  /** `UpdateAsync`: succeeds for every role and writes nothing. */
  function Update(role: string): (r: IdentityResult)
    ensures r.Success?
  {
    Success
  }

  /** `FindByIdAsync`: the role whose identifier is `roleId` is `roleId` itself. */
  function FindById(roleId: string): (role: string)
    ensures role == roleId
  {
    roleId
  }

  /** `FindByNameAsync`: the role whose normalised name is given is that name itself. */
  function FindByName(normalizedRoleName: string): (role: string)
    ensures role == normalizedRoleName
  {
    normalizedRoleName
  }

  /** `GetNormalizedRoleNameAsync`: a role is its own normalised name. */
  function GetNormalizedRoleName(role: string): (name: string)
    ensures name == role
  {
    role
  }

  /** `GetRoleIdAsync`: a role is its own identifier. */
  function GetRoleId(role: string): (id: string)
    ensures id == role
  {
    role
  }

  /** `GetRoleNameAsync`: a role is its own name. */
  function GetRoleName(role: string): (name: string)
    ensures name == role
  {
    role
  }

  /**
    `SetNormalizedRoleNameAsync` changes nothing: the result is the role as it
    stands afterwards, and every getter still answers with the original string.
  */
  function SetNormalizedRoleName(role: string, normalizedName: string): (after: string)
    ensures after == role
    ensures GetNormalizedRoleName(after) == role && GetRoleId(after) == role && GetRoleName(after) == role
  {
    role
  }

  /**
    `SetRoleNameAsync` changes nothing: the result is the role as it stands
    afterwards, and every getter still answers with the original string.
  */
  function SetRoleName(role: string, roleName: string): (after: string)
    ensures after == role
    ensures GetNormalizedRoleName(after) == role && GetRoleId(after) == role && GetRoleName(after) == role
  {
    role
  }

  /** Looking a role up by the identifier or the normalised name it reports gives the role back. */
  lemma LookupsInvertGetters(role: string)
    ensures FindById(GetRoleId(role)) == role
    ensures FindByName(GetNormalizedRoleName(role)) == role
    ensures GetRoleId(role) == GetRoleName(role) == GetNormalizedRoleName(role)
  {
  }
}
