/** The static role table: each role with the rights it grants, the list
    of role names (`ROLES`, the table's keys in declaration order) and the
    set of all rights (the `Rights` type). */
module Roles {
  import opened Outcomes

  datatype Role = User | Admin

  /** A right is a plain string at run time; the table only ever grants these two. */
  type Right = string

  const GetUsers: Right := "getUsers"
  const ManageUsers: Right := "manageUsers"

  /** The table's keys, in declaration order. */
  const AllRoles: seq<Role> := [User, Admin]

  function Name(role: Role): string
  {
    match role
    case User => "user"
    case Admin => "admin"
  }

  /** `ROLE_RIGHTS[role]`. */
  function RoleRights(role: Role): seq<Right>
  {
    match role
    case User => []
    case Admin => [GetUsers, ManageUsers]
  }

  /** `ROLES = Object.keys(allRoles)`. */
  function RoleNames(): (names: seq<string>)
    ensures |names| == |AllRoles|
    ensures forall i :: 0 <= i < |AllRoles| ==> names[i] == Name(AllRoles[i])
  {
    ["user", "admin"]
  }

  /** The schema's enum check on a role string, read back as a role. */
  function ParseRole(s: string): (r: Option<Role>)
    ensures r.Some? <==> s in RoleNames()
    ensures r.Some? ==> Name(r.value) == s
  {
    if s == "user" then Some(User)
    else if s == "admin" then Some(Admin)
    else None
  }

  /** Every role survives a round trip through its name. */
  lemma ParseName(role: Role)
    ensures ParseRole(Name(role)) == Some(role)
    ensures Name(role) in RoleNames()
  {
  }

  /** `Rights`: the union of everything some role grants. */
  function AllRights(): (rights: set<Right>)
    ensures forall role: Role, x :: x in RoleRights(role) ==> x in rights
    ensures forall x :: x in rights ==> exists role: Role :: x in RoleRights(role)
  {
    assert GetUsers in RoleRights(Admin);
    assert ManageUsers in RoleRights(Admin);
    {GetUsers, ManageUsers}
  }

  lemma RoleTable()
    ensures RoleRights(User) == []
    ensures (set x | x in RoleRights(Admin)) == {GetUsers, ManageUsers}
    ensures AllRights() == {"getUsers", "manageUsers"}
    ensures RoleNames() == ["user", "admin"]
  {
  }
}
