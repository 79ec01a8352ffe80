/**
  A user's roles are one string, `RolesStr`, holding the role names joined with
  ','. Adding or removing a role reads it into a hash set, changes the set and
  joins the set back; this module states what that round trip does to the roles.
*/
module RoleList {

  import opened Wrappers
  import opened Text
  import opened Enumerable

  /** The separator between role names in `RolesStr`. */
  const Separator: char := ','

  /**
    The hash set read from `RolesStr`: the set of its comma-separated pieces,
    and the empty set when `RolesStr` is null.
  */
  function RoleSet(rolesStr: Option<string>): (roles: set<string>)
    ensures rolesStr.None? ==> roles == {}
    ensures rolesStr.Some? ==> forall x :: x in roles <==> x in Split(rolesStr.value, Separator)
    ensures rolesStr == Some("") ==> roles == {""}
    ensures forall x | x in roles :: Separator !in x
  {
    match rolesStr
    case None => {}
    case Some(s) => ToHashSet(Some(Split(s, Separator))).value
  }

  /** `p` is a piece of one of the strings in `xs`. */
  predicate PieceOf(p: string, xs: seq<string>)
  {
    exists i :: 0 <= i < |xs| && p in Split(xs[i], Separator)
  }

  /** The pieces of a join are the pieces of the strings joined. */
  lemma {:induction false} SplitJoinPieces(xs: seq<string>)
    requires |xs| >= 1
    ensures forall p :: p in Split(Join(Separator, xs), Separator) <==> PieceOf(p, xs)
    decreases |xs|
  {
    if |xs| == 1 {
      forall p ensures p in Split(Join(Separator, xs), Separator) <==> PieceOf(p, xs) {
        if p in Split(xs[0], Separator) {
          assert 0 < |xs| && p in Split(xs[0], Separator);
        }
      }
    } else {
      var rest := xs[1..];
      SplitConcat(xs[0], Join(Separator, rest), Separator);
      SplitJoinPieces(rest);
      forall p ensures p in Split(Join(Separator, xs), Separator) <==> PieceOf(p, xs) {
        if PieceOf(p, xs) {
          var i :| 0 <= i < |xs| && p in Split(xs[i], Separator);
          if i > 0 {
            assert p in Split(rest[i - 1], Separator);
          }
        }
        if PieceOf(p, rest) {
          var i :| 0 <= i < |rest| && p in Split(rest[i], Separator);
          assert p in Split(xs[i + 1], Separator);
        }
        if p in Split(xs[0], Separator) {
          assert 0 < |xs| && p in Split(xs[0], Separator);
        }
      }
    }
  }

  /**
    Joining an enumeration of a non-empty set of comma-free names and reading it
    back gives that very enumeration, so the roles read back are the set again,
    each name once.
  */
  lemma JoinedEnumeration(order: seq<string>, roles: set<string>)
    requires IsEnumeration(order, roles)
    requires roles != {}
    requires forall x | x in roles :: Separator !in x
    ensures Split(Join(Separator, order), Separator) == order
    ensures RoleSet(Some(Join(Separator, order))) == roles
  {
    EnumerationLength(order, roles);
  }

  /**
    Adding a role name: the roles read back are the old roles plus the pieces
    of the name (the name itself when it has no comma), and then each role is
    listed once and the list is exactly the order the set was enumerated in.
  */
  lemma {:induction false} RolesAfterAdd(rolesStr: Option<string>, role: string, order: seq<string>)
    requires IsEnumeration(order, RoleSet(rolesStr) + {role})
    ensures RoleSet(Some(Join(Separator, order))) == RoleSet(rolesStr) + Elements(Split(role, Separator))
    ensures Separator !in role ==> RoleSet(Some(Join(Separator, order))) == RoleSet(rolesStr) + {role}
    ensures Separator !in role ==> Split(Join(Separator, order), Separator) == order
  {
    var before := RoleSet(rolesStr);
    var now := RoleSet(Some(Join(Separator, order)));
    EnumerationLength(order, before + {role});
    SplitJoinPieces(order);
    PiecesOfAddedRoles(before, role, order);
    assert forall p :: p in now <==> p in before || p in Split(role, Separator);
    if Separator !in role {
      SplitSeparatorFree(role, Separator);
      JoinedEnumeration(order, before + {role});
    }
  }

  /** The pieces of an enumeration of comma-free roles plus one name are those roles and the pieces of the name. */
  lemma PiecesOfAddedRoles(before: set<string>, role: string, order: seq<string>)
    requires IsEnumeration(order, before + {role})
    requires forall x | x in before :: Separator !in x
    ensures forall p :: PieceOf(p, order) <==> p in before || p in Split(role, Separator)
  {
    forall p ensures PieceOf(p, order) <==> p in before || p in Split(role, Separator) {
      if PieceOf(p, order) {
        var i :| 0 <= i < |order| && p in Split(order[i], Separator);
        assert order[i] in before + {role};
        if order[i] != role {
          assert order[i] in before;
          SplitSeparatorFree(order[i], Separator);
          assert p in before;
        }
      }
      if p in before {
        SplitSeparatorFree(p, Separator);
        var i :| 0 <= i < |order| && order[i] == p;
        assert p in Split(order[i], Separator);
      }
      if p in Split(role, Separator) {
        var i :| 0 <= i < |order| && order[i] == role;
        assert p in Split(order[i], Separator);
      }
    }
  }

  /**
    Removing a role name: when other roles remain, the roles read back are the
    old roles without the name, each listed once; when none remains the joined
    string is "", which reads back as the single empty role name.
  */
  lemma RolesAfterRemove(rolesStr: Option<string>, role: string, order: seq<string>)
    requires IsEnumeration(order, RoleSet(rolesStr) - {role})
    ensures RoleSet(rolesStr) - {role} != {} ==>
              && RoleSet(Some(Join(Separator, order))) == RoleSet(rolesStr) - {role}
              && Split(Join(Separator, order), Separator) == order
    ensures RoleSet(rolesStr) - {role} == {} ==> Join(Separator, order) == ""
  {
    if RoleSet(rolesStr) - {role} != {} {
      JoinedEnumeration(order, RoleSet(rolesStr) - {role});
    } else {
      EnumerationLength(order, {});
    }
  }

  /** Two comma-free role names joined with a comma split back into those two names. */
  lemma SplitTwoRoles(first: string, second: string)
    requires Separator !in first && Separator !in second
    ensures Split(first + [Separator] + second, Separator) == [first, second]
  {
    assert Join(Separator, [first, second]) == first + [Separator] + second;
  }

  /**
    Removing the second of two distinct roles leaves the first one alone in the
    role string, whatever order the set is enumerated in: "Admin,Editor" without
    "Editor" is "Admin".
  */
  lemma RemoveSecondOfTwoRoles(first: string, second: string, order: seq<string>)
    requires Separator !in first && Separator !in second && first != second
    requires IsEnumeration(order, RoleSet(Some(first + [Separator] + second)) - {second})
    ensures Join(Separator, order) == first
  {
    SplitTwoRoles(first, second);
    var remaining := RoleSet(Some(first + [Separator] + second)) - {second};
    assert remaining == {first};
    EnumerationLength(order, remaining);
    assert order[0] in remaining;
  }

  /**
    The empty role string reads back as the single empty role name, so adding a
    role to it leaves an empty entry beside the new role: the list read back has
    two entries, one of them "".
  */
  lemma AddToEmptyRoleStringKeepsEmptyEntry(role: string, order: seq<string>)
    requires role != "" && Separator !in role
    requires IsEnumeration(order, RoleSet(Some("")) + {role})
    ensures Split(Join(Separator, order), Separator) == order
    ensures |order| == 2 && "" in order && role in order
  {
    RolesAfterAdd(Some(""), role, order);
    EnumerationLength(order, {"", role});
  }

  /** The pieces of two joined strings are the pieces of the first followed by those of the second. */
  lemma SplitJoinedPair(x: string, y: string)
    ensures Split(Join(Separator, [x, y]), Separator) == Split(x, Separator) + Split(y, Separator)
  {
    assert Join(Separator, [x, y]) == x + [Separator] + y;
    SplitConcat(x, y, Separator);
  }

  /** A two-element set is enumerated in one of its two orders. */
  lemma PairEnumeration(a: string, b: string, order: seq<string>)
    requires a != b
    requires IsEnumeration(order, {a, b})
    ensures order == [a, b] || order == [b, a]
  {
    EnumerationLength(order, {a, b});
    assert order == [order[0], order[1]];
  }

  /**
    Adding a name that contains a comma can store a role twice: a user holding
    `first` who is added to "first,second" gets a role string whose pieces list
    `first` twice beside `second`, whatever order the set is enumerated in.
  */
  lemma AddCommaNameRepeatsRole(first: string, second: string, order: seq<string>)
    requires Separator !in first && Separator !in second
    requires IsEnumeration(order, {first, first + [Separator] + second})
    ensures var pieces := Split(Join(Separator, order), Separator);
            && |pieces| == 3
            && (exists i, j :: 0 <= i < j < |pieces| && pieces[i] == first && pieces[j] == first)
            && Elements(pieces) == {first, second}
  {
    var name := first + [Separator] + second;
    assert |name| > |first|;
    PairEnumeration(first, name, order);
    SplitTwoRoles(first, second);
    SplitSeparatorFree(first, Separator);
    SplitJoinedPair(order[0], order[1]);
    var pieces := Split(Join(Separator, order), Separator);
    if order == [first, name] {
      assert pieces == [first, first, second];
      assert pieces[0] == first && pieces[1] == first;
    } else {
      assert pieces == [first, second, first];
      assert pieces[0] == first && pieces[2] == first;
    }
    assert Elements(pieces) == {first, second};
  }
}
