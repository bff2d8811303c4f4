// The users table and the queries the services run on it.
module Users {
  import opened Ids

  datatype AuthStatus = Pending | Verified | Revoked

  datatype Role = Owner | Tenant | Family | Admin | Staff

  datatype User = User(
    community: Uuid, mobile: string, role: Role, status: AuthStatus, columns: Columns, updatedAt: nat)

  type UserTable = map<Uuid, User>

  // UNIQUE (community_id, mobile)
  ghost predicate UniqueMobile(users: UserTable)
  {
    forall x, y :: x in users && y in users && x != y ==>
      users[x].community != users[y].community || users[x].mobile != users[y].mobile
  }

  // list_by_mobile, as the ids of its rows. The query has no ORDER BY.
  function ListByMobile(users: UserTable, mobile: string): set<Uuid>
  {
    set x | x in users && users[x].mobile == mobile
  }

  // The communities in which someone holds the mobile.
  function CommunitiesHolding(users: UserTable, mobile: string): set<Uuid>
  {
    set x | x in users && users[x].mobile == mobile :: users[x].community
  }

  function CommunitiesOf(users: UserTable, ids: set<Uuid>): set<Uuid>
    requires ids <= users.Keys
  {
    set x | x in ids :: users[x].community
  }

  datatype OneOrNone = NoRow | OneRow(id: Uuid) | MultipleResultsFound

  function Matching(users: UserTable, community: Uuid, mobile: string): set<Uuid>
  {
    set x | x in users && users[x].community == community && users[x].mobile == mobile
  }

  // get_by_mobile: scalar_one_or_none on the matching rows.
  function GetByMobile(users: UserTable, community: Uuid, mobile: string): OneOrNone
  {
    var found := Matching(users, community, mobile);
    if found == {} then NoRow
    else if |found| == 1 then OneRow(Only(found))
    else MultipleResultsFound
  }

  function Only(s: set<Uuid>): (x: Uuid)
    requires |s| == 1
    ensures s == {x}
  {
    Singleton(s);
    var x :| s == {x};
    x
  }

  lemma Singleton(s: set<Uuid>)
    requires |s| == 1
    ensures exists x :: s == {x}
  {
    var x :| x in s;
    assert s == {x} by {
      assert |s - {x}| == 0;
    }
  }

  // The query finds exactly the one row that fits, or there is none.
  lemma GetByMobileFindsAtMostOne(users: UserTable, community: Uuid, mobile: string)
    requires UniqueMobile(users)
    ensures match GetByMobile(users, community, mobile)
            case NoRow => forall x :: x in users ==> users[x].community != community || users[x].mobile != mobile
            case OneRow(id) =>
              forall x :: x in users && users[x].community == community && users[x].mobile == mobile <==> x == id
            case MultipleResultsFound => false
  {
    var found := Matching(users, community, mobile);
    if x :| x in found {
      assert found == {x} by {
        assert forall y :: y in found ==> y == x;
      }
    } else {
      assert found == {};
      assert forall x :: x in users && users[x].community == community && users[x].mobile == mobile ==> x in found;
    }
  }

  // list_by_mobile returns every holder of the mobile, one per community: as
  // many users as there are communities in which the mobile is held.
  lemma HoldersAreOnePerCommunity(users: UserTable, mobile: string)
    requires UniqueMobile(users)
    ensures var ids := ListByMobile(users, mobile);
            && (forall x :: x in users && users[x].mobile == mobile <==> x in ids)
            && (forall x, y :: x in ids && y in ids && x != y ==> users[x].community != users[y].community)
            && |ids| == |CommunitiesHolding(users, mobile)|
  {
    var ids := ListByMobile(users, mobile);
    CountCommunities(users, ids);
    assert CommunitiesOf(users, ids) == CommunitiesHolding(users, mobile);
  }

  lemma {:induction false} CountCommunities(users: UserTable, ids: set<Uuid>)
    requires ids <= users.Keys
    requires forall x, y :: x in ids && y in ids && x != y ==> users[x].community != users[y].community
    ensures |ids| == |CommunitiesOf(users, ids)|
  {
    if ids != {} {
      var x :| x in ids;
      CountCommunities(users, ids - {x});
      assert CommunitiesOf(users, ids) == CommunitiesOf(users, ids - {x}) + {users[x].community};
    }
  }
}
