/** The user record the dashboard works on: the upstream JSON user with the
    client-only `liked` flag and `likeCount` added. The nested keys the edit
    form does not show (`address.geo`, `company.catchPhrase`, `company.bs`)
    are optional so that dropping them can be observed. */
module UserRecord {
  import opened Wrappers

  datatype Geo = Geo(lat: string, lng: string)

  datatype Address = Address(street: string, suite: string, city: string, zipcode: string, geo: Option<Geo>)

  datatype Company = Company(name: string, catchPhrase: Option<string>, bs: Option<string>)

  datatype User = User(
    id: int,
    name: string,
    username: string,
    email: string,
    phone: string,
    website: string,
    address: Address,
    company: Company,
    liked: bool,
    likeCount: Option<int>)

  /** `user.likeCount || 0`: an absent count reads as zero. */
  function LikeCount(u: User): (n: int)
    ensures u.likeCount.None? ==> n == 0
    ensures u.likeCount.Some? ==> n == u.likeCount.value
  {
    u.likeCount.GetOr(0)
  }

  /** The like invariant: the count is never negative, and a liked record
      counts its own like. */
  predicate ValidLikes(u: User) {
    LikeCount(u) >= 0 && (u.liked ==> LikeCount(u) >= 1)
  }

  predicate AllValidLikes(users: seq<User>) {
    forall i | 0 <= i < |users| :: ValidLikes(users[i])
  }

  function Ids(users: seq<User>): (ids: seq<int>)
    ensures |ids| == |users|
    ensures forall i | 0 <= i < |users| :: ids[i] == users[i].id
  {
    seq(|users|, i requires 0 <= i < |users| => users[i].id)
  }

  predicate UniqueIds(users: seq<User>) {
    forall i, j | 0 <= i < j < |users| :: users[i].id != users[j].id
  }

  predicate HasId(users: seq<User>, id: int) {
    exists i | 0 <= i < |users| :: users[i].id == id
  }

  /** `users.find(u => u.id === id)`: the first record with that id. */
  function Find(users: seq<User>, id: int): (r: Option<User>)
    ensures r.Some? <==> HasId(users, id)
    ensures r.Some? ==> r.value.id == id && r.value in users
    ensures r.Some? ==> exists i | 0 <= i < |users| :: users[i] == r.value && users[i].id == id
                                  && forall j | 0 <= j < i :: users[j].id != id
  {
    if |users| == 0 then None
    else if users[0].id == id then Some(users[0])
    else
      var r := Find(users[1..], id);
      assert HasId(users[1..], id) ==> HasId(users, id) by {
        if HasId(users[1..], id) {
          var k :| 0 <= k < |users[1..]| && users[1..][k].id == id;
          assert users[k + 1].id == id;
        }
      }
      assert HasId(users, id) ==> HasId(users[1..], id) by {
        if HasId(users, id) {
          var k :| 0 <= k < |users| && users[k].id == id;
          assert users[1..][k - 1].id == id;
        }
      }
      if r.Some? then
        assert exists i | 0 <= i < |users| :: users[i] == r.value && users[i].id == id
                          && forall j | 0 <= j < i :: users[j].id != id by {
          var k :| 0 <= k < |users[1..]| && users[1..][k] == r.value && users[1..][k].id == id
                   && forall j | 0 <= j < k :: users[1..][j].id != id;
          assert users[k + 1] == r.value;
          forall j | 0 <= j < k + 1 ensures users[j].id != id {
            if j > 0 { assert users[j] == users[1..][j - 1]; }
          }
        }
        r
      else r
  }

  /** With unique ids, the record `Find` returns is the only one with that id. */
  lemma FindUnique(users: seq<User>, i: int)
    requires UniqueIds(users)
    requires 0 <= i < |users|
    ensures Find(users, users[i].id) == Some(users[i])
  {
    var r := Find(users, users[i].id);
    var k :| 0 <= k < |users| && users[k] == r.value && users[k].id == users[i].id
             && forall j | 0 <= j < k :: users[j].id != users[i].id;
    assert k == i;
  }
}
