/** The `useUsers` hook: the in-memory store of user records, the one load
    that fills it, and the three local mutations (update, delete, toggle-like).
    Each `setUsers(prev => ...)` updater is a pure function over the record
    sequence; the load's network outcome is an input. */
module UseUsers {
  import opened Wrappers
  import opened UserRecord

  /** The hook's three pieces of state: `users`, `loading`, `error`. */
  datatype Store = Store(users: seq<User>, loading: bool, error: Option<string>)

  /** The `useState` initial values: no users, loading, no error. */
  function InitialStore(): (s: Store)
    ensures s.users == [] && s.loading && s.error.None?
  {
    Store([], true, None)
  }

  // ---------------------------------------------------------------- updateUser

  /** `updateUser`: every record whose id is `updated.id` is replaced by `updated`. */
  function UpdateUser(users: seq<User>, updated: User): (r: seq<User>)
    ensures |r| == |users|
    ensures forall i | 0 <= i < |users| && users[i].id == updated.id :: r[i] == updated
    ensures forall i | 0 <= i < |users| && users[i].id != updated.id :: r[i] == users[i]
  {
    if |users| == 0 then []
    else [if users[0].id == updated.id then updated else users[0]] + UpdateUser(users[1..], updated)
  }

  /** When no record carries `updated.id`, the update is a no-op. */
  lemma UpdateAbsentIsNoop(users: seq<User>, updated: User)
    requires !HasId(users, updated.id)
    ensures UpdateUser(users, updated) == users
  {
  }

  /** The update keeps the id column, so uniqueness of ids survives it. */
  lemma UpdateKeepsIds(users: seq<User>, updated: User)
    ensures Ids(UpdateUser(users, updated)) == Ids(users)
    ensures UniqueIds(users) ==> UniqueIds(UpdateUser(users, updated))
  {
  }

  /** Read-after-write: once `updated` is stored, looking its id up yields it. */
  lemma {:induction false} UpdateThenFind(users: seq<User>, updated: User)
    requires HasId(users, updated.id)
    ensures Find(UpdateUser(users, updated), updated.id) == Some(updated)
  {
    var r := UpdateUser(users, updated);
    if users[0].id != updated.id {
      assert r[1..] == UpdateUser(users[1..], updated);
      assert HasId(users[1..], updated.id) by {
        var k :| 0 <= k < |users| && users[k].id == updated.id;
        assert users[1..][k - 1].id == updated.id;
      }
      UpdateThenFind(users[1..], updated);
    }
  }

  /** Writing back a record that is already stored under a unique id changes nothing. */
  lemma UpdateWithStoredRecordIsNoop(users: seq<User>, i: int)
    requires UniqueIds(users)
    requires 0 <= i < |users|
    ensures UpdateUser(users, users[i]) == users
  {
  }

  // ---------------------------------------------------------------- deleteUser

  /** The number of records carrying `id`. */
  function CountId(users: seq<User>, id: int): nat
  {
    if |users| == 0 then 0
    else (if users[0].id == id then 1 else 0) + CountId(users[1..], id)
  }

  /** `xs` is `ys` with some elements left out, the rest in their original order. */
  predicate IsSubsequence(xs: seq<User>, ys: seq<User>)
    decreases |ys|
  {
    |xs| == 0 ||
    (|ys| > 0 && ((xs[0] == ys[0] && IsSubsequence(xs[1..], ys[1..])) || IsSubsequence(xs, ys[1..])))
  }

  /** `deleteUser`: keep exactly the records whose id differs from `id`. */
  function DeleteUser(users: seq<User>, id: int): (r: seq<User>)
    ensures forall i | 0 <= i < |r| :: r[i].id != id
    ensures forall u :: u in r <==> u in users && u.id != id
    ensures |r| == |users| - CountId(users, id)
    ensures IsSubsequence(r, users)
  {
    if |users| == 0 then []
    else
      var rest := DeleteUser(users[1..], id);
      if users[0].id == id then
        rest
      else
        assert ([users[0]] + rest)[1..] == rest;
        [users[0]] + rest
  }

  /** Deleting an id that no record carries is a no-op. */
  lemma {:induction false} DeleteAbsentIsNoop(users: seq<User>, id: int)
    requires !HasId(users, id)
    ensures DeleteUser(users, id) == users
  {
    if |users| > 0 {
      assert !HasId(users[1..], id);
      DeleteAbsentIsNoop(users[1..], id);
      assert users == [users[0]] + users[1..];
    }
  }

  /** Deleting the same id twice is the same as deleting it once. */
  lemma {:induction false} DeleteIdempotent(users: seq<User>, id: int)
    ensures DeleteUser(DeleteUser(users, id), id) == DeleteUser(users, id)
  {
    var once := DeleteUser(users, id);
    assert !HasId(once, id);
    DeleteAbsentIsNoop(once, id);
  }

  lemma {:induction false} CountIdUnique(users: seq<User>, id: int)
    requires UniqueIds(users)
    ensures CountId(users, id) == (if HasId(users, id) then 1 else 0)
  {
    if |users| > 0 {
      CountIdUnique(users[1..], id);
      if users[0].id == id {
        assert !HasId(users[1..], id);
        assert HasId(users, id);
      } else {
        assert HasId(users, id) == HasId(users[1..], id) by {
          if HasId(users, id) {
            var k :| 0 <= k < |users| && users[k].id == id;
            assert users[1..][k - 1].id == id;
          }
          if HasId(users[1..], id) {
            var k :| 0 <= k < |users[1..]| && users[1..][k].id == id;
            assert users[k + 1].id == id;
          }
        }
      }
    }
  }

  /** With unique ids, deleting a present id removes exactly one record. */
  lemma DeleteRemovesOne(users: seq<User>, id: int)
    requires UniqueIds(users)
    requires HasId(users, id)
    ensures |DeleteUser(users, id)| == |users| - 1
  {
    CountIdUnique(users, id);
  }

  /** Deleting keeps ids unique. */
  lemma {:induction false} DeleteKeepsUniqueIds(users: seq<User>, id: int)
    requires UniqueIds(users)
    ensures UniqueIds(DeleteUser(users, id))
  {
    if |users| > 0 {
      DeleteKeepsUniqueIds(users[1..], id);
      var rest := DeleteUser(users[1..], id);
      if users[0].id != id {
        TailIdsDiffer(users);
        forall x | x in rest ensures x.id != users[0].id {
          assert x in users[1..];
        }
        ConsKeepsUniqueIds(users[0], rest);
      }
    }
  }

  lemma TailIdsDiffer(users: seq<User>)
    requires UniqueIds(users) && |users| > 0
    ensures forall x | x in users[1..] :: x.id != users[0].id
  {
    forall x | x in users[1..] ensures x.id != users[0].id {
      var k :| 0 <= k < |users[1..]| && users[1..][k] == x;
      assert users[k + 1] == x;
    }
  }

  lemma ConsKeepsUniqueIds(u: User, rest: seq<User>)
    requires UniqueIds(rest)
    requires forall x | x in rest :: x.id != u.id
    ensures UniqueIds([u] + rest)
  {
    var r := [u] + rest;
    forall i, j | 0 <= i < j < |r| ensures r[i].id != r[j].id {
      assert r[j] == rest[j - 1];
      if i > 0 {
        assert r[i] == rest[i - 1];
      }
    }
  }

  /** The loaded records keep the received ids, in order. */
  lemma FreshLoadKeepsIds(data: seq<User>, draws: seq<real>)
    requires |draws| == |data| && ValidDraws(draws)
    ensures Ids(WithLikes(data, draws)) == Ids(data)
  {
    var r := WithLikes(data, draws);
    forall i | 0 <= i < |r| ensures r[i].id == data[i].id {
      assert r[i].(liked := data[i].liked, likeCount := data[i].likeCount) == data[i];
    }
  }

  // ---------------------------------------------------------------- toggleLike

  /** One record after a like toggle: the flag flips and the count (absent
      counts as 0) moves by one in the direction of the new flag. */
  function Toggled(u: User): (t: User)
    ensures t.liked == !u.liked
    ensures t.likeCount.Some?
    ensures LikeCount(t) - LikeCount(u) == (if t.liked then 1 else -1)
    ensures t.(liked := u.liked, likeCount := u.likeCount) == u
  {
    u.(liked := !u.liked,
       likeCount := Some(if u.liked then LikeCount(u) - 1 else LikeCount(u) + 1))
  }

  /** `toggleLike`: toggle every record whose id is `id`, leave the rest. */
  function ToggleLike(users: seq<User>, id: int): (r: seq<User>)
    ensures |r| == |users|
    ensures forall i | 0 <= i < |users| && users[i].id == id :: r[i] == Toggled(users[i])
    ensures forall i | 0 <= i < |users| && users[i].id != id :: r[i] == users[i]
  {
    if |users| == 0 then []
    else [if users[0].id == id then Toggled(users[0]) else users[0]] + ToggleLike(users[1..], id)
  }

  /** Toggling touches only `liked` and `likeCount`: ids, order and every
      other field are kept. */
  lemma ToggleLikeFrame(users: seq<User>, id: int)
    ensures Ids(ToggleLike(users, id)) == Ids(users)
    ensures forall i | 0 <= i < |users| ::
      ToggleLike(users, id)[i].(liked := users[i].liked, likeCount := users[i].likeCount) == users[i]
  {
  }

  /** Toggling twice restores every flag and every numeric count; records
      that already had a count come back exactly. */
  lemma ToggleTwice(users: seq<User>, id: int)
    ensures var r := ToggleLike(ToggleLike(users, id), id);
      |r| == |users| &&
      forall i | 0 <= i < |users| :: r[i].liked == users[i].liked && LikeCount(r[i]) == LikeCount(users[i])
    ensures (forall i | 0 <= i < |users| :: users[i].likeCount.Some?) ==>
      ToggleLike(ToggleLike(users, id), id) == users
  {
    var once := ToggleLike(users, id);
    var r := ToggleLike(once, id);
    forall i | 0 <= i < |users|
      ensures r[i].liked == users[i].liked && LikeCount(r[i]) == LikeCount(users[i])
      ensures users[i].likeCount.Some? ==> r[i] == users[i]
    {
      if users[i].id == id {
        assert r[i] == Toggled(Toggled(users[i]));
      }
    }
  }

  /** Toggling preserves the like invariant on every record. */
  lemma ToggleKeepsValidLikes(users: seq<User>, id: int)
    requires AllValidLikes(users)
    ensures AllValidLikes(ToggleLike(users, id))
  {
    var r := ToggleLike(users, id);
    forall i | 0 <= i < |r| ensures ValidLikes(r[i]) {
      assert ValidLikes(users[i]);
    }
  }

  /** Toggling an id that no record carries is a no-op. */
  lemma ToggleAbsentIsNoop(users: seq<User>, id: int)
    requires !HasId(users, id)
    ensures ToggleLike(users, id) == users
  {
  }

  // ---------------------------------------------------------------- fetchUsers

  /** A thrown value: an `Error` instance with its message, or anything else. */
  datatype Thrown = ErrorInstance(message: string) | OtherValue

  /** What `response.json()` gives: the array of users, or a rejection. */
  datatype Body = UserArray(records: seq<User>) | Unreadable(thrown: Thrown)

  /** The outcome of `fetch`: a response with its `ok` status and body, or a rejection. */
  datatype FetchResult = Responded(ok: bool, body: Body) | Rejected(thrown: Thrown)

  const FetchFailedMessage: string := "Failed to fetch users"
  const FallbackMessage: string := "An error occurred"

  /** The `catch` clause: an `Error`'s message, or the fallback text. */
  function ErrorMessage(t: Thrown): (m: string)
    ensures t.ErrorInstance? ==> m == t.message
    ensures t.OtherValue? ==> m == FallbackMessage
  {
    match t
    case ErrorInstance(msg) => msg
    case OtherValue => FallbackMessage
  }

  /** Whether the load reaches `setUsers`: an ok response whose body reads as an array. */
  predicate Succeeds(result: FetchResult) {
    result.Responded? && result.ok && result.body.UserArray?
  }

  /** The message `setError` receives when the load fails. */
  function FailureMessage(result: FetchResult): (m: string)
    requires !Succeeds(result)
    ensures result.Responded? && !result.ok ==> m == FetchFailedMessage
    ensures result.Responded? && result.ok ==> m == ErrorMessage(result.body.thrown)
    ensures result.Rejected? ==> m == ErrorMessage(result.thrown)
  {
    match result
    case Rejected(t) => ErrorMessage(t)
    case Responded(ok, body) =>
      if !ok then FetchFailedMessage else ErrorMessage(body.thrown)
  }

  /** `Math.random()` draws: each in [0, 1). */
  predicate ValidDraws(draws: seq<real>) {
    forall i | 0 <= i < |draws| :: 0.0 <= draws[i] < 1.0
  }

  /** One draw per received record when the load succeeds. */
  predicate DrawsFor(result: FetchResult, draws: seq<real>) {
    ValidDraws(draws) && (Succeeds(result) ==> |draws| == |result.body.records|)
  }

  /** `Math.floor(Math.random() * 100)`. */
  function InitialLikeCount(d: real): (n: int)
    requires 0.0 <= d < 1.0
    ensures 0 <= n < 100
  {
    (d * 100.0).Floor
  }

  /** A fetched record as `fetchUsers` stores it. */
  predicate FreshRecord(u: User) {
    !u.liked && u.likeCount.Some? && 0 <= u.likeCount.value < 100
  }

  /** The `data.map(...)` step: each record unliked with a drawn initial count,
      every other field as received. */
  function WithLikes(data: seq<User>, draws: seq<real>): (r: seq<User>)
    requires |draws| == |data| && ValidDraws(draws)
    ensures |r| == |data|
    ensures forall i | 0 <= i < |r| ::
      FreshRecord(r[i]) && r[i].(liked := data[i].liked, likeCount := data[i].likeCount) == data[i]
  {
    if |data| == 0 then []
    else
      [data[0].(liked := false, likeCount := Some(InitialLikeCount(draws[0])))]
      + WithLikes(data[1..], draws[1..])
  }

  /** Freshly loaded records satisfy the like invariant. */
  lemma FreshRecordsAreValid(users: seq<User>)
    requires forall i | 0 <= i < |users| :: FreshRecord(users[i])
    ensures AllValidLikes(users)
  {
  }

  /** `setLoading(true)` at the start of `fetchUsers`. */
  function StartLoad(s: Store): (r: Store)
    ensures r.loading
    ensures r.users == s.users && r.error == s.error
  {
    s.(loading := true)
  }

  /** The rest of `fetchUsers`: on success the users are replaced, on failure
      the error is set and the users are left alone; `loading` ends false
      either way and the error is never cleared. */
  function SettleLoad(s: Store, result: FetchResult, draws: seq<real>): (r: Store)
    requires DrawsFor(result, draws)
    ensures !r.loading
    ensures Succeeds(result) ==> r.error == s.error && |r.users| == |result.body.records|
    ensures Succeeds(result) ==> forall i | 0 <= i < |r.users| ::
      FreshRecord(r.users[i]) &&
      r.users[i].(liked := false, likeCount := None) == result.body.records[i].(liked := false, likeCount := None)
    ensures !Succeeds(result) ==> r.users == s.users && r.error == Some(FailureMessage(result))
  {
    if Succeeds(result) then
      s.(users := WithLikes(result.body.records, draws), loading := false)
    else
      s.(error := Some(FailureMessage(result)), loading := false)
  }

  /** The whole `fetchUsers` call as one transition. */
  function FetchUsers(s: Store, result: FetchResult, draws: seq<real>): (r: Store)
    requires DrawsFor(result, draws)
    ensures !r.loading
    ensures s.error.Some? ==> r.error.Some?
    ensures Succeeds(result) ==> r.error == s.error && |r.users| == |result.body.records|
    ensures Succeeds(result) ==> forall i | 0 <= i < |r.users| ::
      FreshRecord(r.users[i]) &&
      r.users[i].(liked := false, likeCount := None) == result.body.records[i].(liked := false, likeCount := None)
    ensures Succeeds(result) ==> AllValidLikes(r.users)
    ensures !Succeeds(result) ==> r.users == s.users && r.error == Some(FailureMessage(result))
  {
    var r := SettleLoad(StartLoad(s), result, draws);
    FreshRecordsAreValid(if Succeeds(result) then r.users else []);
    r
  }

  /** Neither half of a load ever resets a set error. */
  lemma ErrorIsSticky(s: Store, result: FetchResult, draws: seq<real>)
    requires DrawsFor(result, draws)
    requires s.error.Some?
    ensures StartLoad(s).error.Some?
    ensures SettleLoad(s, result, draws).error.Some?
  {
  }

  /** The first load from the initial state: the failure path leaves no users
      and an error, the success path leaves one fresh record per received one. */
  lemma FirstLoad(result: FetchResult, draws: seq<real>)
    requires DrawsFor(result, draws)
    ensures var r := FetchUsers(InitialStore(), result, draws);
      !r.loading &&
      (Succeeds(result) ==> r.error.None? && |r.users| == |result.body.records| && AllValidLikes(r.users)) &&
      (!Succeeds(result) ==> r.users == [] && r.error == Some(FailureMessage(result)))
  {
  }
}
