/** The credential lifecycle (`UserService`): expiring sessions and logging
    users back in. Each login call's outcome is an input, matched to the
    users by position, as the source matches settled promises by index. */
module UserService {
  import opened Wrappers
  import opened Seqs
  import opened Schema
  import Racional
  import opened UserRepository

  /** What one login call produced: the response body or the raw error. */
  type LoginCall = Result<Racional.LoginResponse, Racional.RawError>

  function Ids(users: seq<User>): (r: seq<int>)
    ensures |r| == |users| && forall i :: 0 <= i < |users| ==> r[i] == users[i].id
  {
    seq(|users|, i requires 0 <= i < |users| => users[i].id)
  }

  /** `processExpiredUsers`: the table after the tokens are cleared, and the
      list handed to the background `refreshTokens` call. */
  datatype Processed = Processed(table: UserTable, scheduled: seq<User>)

  /** `processExpiredUsers`: clear the tokens of the given users, then
      schedule a refresh of exactly the same list. */
  function ProcessExpiredUsers(t: UserTable, users: seq<User>): (r: Processed)
    ensures r.scheduled == users
    ensures |r.table| == |t|
    ensures forall j :: 0 <= j < |t| ==>
      r.table[j] == (if t[j].enabled && t[j].id in Ids(users) then t[j].(token := None) else t[j])
  {
    Processed(RemoveTokenByUserIds(t, Ids(users)), users)
  }

  /** The users `refreshTokens` works on: the list it is given, or every
      expired user when it is given none or an empty one. */
  function RefreshList(t: UserTable, users: Option<seq<User>>): (r: seq<User>)
    ensures users.Some? && |users.value| > 0 ==> r == users.value
    ensures users.None? || |users.value| == 0 ==> r == GetExpired(t)
  {
    if users.None? || |users.value| == 0 then GetExpired(t) else users.value
  }

  /** One write to the `user` table. */
  datatype Write = StoreToken(userId: int, token: string) | StoreError(userId: int, message: string)

  /** The write a login outcome calls for: the new token, or the message of
      the error `login` threw. */
  function WriteFor(u: User, call: LoginCall): (w: Write)
    ensures w.userId == u.id
    ensures w.StoreToken? <==> call.Success?
    ensures call.Success? ==> w.token == call.value.idToken
    ensures call.Failure? ==> w.message == Racional.Message(Racional.ClassifyLoginError(call.error))
  {
    match Racional.Login(call)
    case Success(body) => StoreToken(u.id, body.idToken)
    case Failure(e) => StoreError(u.id, Racional.Message(e))
  }

  /** The effect of one write on one row. */
  function ApplyToRow(row: User, w: Write): User {
    match w
    case StoreToken(_, token) => row.(token := Some(token))
    case StoreError(_, message) => row.(error := Some(message))
  }

  function Apply(t: UserTable, w: Write): (r: UserTable)
    ensures |r| == |t|
  {
    match w
    case StoreToken(id, token) => UpdateTokenByUserId(t, id, token)
    case StoreError(id, message) => SetErrorByUserId(t, id, Some(message))
  }

  /** The writes applied one after another. */
  function ApplyAll(t: UserTable, ws: seq<Write>): (r: UserTable)
    ensures |r| == |t|
    decreases |ws|
  {
    if |ws| == 0 then t else ApplyAll(Apply(t, ws[0]), ws[1..])
  }

  /** Writes only ever touch the token and error columns, and only of the
      rows they address. */
  lemma {:induction false} ApplyAllFrame(t: UserTable, ws: seq<Write>)
    ensures var r := ApplyAll(t, ws);
      && (forall j :: 0 <= j < |t| ==> r[j] == t[j].(token := r[j].token, error := r[j].error))
      && (forall j :: 0 <= j < |t| && (forall k :: 0 <= k < |ws| ==> ws[k].userId != t[j].id) ==> r[j] == t[j])
    decreases |ws|
  {
    if |ws| > 0 {
      var t1 := Apply(t, ws[0]);
      ApplyAllFrame(t1, ws[1..]);
      assert forall j :: 0 <= j < |t| ==> t1[j].id == t[j].id;
      forall j | 0 <= j < |t| && (forall k :: 0 <= k < |ws| ==> ws[k].userId != t[j].id)
        ensures ApplyAll(t, ws)[j] == t[j]
      {
        assert ws[0].userId != t[j].id;
        assert forall k :: 0 <= k < |ws[1..]| ==> ws[1..][k].userId != t1[j].id by {
          forall k | 0 <= k < |ws[1..]|
            ensures ws[1..][k].userId != t1[j].id
          {
            assert ws[1..][k] == ws[k + 1];
          }
        }
      }
    }
  }

  /** No user is addressed by two writes. */
  ghost predicate OnePerUser(ws: seq<Write>) {
    forall i, j :: 0 <= i < j < |ws| ==> ws[i].userId != ws[j].userId
  }

  /** When each user is addressed by at most one write, a row ends up with the
      effect of the write addressing it. */
  lemma {:induction false} ApplyAllAddressed(t: UserTable, ws: seq<Write>, k: int, j: int)
    requires OnePerUser(ws)
    requires 0 <= k < |ws| && 0 <= j < |t| && ws[k].userId == t[j].id
    ensures ApplyAll(t, ws)[j] == ApplyToRow(t[j], ws[k])
    decreases |ws|
  {
    var t1 := Apply(t, ws[0]);
    assert t1[j].id == t[j].id;
    if k == 0 {
      assert t1[j] == ApplyToRow(t[j], ws[0]);
      ApplyAllFrame(t1, ws[1..]);
      assert forall i :: 0 <= i < |ws[1..]| ==> ws[1..][i].userId != t1[j].id by {
        forall i | 0 <= i < |ws[1..]|
          ensures ws[1..][i].userId != t1[j].id
        {
          assert ws[1..][i] == ws[i + 1];
        }
      }
    } else {
      assert ws[0].userId != t[j].id;
      assert t1[j] == t[j];
      ApplyAllAddressed(t1, ws[1..], k - 1, j);
    }
  }

  /** The write each listed user's login calls for, by position. */
  function AllWrites(list: seq<User>, calls: seq<LoginCall>): (ws: seq<Write>)
    requires |calls| == |list|
    ensures |ws| == |list| && forall i :: 0 <= i < |list| ==> ws[i] == WriteFor(list[i], calls[i])
  {
    seq(|list|, i requires 0 <= i < |list| => WriteFor(list[i], calls[i]))
  }

  /** The writes in the order they are issued: token writes, then error writes. */
  function IssuedWrites(list: seq<User>, calls: seq<LoginCall>): seq<Write>
    requires |calls| == |list|
  {
    var all := AllWrites(list, calls);
    Filter(all, (w: Write) => w.StoreToken?) + Filter(all, (w: Write) => w.StoreError?)
  }

  /** The issued writes are the per-user writes, reordered. */
  lemma IssuedIsPermutation(list: seq<User>, calls: seq<LoginCall>)
    requires |calls| == |list|
    ensures multiset(IssuedWrites(list, calls)) == multiset(AllWrites(list, calls))
    ensures |IssuedWrites(list, calls)| == |list|
  {
    var all := AllWrites(list, calls);
    FilterSplit(all, (w: Write) => w.StoreToken?, (w: Write) => w.StoreError?);
    assert |multiset(IssuedWrites(list, calls))| == |multiset(all)|;
  }

  /** The issued writes touch only the token and error of the listed users. */
  lemma RefreshFrame(t: UserTable, list: seq<User>, calls: seq<LoginCall>)
    requires |calls| == |list|
    ensures var r := ApplyAll(t, IssuedWrites(list, calls));
      && (forall j :: 0 <= j < |t| ==> r[j] == t[j].(token := r[j].token, error := r[j].error))
      && (forall j :: 0 <= j < |t| && t[j].id !in Ids(list) ==> r[j] == t[j])
  {
    var all := AllWrites(list, calls);
    var writes := IssuedWrites(list, calls);
    ApplyAllFrame(t, writes);
    IssuedIsPermutation(list, calls);
    forall j | 0 <= j < |t| && t[j].id !in Ids(list)
      ensures forall k :: 0 <= k < |writes| ==> writes[k].userId != t[j].id
    {
      forall k | 0 <= k < |writes|
        ensures writes[k].userId != t[j].id
      {
        assert writes[k] in multiset(all);
        var i :| 0 <= i < |all| && all[i] == writes[k];
        assert Ids(list)[i] == list[i].id;
      }
    }
  }

  /** With no user listed twice, each listed user's rows end up with the
      effect of that user's own login outcome. */
  lemma RefreshPerUser(t: UserTable, list: seq<User>, calls: seq<LoginCall>)
    requires |calls| == |list|
    requires NoDuplicates(Ids(list))
    ensures forall i, j :: 0 <= i < |list| && 0 <= j < |t| && t[j].id == list[i].id ==>
      ApplyAll(t, IssuedWrites(list, calls))[j] == ApplyToRow(t[j], WriteFor(list[i], calls[i]))
  {
    IssuedNoDuplicates(list, calls);
    RefreshRows(t, list, AllWrites(list, calls), IssuedWrites(list, calls));
  }

  /** No user is listed twice, so no write is issued twice. */
  lemma IssuedNoDuplicates(list: seq<User>, calls: seq<LoginCall>)
    requires |calls| == |list|
    requires NoDuplicates(Ids(list))
    ensures NoDuplicates(IssuedWrites(list, calls))
    ensures forall w :: w in IssuedWrites(list, calls) <==> w in AllWrites(list, calls)
  {
    var all := AllWrites(list, calls);
    var writes := IssuedWrites(list, calls);
    assert NoDuplicates(all) by {
      forall a, b | 0 <= a < b < |all|
        ensures all[a] != all[b]
      {
        assert Ids(list)[a] != Ids(list)[b];
      }
    }
    var tokens := Filter(all, (w: Write) => w.StoreToken?);
    var errors := Filter(all, (w: Write) => w.StoreError?);
    FilterNoDuplicates(all, (w: Write) => w.StoreToken?);
    FilterNoDuplicates(all, (w: Write) => w.StoreError?);
    assert writes == tokens + errors;
    forall a, b | 0 <= a < b < |writes|
      ensures writes[a] != writes[b]
    {
      if a < |tokens| && b >= |tokens| {
        assert writes[a].StoreToken? && writes[b].StoreError?;
      }
    }
  }

  /** Every user's write reaches that user's rows, whatever order the writes
      are issued in, as long as no user is listed twice. */
  lemma RefreshRows(t: UserTable, list: seq<User>, all: seq<Write>, writes: seq<Write>)
    requires NoDuplicates(Ids(list))
    requires |all| == |list| && forall i :: 0 <= i < |all| ==> all[i].userId == list[i].id
    requires NoDuplicates(writes)
    requires forall w :: w in writes <==> w in all
    ensures forall i, j :: 0 <= i < |list| && 0 <= j < |t| && t[j].id == list[i].id ==>
      ApplyAll(t, writes)[j] == ApplyToRow(t[j], all[i])
  {
    assert OnePerUser(writes) by {
      forall a, b | 0 <= a < b < |writes|
        ensures writes[a].userId != writes[b].userId
      {
        assert writes[a] in all && writes[b] in all;
        var a' :| 0 <= a' < |all| && all[a'] == writes[a];
        var b' :| 0 <= b' < |all| && all[b'] == writes[b];
        assert a' != b';
        if a' < b' {
          assert Ids(list)[a'] != Ids(list)[b'];
        } else {
          assert Ids(list)[b'] != Ids(list)[a'];
        }
      }
    }
    forall i, j | 0 <= i < |list| && 0 <= j < |t| && t[j].id == list[i].id
      ensures ApplyAll(t, writes)[j] == ApplyToRow(t[j], all[i])
    {
      assert all[i] in writes;
      var k :| 0 <= k < |writes| && writes[k] == all[i];
      ApplyAllAddressed(t, writes, k, j);
    }
  }

  /** The result of `refreshTokens`: the table after the writes, the users a
      login was attempted for (in call order) and the writes issued. */
  datatype Refresh = Refresh(table: UserTable, logins: seq<User>, writes: seq<Write>)

  /** `refreshTokens`: log every listed user in (one call each), then store
      the new token of each success and the error message of each failure.
      The token writes are issued before the error writes, as the source
      concatenates the two batches. */
  function RefreshTokens(t: UserTable, users: Option<seq<User>>, calls: seq<LoginCall>): (r: Refresh)
    requires |calls| == |RefreshList(t, users)|
    ensures var list := RefreshList(t, users);
      && r.logins == list
      && |r.writes| == |list|
      && multiset(r.writes) == multiset(AllWrites(list, calls))
    ensures |RefreshList(t, users)| == 0 ==> r.table == t && r.writes == []
    ensures |r.table| == |t|
    ensures forall j :: 0 <= j < |t| ==> r.table[j] == t[j].(token := r.table[j].token, error := r.table[j].error)
    ensures forall j :: 0 <= j < |t| && t[j].id !in Ids(RefreshList(t, users)) ==> r.table[j] == t[j]
    ensures var list := RefreshList(t, users);
      NoDuplicates(Ids(list)) ==>
      forall i, j :: 0 <= i < |list| && 0 <= j < |t| && t[j].id == list[i].id ==>
        && r.table[j].token == (if calls[i].Success? then Some(calls[i].value.idToken) else t[j].token)
        && r.table[j].error == (if calls[i].Success? then t[j].error
                                else Some(Racional.Message(Racional.ClassifyLoginError(calls[i].error))))
  {
    var list := RefreshList(t, users);
    if |list| == 0 then Refresh(t, [], [])
    else
      var writes := IssuedWrites(list, calls);
      IssuedIsPermutation(list, calls);
      RefreshFrame(t, list, calls);
      assert NoDuplicates(Ids(list)) ==>
        forall i, j :: 0 <= i < |list| && 0 <= j < |t| && t[j].id == list[i].id ==>
          ApplyAll(t, writes)[j] == ApplyToRow(t[j], WriteFor(list[i], calls[i])) by {
        if NoDuplicates(Ids(list)) {
          RefreshPerUser(t, list, calls);
        }
      }
      Refresh(ApplyAll(t, writes), list, writes)
  }

  /** The credential cycle of one enabled user: expiring the session and
      failing the next login leaves the user expired with the failure
      recorded; a later successful login makes the user active again but
      leaves the recorded error in place, since only the token is written. */
  lemma CredentialCycle(t: UserTable, j: int, failed: Racional.RawError, body: Racional.LoginResponse)
    requires 0 <= j < |t| && t[j].enabled
    ensures var p := ProcessExpiredUsers(t, [t[j]]);
      var r1 := RefreshTokens(p.table, Some(p.scheduled), [Failure(failed)]);
      var r2 := RefreshTokens(r1.table, Some([r1.table[j]]), [Success(body)]);
      && r1.table[j] in GetExpired(r1.table)
      && r1.table[j].error == Some(Racional.Message(Racional.ClassifyLoginError(failed)))
      && r2.table[j] in Get(r2.table)
      && r2.table[j].token == Some(body.idToken)
      && r2.table[j].error == r1.table[j].error
  {
    var p := ProcessExpiredUsers(t, [t[j]]);
    ExpireThenFail(t, j, failed);
    var r1 := RefreshTokens(p.table, Some(p.scheduled), [Failure(failed)]);
    Relogin(r1.table, j, body);
  }

  /** Expiring an enabled user's session and failing the re-login leaves the
      user expired, with the classified failure recorded. */
  lemma ExpireThenFail(t: UserTable, j: int, failed: Racional.RawError)
    requires 0 <= j < |t| && t[j].enabled
    ensures var p := ProcessExpiredUsers(t, [t[j]]);
      var r1 := RefreshTokens(p.table, Some(p.scheduled), [Failure(failed)]);
      && |r1.table| == |t|
      && r1.table[j].enabled
      && r1.table[j] in GetExpired(r1.table)
      && r1.table[j].error == Some(Racional.Message(Racional.ClassifyLoginError(failed)))
  {
    var p := ProcessExpiredUsers(t, [t[j]]);
    assert Ids([t[j]]) == [t[j].id];
    assert p.table[j].token.None?;
    var r1 := RefreshTokens(p.table, Some(p.scheduled), [Failure(failed)]);
    assert RefreshList(p.table, Some(p.scheduled)) == [t[j]];
    assert NoDuplicates(Ids([t[j]]));
    assert r1.table[j] in r1.table;
  }

  /** A successful re-login of an enabled user makes the user active, stores
      the new token and leaves the recorded error as it was. */
  lemma Relogin(t: UserTable, j: int, body: Racional.LoginResponse)
    requires 0 <= j < |t| && t[j].enabled
    ensures var r := RefreshTokens(t, Some([t[j]]), [Success(body)]);
      && r.table[j] in Get(r.table)
      && r.table[j].token == Some(body.idToken)
      && r.table[j].error == t[j].error
  {
    var r := RefreshTokens(t, Some([t[j]]), [Success(body)]);
    assert Ids([t[j]]) == [t[j].id];
    assert NoDuplicates(Ids([t[j]]));
    assert r.table[j] in r.table;
  }
}
