/** The `user` table operations (`UserRepository`). A subscriber's session is
    a two-state machine: a stored token means active, a null token expired. */
module UserRepository {
  import opened Wrappers
  import opened Seqs
  import opened Schema

  /** `get`: the enabled users holding a token, in table order. */
  function Get(t: UserTable): (r: UserTable)
    ensures forall x :: x in r <==> x in t && x.enabled && x.token.Some?
  {
    Filter(t, (x: User) => x.enabled && x.token.Some?)
  }

  /** `getExpired`: the enabled users whose token is null, in table order. */
  function GetExpired(t: UserTable): (r: UserTable)
    ensures forall x :: x in r <==> x in t && x.enabled && x.token.None?
  {
    Filter(t, (x: User) => x.enabled && x.token.None?)
  }

  function Enabled(t: UserTable): UserTable {
    Filter(t, (x: User) => x.enabled)
  }

  /** `get` and `getExpired` split the enabled users between them, row for
      row; disabled users are in neither. */
  lemma {:induction false} ActiveAndExpiredPartitionEnabled(t: UserTable)
    ensures multiset(Get(t)) + multiset(GetExpired(t)) == multiset(Enabled(t))
    ensures forall x :: x in t && !x.enabled ==> x !in Get(t) && x !in GetExpired(t)
  {
    if |t| > 0 {
      ActiveAndExpiredPartitionEnabled(t[1..]);
    }
  }

  /** `removeTokenByUserIds`: null the token of every enabled user listed in
      `ids`. Disabled users, unlisted users and every other column are left
      as they were. */
  function RemoveTokenByUserIds(t: UserTable, ids: seq<int>): (r: UserTable)
    ensures |r| == |t|
    ensures forall i :: 0 <= i < |t| ==>
      r[i].token == (if t[i].enabled && t[i].id in ids then None else t[i].token)
    ensures forall i :: 0 <= i < |t| ==> r[i] == t[i].(token := r[i].token)
  {
    seq(|t|, i requires 0 <= i < |t| =>
      if t[i].enabled && t[i].id in ids then t[i].(token := None) else t[i])
  }

  /** After `removeTokenByUserIds`, every enabled listed user is expired:
      returned by `getExpired` and no longer by `get`. */
  lemma RemovedUsersAreExpired(t: UserTable, ids: seq<int>)
    ensures var r := RemoveTokenByUserIds(t, ids);
      forall i :: 0 <= i < |t| && t[i].enabled && t[i].id in ids ==>
        r[i] in GetExpired(r) && r[i] !in Get(r)
  {
    var r := RemoveTokenByUserIds(t, ids);
    forall i | 0 <= i < |t| && t[i].enabled && t[i].id in ids
      ensures r[i] in GetExpired(r) && r[i] !in Get(r)
    {
      assert r[i] in r;
    }
  }

  /** `updateTokenByUserId`: store `token` on the rows with id `id`, and
      change nothing else. */
  function UpdateTokenByUserId(t: UserTable, id: int, token: string): (r: UserTable)
    ensures |r| == |t|
    ensures forall i :: 0 <= i < |t| ==>
      r[i].token == (if t[i].id == id then Some(token) else t[i].token)
    ensures forall i :: 0 <= i < |t| ==> r[i] == t[i].(token := r[i].token)
  {
    seq(|t|, i requires 0 <= i < |t| => if t[i].id == id then t[i].(token := Some(token)) else t[i])
  }

  /** `setErrorByUserId`: store `error` (or clear it, with `None`) on the rows
      with id `id`, and change nothing else. */
  function SetErrorByUserId(t: UserTable, id: int, error: Option<string>): (r: UserTable)
    ensures |r| == |t|
    ensures forall i :: 0 <= i < |t| ==>
      r[i].error == (if t[i].id == id then error else t[i].error)
    ensures forall i :: 0 <= i < |t| ==> r[i] == t[i].(error := r[i].error)
  {
    seq(|t|, i requires 0 <= i < |t| => if t[i].id == id then t[i].(error := error) else t[i])
  }

  /** Storing a token no other user holds keeps the table's unique columns
      unique. */
  lemma UpdateTokenKeepsWellFormed(t: UserTable, id: int, token: string)
    requires WellFormedUsers(t)
    requires forall i :: 0 <= i < |t| && t[i].id != id ==> t[i].token != Some(token)
    ensures WellFormedUsers(UpdateTokenByUserId(t, id, token))
  {
  }

  /** Clearing tokens and errors never breaks a unique column. */
  lemma ClearingKeepsWellFormed(t: UserTable, ids: seq<int>, id: int, error: Option<string>)
    requires WellFormedUsers(t)
    ensures WellFormedUsers(RemoveTokenByUserIds(t, ids))
    ensures WellFormedUsers(SetErrorByUserId(t, id, error))
  {
  }
}
