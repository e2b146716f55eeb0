/** The two tables of the store: `user` (the subscribers) and `stock` (the
    tracked assets), with the uniqueness and default rules the schema declares. */
module Schema {
  import opened Wrappers

  /** One threshold of a tracked asset's ladder: `value` is a total-return
      percentage; `active` is the stored `in` flag (the threshold is part of
      the bracket the return currently sits in). */
  datatype StockRange = StockRange(value: real, active: bool)

  /** A row of the `stock` table. The auto-increment row id is not modelled:
      rows are identified by their (userId, assetId) key. */
  datatype Stock = Stock(userId: int, assetId: string, ranges: seq<StockRange>)

  /** A row of the `user` table. `token` and `error` are nullable columns. */
  datatype User = User(
    id: int,
    chatId: string,
    email: string,
    password: string,
    token: Option<string>,
    enabled: bool,
    error: Option<string>)

  type StockTable = seq<Stock>
  type UserTable = seq<User>

  /** At most one stock row per (userId, assetId). */
  ghost predicate UniqueStockKeys(t: StockTable) {
    forall i, j :: 0 <= i < j < |t| ==>
      t[i].userId != t[j].userId || t[i].assetId != t[j].assetId
  }

  /** The unique columns of `user`: id (primary key), chatId, email, the
      (chatId, email) pair, and token among the rows where it is not null. */
  ghost predicate WellFormedUsers(t: UserTable) {
    forall i, j :: 0 <= i < j < |t| ==>
      && t[i].id != t[j].id
      && t[i].chatId != t[j].chatId
      && t[i].email != t[j].email
      && (t[i].chatId, t[i].email) != (t[j].chatId, t[j].email)
      && (t[i].token.Some? ==> t[i].token != t[j].token)
  }

  /** Why the database refuses an insert. */
  datatype Violation = DuplicateId | DuplicateChatId | DuplicateEmail

  /** Inserting a user row as the schema declares it: the row gets the column
      defaults (`enabled = true`, `error = null`, and a null token), and the
      insert is refused when it would break a unique column. */
  function InsertUser(t: UserTable, id: int, chatId: string, email: string, password: string)
    : (r: Result<UserTable, Violation>)
    ensures r.Success? <==>
      forall i :: 0 <= i < |t| ==> t[i].id != id && t[i].chatId != chatId && t[i].email != email
    ensures r.Success? ==> |r.value| == |t| + 1 && r.value[..|t|] == t
    ensures r.Success? ==> var u := r.value[|t|];
      u.id == id && u.chatId == chatId && u.email == email && u.password == password
      && u.enabled && u.error.None? && u.token.None?
    ensures r.Success? && WellFormedUsers(t) ==> WellFormedUsers(r.value)
  {
    if exists i :: 0 <= i < |t| && t[i].id == id then Failure(DuplicateId)
    else if exists i :: 0 <= i < |t| && t[i].chatId == chatId then Failure(DuplicateChatId)
    else if exists i :: 0 <= i < |t| && t[i].email == email then Failure(DuplicateEmail)
    else Success(t + [User(id, chatId, email, password, None, true, None)])
  }
}
