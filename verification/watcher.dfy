/** One watch cycle (`WatcherService.checkStocks`) as the ordered trace of
    the calls it makes. What the collaborators return (the fetched positions
    and the variations found per user) is an input; the active users are read
    from the user table. Concurrent fan-outs appear in issue order. */
module Watcher {
  import opened Wrappers
  import opened Seqs
  import opened Schema
  import Racional
  import opened UserRepository

  /** One user's positions, as the fetch reports them. */
  datatype StockResult = StockResult(userId: int, stocks: seq<Racional.Position>)

  /** A fetch that failed for a reason other than an expired session. */
  datatype FetchError = FetchError(userId: int, message: string)

  /** What fetching every active user's positions returns. */
  datatype UserStocks = UserStocks(expiredUsers: seq<User>, stockResults: seq<StockResult>, errors: seq<FetchError>)

  /** A position whose bracket moved: the new total return, the day's
      variation shown to the user and the ladder to store. */
  datatype VariationResult = VariationResult(
    userId: int, assetId: string, newValue: real, variation: real, newRanges: seq<StockRange>)

  /** A call the cycle makes. */
  datatype Event =
    | ReadUsers
    | FetchUserStocks(users: seq<User>)
    | ScheduleProcessExpired(users: seq<User>)
    | LogFetchError(userId: int, message: string)
    | SyncUserStocks(userId: int, assetIds: seq<string>)
    | CompareStocks(userId: int, stocks: seq<Racional.Position>)
    | UpdateStockRanges(variations: seq<VariationResult>)
    | NotifyVariation(chatId: Option<string>, variation: VariationResult)

  /** The stage of the cycle an event belongs to, in the order the stages run. */
  function Stage(e: Event): (s: nat)
    ensures s <= NotifyStage
    ensures s == SyncStage <==> e.SyncUserStocks?
    ensures s == CompareStage <==> e.CompareStocks?
    ensures s == UpdateStage <==> e.UpdateStockRanges?
    ensures s == NotifyStage <==> e.NotifyVariation?
  {
    match e
    case SyncUserStocks(_, _) => SyncStage
    case CompareStocks(_, _) => CompareStage
    case UpdateStockRanges(_) => UpdateStage
    case NotifyVariation(_, _) => NotifyStage
    case _ => HeadStage
  }

  const HeadStage: nat := 0
  const SyncStage: nat := 1
  const CompareStage: nat := 2
  const UpdateStage: nat := 3
  const NotifyStage: nat := 4

  /** The events of stage `k`, in trace order. */
  function Project(tr: seq<Event>, k: nat): (r: seq<Event>)
    ensures |r| <= |tr|
    ensures forall e :: e in r <==> e in tr && Stage(e) == k
  {
    if |tr| == 0 then []
    else (if Stage(tr[0]) == k then [tr[0]] else []) + Project(tr[1..], k)
  }

  lemma {:induction false} ProjectConcat(a: seq<Event>, b: seq<Event>, k: nat)
    ensures Project(a + b, k) == Project(a, k) + Project(b, k)
    decreases |a|
  {
    if |a| > 0 {
      assert (a + b)[1..] == a[1..] + b;
      ProjectConcat(a[1..], b, k);
    } else {
      assert a + b == b;
    }
  }

  /** A segment whose events are all of stage `j` projects to itself on
      stage `j` and to nothing on any other. */
  lemma {:induction false} ProjectUniform(s: seq<Event>, j: nat, k: nat)
    requires forall i :: 0 <= i < |s| ==> Stage(s[i]) == j
    ensures Project(s, k) == if k == j then s else []
    decreases |s|
  {
    if |s| > 0 {
      ProjectUniform(s[1..], j, k);
    }
  }

  /** Stages never go back: every event of a stage comes after all events
      of the earlier stages. */
  ghost predicate Staged(tr: seq<Event>) {
    forall i, j :: 0 <= i < j < |tr| ==> Stage(tr[i]) <= Stage(tr[j])
  }

  lemma AppendStage(a: seq<Event>, b: seq<Event>, k: nat)
    requires Staged(a)
    requires forall i :: 0 <= i < |a| ==> Stage(a[i]) <= k
    requires forall i :: 0 <= i < |b| ==> Stage(b[i]) == k
    ensures Staged(a + b)
    ensures forall i :: 0 <= i < |a + b| ==> Stage((a + b)[i]) <= k
  {
  }

  function LogEvents(errors: seq<FetchError>): (r: seq<Event>)
    ensures |r| == |errors| && forall i :: 0 <= i < |errors| ==> r[i] == LogFetchError(errors[i].userId, errors[i].message)
  {
    seq(|errors|, i requires 0 <= i < |errors| => LogFetchError(errors[i].userId, errors[i].message))
  }

  /** One sync per fetched user, with the asset ids of that user's positions. */
  function SyncEvents(results: seq<StockResult>): (r: seq<Event>)
    ensures |r| == |results|
    ensures forall i :: 0 <= i < |results| ==>
      && r[i].SyncUserStocks? && r[i].userId == results[i].userId
      && |r[i].assetIds| == |results[i].stocks|
      && forall j :: 0 <= j < |results[i].stocks| ==> r[i].assetIds[j] == results[i].stocks[j].assetId
  {
    seq(|results|, i requires 0 <= i < |results| =>
      var stocks := results[i].stocks;
      SyncUserStocks(results[i].userId, seq(|stocks|, j requires 0 <= j < |stocks| => stocks[j].assetId)))
  }

  function CompareEvents(results: seq<StockResult>): (r: seq<Event>)
    ensures |r| == |results|
    ensures forall i :: 0 <= i < |results| ==> r[i] == CompareStocks(results[i].userId, results[i].stocks)
  {
    seq(|results|, i requires 0 <= i < |results| => CompareStocks(results[i].userId, results[i].stocks))
  }

  /** The chat id the cycle's `Map` from user id to chat id holds for `id`:
      the last listed user with that id wins, and a missing id gives nothing. */
  function ChatIdOf(users: seq<User>, id: int): (r: Option<string>)
    ensures r.None? <==> forall k :: 0 <= k < |users| ==> users[k].id != id
    ensures r.Some? ==> exists k :: 0 <= k < |users| && users[k].id == id && users[k].chatId == r.value
    decreases |users|
  {
    if |users| == 0 then None
    else if users[|users| - 1].id == id then Some(users[|users| - 1].chatId)
    else
      var init := users[..|users| - 1];
      assert forall k :: 0 <= k < |init| ==> init[k] == users[k];
      ChatIdOf(init, id)
  }

  /** With one row per user id, the chat id found is that user's own. */
  lemma {:induction false} ChatIdOfOwner(users: seq<User>, k: int)
    requires forall a, b :: 0 <= a < b < |users| ==> users[a].id != users[b].id
    requires 0 <= k < |users|
    ensures ChatIdOf(users, users[k].id) == Some(users[k].chatId)
    decreases |users|
  {
    if k != |users| - 1 {
      var init := users[..|users| - 1];
      assert init[k] == users[k];
      ChatIdOfOwner(init, k);
    }
  }

  function NotifyEvents(users: seq<User>, vs: seq<VariationResult>): (r: seq<Event>)
    ensures |r| == |vs|
    ensures forall i :: 0 <= i < |vs| ==> r[i] == NotifyVariation(ChatIdOf(users, vs[i].userId), vs[i])
  {
    seq(|vs|, i requires 0 <= i < |vs| => NotifyVariation(ChatIdOf(users, vs[i].userId), vs[i]))
  }

  /** The events before the first sync: the read of the users, the fetch of
      their positions, the background refresh of the expired ones and one log
      line per failed fetch. */
  function Head(users: seq<User>, fetched: UserStocks): (r: seq<Event>)
    ensures forall i :: 0 <= i < |r| ==> Stage(r[i]) == HeadStage
  {
    [ReadUsers, FetchUserStocks(users)]
      + (if |fetched.expiredUsers| > 0 then [ScheduleProcessExpired(fetched.expiredUsers)] else [])
      + LogEvents(fetched.errors)
  }

  /** The first stage schedules the refresh once, exactly when some user
      expired, and logs exactly the fetch errors. */
  lemma HeadFacts(users: seq<User>, fetched: UserStocks)
    ensures ScheduleProcessExpired(fetched.expiredUsers) in Head(users, fetched) <==> |fetched.expiredUsers| > 0
    ensures forall e :: e in Head(users, fetched) && e.ScheduleProcessExpired? ==>
      e == ScheduleProcessExpired(fetched.expiredUsers)
    ensures forall e :: e in fetched.errors ==> LogFetchError(e.userId, e.message) in Head(users, fetched)
    ensures multiset(Head(users, fetched))[ScheduleProcessExpired(fetched.expiredUsers)] ==
      if |fetched.expiredUsers| > 0 then 1 else 0
    ensures forall e :: e in Head(users, fetched) && e.LogFetchError? ==>
      exists er :: er in fetched.errors && e == LogFetchError(er.userId, er.message)
  {
    var head := Head(users, fetched);
    var logs := LogEvents(fetched.errors);
    if |fetched.expiredUsers| > 0 {
      assert head[2] == ScheduleProcessExpired(fetched.expiredUsers);
    }
    forall e | e in fetched.errors
      ensures LogFetchError(e.userId, e.message) in head
    {
      var k :| 0 <= k < |fetched.errors| && fetched.errors[k] == e;
      assert logs[k] in logs;
    }
    var sched := if |fetched.expiredUsers| > 0 then [ScheduleProcessExpired(fetched.expiredUsers)] else [];
    assert head == [ReadUsers, FetchUserStocks(users)] + sched + logs;
    assert ScheduleProcessExpired(fetched.expiredUsers) !in logs;
    forall e | e in head && e.LogFetchError?
      ensures exists er :: er in fetched.errors && e == LogFetchError(er.userId, er.message)
    {
      assert e in logs;
      var k :| 0 <= k < |logs| && logs[k] == e;
      assert fetched.errors[k] in fetched.errors;
    }
  }

  /** The cycle `checkStocks` runs once it has read the active users
      `users`. Each stage is present only when the earlier one produced
      something: no active users, no fetch; no positions, no sync or
      comparison; no variations, no update or notification. */
  function Cycle(users: seq<User>, fetched: UserStocks, compared: seq<seq<VariationResult>>): (tr: seq<Event>)
    requires |compared| == |fetched.stockResults|
    ensures |users| == 0 <==> tr == [ReadUsers]
    ensures |tr| > 0 && forall i :: 0 <= i < |tr| ==> (tr[i] == ReadUsers <==> i == 0)
    ensures |users| > 0 ==> |tr| > 1 && tr[1] == FetchUserStocks(users)
    ensures forall i :: 0 <= i < |tr| ==> (tr[i].FetchUserStocks? <==> i == 1)
    ensures Project(tr, HeadStage) == if |users| > 0 then Head(users, fetched) else [ReadUsers]
    ensures (ScheduleProcessExpired(fetched.expiredUsers) in tr) <==> |users| > 0 && |fetched.expiredUsers| > 0
    ensures forall e :: e in tr && e.ScheduleProcessExpired? ==> e == ScheduleProcessExpired(fetched.expiredUsers)
    ensures |users| > 0 ==> forall e :: e in fetched.errors ==> LogFetchError(e.userId, e.message) in tr
    ensures Project(tr, SyncStage) ==
      (if |users| > 0 then SyncEvents(fetched.stockResults) else [])
    ensures Project(tr, CompareStage) ==
      (if |users| > 0 then CompareEvents(fetched.stockResults) else [])
    ensures Project(tr, UpdateStage) ==
      (if |users| > 0 && |Flatten(compared)| > 0 then [UpdateStockRanges(Flatten(compared))] else [])
    ensures Project(tr, NotifyStage) ==
      (if |users| > 0 then NotifyEvents(users, Flatten(compared)) else [])
    ensures Staged(tr)
  {
    if |users| == 0 then
      ReadOnly();
      [ReadUsers]
    else
      RunStages(users, fetched, compared);
      RunOpening(users, fetched, compared);
      Run(users, fetched, compared)
  }

  /** The update of the changed ladders, issued only when some bracket moved. */
  function UpdateEvents(vs: seq<VariationResult>): (r: seq<Event>)
    ensures |r| <= 1
    ensures forall i :: 0 <= i < |r| ==> Stage(r[i]) == UpdateStage
  {
    if |vs| > 0 then [UpdateStockRanges(vs)] else []
  }

  /** The trace of a cycle over some users, stage by stage. The stages of an
      early return are empty: no positions give no syncs, comparisons or
      variations, and no variations give no update and no notification. */
  function Run(users: seq<User>, fetched: UserStocks, compared: seq<seq<VariationResult>>): seq<Event>
    requires |compared| == |fetched.stockResults|
  {
    var vs := Flatten(compared);
    Head(users, fetched) + SyncEvents(fetched.stockResults) + CompareEvents(fetched.stockResults)
      + UpdateEvents(vs) + NotifyEvents(users, vs)
  }

  /** Each stage of a run projects to its own segment, and the stages never
      go back. */
  lemma RunStages(users: seq<User>, fetched: UserStocks, compared: seq<seq<VariationResult>>)
    requires |compared| == |fetched.stockResults|
    ensures var tr := Run(users, fetched, compared);
      && Project(tr, HeadStage) == Head(users, fetched)
      && (ScheduleProcessExpired(fetched.expiredUsers) in tr <==> |fetched.expiredUsers| > 0)
      && (forall e :: e in tr && e.ScheduleProcessExpired? ==> e == ScheduleProcessExpired(fetched.expiredUsers))
      && (forall e :: e in fetched.errors ==> LogFetchError(e.userId, e.message) in tr)
      && Project(tr, SyncStage) == SyncEvents(fetched.stockResults)
      && Project(tr, CompareStage) == CompareEvents(fetched.stockResults)
      && Project(tr, UpdateStage) == UpdateEvents(Flatten(compared))
      && Project(tr, NotifyStage) == NotifyEvents(users, Flatten(compared))
      && Staged(tr)
  {
    var vs := Flatten(compared);
    HeadFacts(users, fetched);
    AssembleAll(Head(users, fetched), SyncEvents(fetched.stockResults), CompareEvents(fetched.stockResults),
                UpdateEvents(vs), NotifyEvents(users, vs));
  }

  /** A run opens with the read and the one fetch, and neither recurs. */
  lemma RunOpening(users: seq<User>, fetched: UserStocks, compared: seq<seq<VariationResult>>)
    requires |compared| == |fetched.stockResults|
    ensures var tr := Run(users, fetched, compared);
      && |tr| > 1 && tr[0] == ReadUsers && tr[1] == FetchUserStocks(users)
      && (forall i :: 0 <= i < |tr| ==> (tr[i] == ReadUsers <==> i == 0))
      && (forall i :: 0 <= i < |tr| ==> (tr[i].FetchUserStocks? <==> i == 1))
  {
    var vs := Flatten(compared);
    Opening(users, fetched, SyncEvents(fetched.stockResults), CompareEvents(fetched.stockResults),
            UpdateEvents(vs), NotifyEvents(users, vs));
  }

  /** The trace of a cycle that stops after reading no users. */
  lemma ReadOnly()
    ensures forall k :: k != HeadStage ==> Project([ReadUsers], k) == []
    ensures Project([ReadUsers], HeadStage) == [ReadUsers]
    ensures Staged([ReadUsers])
  {
    assert [ReadUsers][1..] == [];
  }

  /** A cycle over some users opens with the read and the one fetch, and
      neither call recurs later. */
  lemma Opening(users: seq<User>, fetched: UserStocks, syncs: seq<Event>, compares: seq<Event>,
                update: seq<Event>, notes: seq<Event>)
    requires forall i :: 0 <= i < |syncs| ==> Stage(syncs[i]) == SyncStage
    requires forall i :: 0 <= i < |compares| ==> Stage(compares[i]) == CompareStage
    requires forall i :: 0 <= i < |update| ==> Stage(update[i]) == UpdateStage
    requires forall i :: 0 <= i < |notes| ==> Stage(notes[i]) == NotifyStage
    ensures var tr := Head(users, fetched) + syncs + compares + update + notes;
      && tr[0] == ReadUsers && tr[1] == FetchUserStocks(users)
      && (forall i :: 0 <= i < |tr| ==> (tr[i] == ReadUsers <==> i == 0))
      && (forall i :: 0 <= i < |tr| ==> (tr[i].FetchUserStocks? <==> i == 1))
  {
    var head := Head(users, fetched);
    var rest := syncs + compares + update + notes;
    assert forall i :: 0 <= i < |rest| ==> Stage(rest[i]) != HeadStage;
    assert head + syncs + compares + update + notes == head + rest;
    var logs := LogEvents(fetched.errors);
    var tail := (if |fetched.expiredUsers| > 0 then [ScheduleProcessExpired(fetched.expiredUsers)] else []) + logs;
    assert head == [ReadUsers, FetchUserStocks(users)] + tail;
    assert forall i :: 0 <= i < |tail| ==> tail[i].ScheduleProcessExpired? || tail[i].LogFetchError?;
  }

  /** `checkStocks`: read the active users, then run the cycle for them. */
  function CheckStocks(t: UserTable, fetched: UserStocks, compared: seq<seq<VariationResult>>): (tr: seq<Event>)
    requires |compared| == |fetched.stockResults|
    ensures |tr| > 0 && tr[0] == ReadUsers
    ensures (forall x :: x in t ==> !(x.enabled && x.token.Some?)) <==> tr == [ReadUsers]
    ensures |tr| > 1 ==>
      && tr[1].FetchUserStocks?
      && forall x :: x in tr[1].users <==> x in t && x.enabled && x.token.Some?
    ensures forall e :: e in tr && e.NotifyVariation? && e.chatId.Some? ==>
      exists x :: x in t && x.enabled && x.token.Some? && x.id == e.variation.userId && x.chatId == e.chatId.value
    ensures WellFormedUsers(t) ==>
      forall e, x :: e in tr && e.NotifyVariation? && x in t && x.enabled && x.token.Some? && x.id == e.variation.userId
        ==> e.chatId == Some(x.chatId)
  {
    var users := Get(t);
    assert |users| == 0 <==> forall x :: x in t ==> !(x.enabled && x.token.Some?) by {
      if |users| > 0 {
        assert users[0] in users;
      }
    }
    NotificationChats(users, fetched, compared);
    assert WellFormedUsers(t) ==>
      forall e, x :: (e in Cycle(users, fetched, compared) && e.NotifyVariation? &&
        x in t && x.enabled && x.token.Some? && x.id == e.variation.userId) ==> e.chatId == Some(x.chatId) by {
      if WellFormedUsers(t) {
        NotificationsReachActiveOwner(t, fetched, compared);
      }
    }
    Cycle(users, fetched, compared)
  }

  lemma ProjectFive(a: seq<Event>, b: seq<Event>, c: seq<Event>, d: seq<Event>, e: seq<Event>, k: nat)
    ensures Project(a + b + c + d + e, k) == Project(a, k) + Project(b, k) + Project(c, k) + Project(d, k) + Project(e, k)
  {
    ProjectConcat(a + b + c + d, e, k);
    ProjectConcat(a + b + c, d, k);
    ProjectConcat(a + b, c, k);
    ProjectConcat(a, b, k);
  }

  /** Projecting a trace built from five segments of the five stages, in
      stage order, onto stage `k` gives back the segment of stage `k`. */
  lemma Assemble(head: seq<Event>, syncs: seq<Event>, compares: seq<Event>,
                 update: seq<Event>, notes: seq<Event>, k: nat)
    requires forall i :: 0 <= i < |head| ==> Stage(head[i]) == HeadStage
    requires forall i :: 0 <= i < |syncs| ==> Stage(syncs[i]) == SyncStage
    requires forall i :: 0 <= i < |compares| ==> Stage(compares[i]) == CompareStage
    requires forall i :: 0 <= i < |update| ==> Stage(update[i]) == UpdateStage
    requires forall i :: 0 <= i < |notes| ==> Stage(notes[i]) == NotifyStage
    ensures Project(head + syncs + compares + update + notes, k) ==
      if k == HeadStage then head
      else if k == SyncStage then syncs
      else if k == CompareStage then compares
      else if k == UpdateStage then update
      else if k == NotifyStage then notes
      else []
  {
    ProjectFive(head, syncs, compares, update, notes, k);
    ProjectUniform(head, HeadStage, k);
    ProjectUniform(syncs, SyncStage, k);
    ProjectUniform(compares, CompareStage, k);
    ProjectUniform(update, UpdateStage, k);
    ProjectUniform(notes, NotifyStage, k);
    var kept := if k == HeadStage then head
      else if k == SyncStage then syncs
      else if k == CompareStage then compares
      else if k == UpdateStage then update
      else notes;
    if k > NotifyStage {
      OneSegmentLeft(Project(head, k), Project(syncs, k), Project(compares, k), Project(update, k), Project(notes, k), []);
    } else {
      OneSegmentLeft(Project(head, k), Project(syncs, k), Project(compares, k), Project(update, k), Project(notes, k), kept);
    }
  }

  /** Five segments of which all but at most one are empty concatenate to
      that one. */
  lemma OneSegmentLeft(a: seq<Event>, b: seq<Event>, c: seq<Event>, d: seq<Event>, e: seq<Event>, kept: seq<Event>)
    requires || (a == kept && b == [] && c == [] && d == [] && e == [])
             || (a == [] && b == kept && c == [] && d == [] && e == [])
             || (a == [] && b == [] && c == kept && d == [] && e == [])
             || (a == [] && b == [] && c == [] && d == kept && e == [])
             || (a == [] && b == [] && c == [] && d == [] && e == kept)
    ensures a + b + c + d + e == kept
  {
  }

  /** A trace built from five segments of the five stages, in stage order:
      each stage projects to its segment, the stages never go back, and an
      event of the first stage is one of the first segment. */
  lemma AssembleAll(head: seq<Event>, syncs: seq<Event>, compares: seq<Event>,
                    update: seq<Event>, notes: seq<Event>)
    requires forall i :: 0 <= i < |head| ==> Stage(head[i]) == HeadStage
    requires forall i :: 0 <= i < |syncs| ==> Stage(syncs[i]) == SyncStage
    requires forall i :: 0 <= i < |compares| ==> Stage(compares[i]) == CompareStage
    requires forall i :: 0 <= i < |update| ==> Stage(update[i]) == UpdateStage
    requires forall i :: 0 <= i < |notes| ==> Stage(notes[i]) == NotifyStage
    ensures var tr := head + syncs + compares + update + notes;
      && (forall e :: e in tr && Stage(e) == HeadStage ==> e in head)
      && Project(tr, HeadStage) == head
      && Project(tr, SyncStage) == syncs
      && Project(tr, CompareStage) == compares
      && Project(tr, UpdateStage) == update
      && Project(tr, NotifyStage) == notes
      && Staged(tr)
  {
    Assemble(head, syncs, compares, update, notes, HeadStage);
    Assemble(head, syncs, compares, update, notes, SyncStage);
    Assemble(head, syncs, compares, update, notes, CompareStage);
    Assemble(head, syncs, compares, update, notes, UpdateStage);
    Assemble(head, syncs, compares, update, notes, NotifyStage);
    AssembleStaged(head, syncs, compares, update, notes);
  }

  lemma AssembleStaged(head: seq<Event>, syncs: seq<Event>, compares: seq<Event>,
                       update: seq<Event>, notes: seq<Event>)
    requires forall i :: 0 <= i < |head| ==> Stage(head[i]) == HeadStage
    requires forall i :: 0 <= i < |syncs| ==> Stage(syncs[i]) == SyncStage
    requires forall i :: 0 <= i < |compares| ==> Stage(compares[i]) == CompareStage
    requires forall i :: 0 <= i < |update| ==> Stage(update[i]) == UpdateStage
    requires forall i :: 0 <= i < |notes| ==> Stage(notes[i]) == NotifyStage
    ensures Staged(head + syncs + compares + update + notes)
  {
    AppendStage(head, syncs, SyncStage);
    AppendStage(head + syncs, compares, CompareStage);
    AppendStage(head + syncs + compares, update, UpdateStage);
    AppendStage(head + syncs + compares + update, notes, NotifyStage);
  }

  /** Distinct rows of a table with unique user ids keep distinct ids. */
  lemma DistinctRowsDistinctIds(t: UserTable, users: seq<User>)
    requires WellFormedUsers(t)
    requires NoDuplicates(users)
    requires forall x :: x in users ==> x in t
    ensures forall a, b :: 0 <= a < b < |users| ==> users[a].id != users[b].id
  {
    forall a, b | 0 <= a < b < |users|
      ensures users[a].id != users[b].id
    {
      assert users[a] in t && users[b] in t;
      var i :| 0 <= i < |t| && t[i] == users[a];
      var j :| 0 <= j < |t| && t[j] == users[b];
      assert users[a] != users[b];
      assert i != j;
    }
  }

  /** With unique user ids, a notification goes to the chat of the user the
      variation belongs to. */
  lemma NotificationsReachOwner(users: seq<User>, fetched: UserStocks, compared: seq<seq<VariationResult>>, k: int)
    requires |compared| == |fetched.stockResults|
    requires forall a, b :: 0 <= a < b < |users| ==> users[a].id != users[b].id
    requires 0 <= k < |users|
    ensures forall e :: e in Cycle(users, fetched, compared) && e.NotifyVariation? && e.variation.userId == users[k].id ==>
      e.chatId == Some(users[k].chatId)
  {
    var tr := Cycle(users, fetched, compared);
    ChatIdOfOwner(users, k);
    forall e | e in tr && e.NotifyVariation? && e.variation.userId == users[k].id
      ensures e.chatId == Some(users[k].chatId)
    {
      assert e in Project(tr, NotifyStage);
      var vs := Flatten(compared);
      var i :| 0 <= i < |vs| && NotifyEvents(users, vs)[i] == e;
    }
  }

  /** A notification names a chat only when one of the users read has the
      variation's user id and that chat. */
  lemma NotificationChats(users: seq<User>, fetched: UserStocks, compared: seq<seq<VariationResult>>)
    requires |compared| == |fetched.stockResults|
    ensures forall e :: e in Cycle(users, fetched, compared) && e.NotifyVariation? && e.chatId.Some? ==>
      exists k :: 0 <= k < |users| && users[k].id == e.variation.userId && users[k].chatId == e.chatId.value
  {
    var tr := Cycle(users, fetched, compared);
    forall e | e in tr && e.NotifyVariation? && e.chatId.Some?
      ensures exists k :: 0 <= k < |users| && users[k].id == e.variation.userId && users[k].chatId == e.chatId.value
    {
      assert e in Project(tr, NotifyStage);
      var vs := Flatten(compared);
      var i :| 0 <= i < |vs| && NotifyEvents(users, vs)[i] == e;
    }
  }

  /** In a well-formed user table, every notification of `checkStocks` for
      an active user goes to that user's chat. */
  lemma NotificationsReachActiveOwner(t: UserTable, fetched: UserStocks, compared: seq<seq<VariationResult>>)
    requires |compared| == |fetched.stockResults|
    requires WellFormedUsers(t)
    ensures forall e, x :: (e in Cycle(Get(t), fetched, compared) && e.NotifyVariation? &&
      x in t && x.enabled && x.token.Some? && x.id == e.variation.userId) ==> e.chatId == Some(x.chatId)
  {
    var users := Get(t);
    ActiveUsersHaveUniqueIds(t);
    forall e, x | e in Cycle(users, fetched, compared) && e.NotifyVariation? &&
      x in t && x.enabled && x.token.Some? && x.id == e.variation.userId
      ensures e.chatId == Some(x.chatId)
    {
      assert x in users;
      var k :| 0 <= k < |users| && users[k] == x;
      NotificationsReachOwner(users, fetched, compared, k);
    }
  }

  /** The active users of a well-formed table have unique ids. */
  lemma ActiveUsersHaveUniqueIds(t: UserTable)
    requires WellFormedUsers(t)
    ensures forall a, b :: 0 <= a < b < |Get(t)| ==> Get(t)[a].id != Get(t)[b].id
  {
    assert NoDuplicates(t) by {
      forall i, j | 0 <= i < j < |t| ensures t[i] != t[j] {
        assert t[i].id != t[j].id;
      }
    }
    FilterNoDuplicates(t, (x: User) => x.enabled && x.token.Some?);
    DistinctRowsDistinctIds(t, Get(t));
  }
}
