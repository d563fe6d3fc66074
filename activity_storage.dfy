/** The admin activity log: append-only `create` and the paged, newest-first `get`
    that inner-joins each record to its actor's public profile. */
module ActivityStorage {
  import opened Wrappers
  import opened UserStorage
  import opened JsonText

  /** The one action tag the server writes. */
  const CreatedCategory: string := "CREATED_CATEGORY"

  /** `get`'s default arguments. */
  const DefaultPage: int := 1
  const DefaultPageSize: int := 20

  /** A row of `admin_activities`; the timestamp is the log's clock at insertion. */
  datatype Activity = Activity(id: nat, userId: nat, action: string, details: Json, timestamp: nat)

  /** The fields handed to `create`; `details` may be left out. */
  datatype InsertActivity = InsertActivity(userId: nat, action: string, details: Option<Json>)

  /** A record of a page: the activity with its actor's public profile. */
  datatype JoinedActivity = JoinedActivity(activity: Activity, user: PublicUser)

  datatype ActivityPage = ActivityPage(activities: seq<JoinedActivity>, totalCount: nat)

  /** The database refuses a negative OFFSET (checked first) and a negative LIMIT. */
  datatype QueryError = NegativeOffset | NegativeLimit

  /** `details || {}`: a missing or falsy value is replaced by the empty object. */
  function StoredDetails(details: Option<Json>): (j: Json)
    ensures Truthy(j)
    ensures details.Some? && Truthy(details.value) ==> j == details.value
    ensures details.None? || !Truthy(details.value) ==> j == Obj(map[])
  {
    if details.Some? && Truthy(details.value) then details.value else Obj(map[])
  }

  /** The inner join with the users table, in log order: an activity whose actor is
      not in the table is dropped, every other one is paired with the actor's profile. */
  function Joined(log: seq<Activity>, users: seq<FullUser>): (r: seq<JoinedActivity>)
    ensures |r| <= |log|
    ensures forall j :: 0 <= j < |r| ==>
              && r[j].activity in log
              && FindById(users, r[j].activity.userId).Some?
              && r[j].user == ToPublic(FindById(users, r[j].activity.userId).value)
  {
    if log == [] then []
    else
      var head := FindById(users, log[0].userId);
      (if head.Some? then [JoinedActivity(log[0], ToPublic(head.value))] else []) + Joined(log[1..], users)
  }

  /** Nothing but the orphans is dropped: every activity whose actor exists is joined. */
  lemma {:induction false} JoinedComplete(log: seq<Activity>, users: seq<FullUser>, k: nat)
    requires k < |log| && FindById(users, log[k].userId).Some?
    ensures exists j :: 0 <= j < |Joined(log, users)| && Joined(log, users)[j].activity == log[k]
  {
    var head := FindById(users, log[0].userId);
    var rest := Joined(log[1..], users);
    var front: seq<JoinedActivity> := if head.Some? then [JoinedActivity(log[0], ToPublic(head.value))] else [];
    assert Joined(log, users) == front + rest;
    if k == 0 {
      assert Joined(log, users)[0].activity == log[0];
    } else {
      assert log[1..][k - 1] == log[k];
      JoinedComplete(log[1..], users, k - 1);
      var j :| 0 <= j < |rest| && rest[j].activity == log[k];
      assert Joined(log, users)[|front| + j] == rest[j];
    }
  }

  /** ORDER BY timestamp DESC over a log whose timestamps increase: the reverse. */
  function NewestFirst<T>(xs: seq<T>): (r: seq<T>)
    ensures |r| == |xs|
    ensures forall i :: 0 <= i < |xs| ==> r[i] == xs[|xs| - 1 - i]
  {
    if xs == [] then [] else NewestFirst(xs[1..]) + [xs[0]]
  }

  /** OFFSET `offset` LIMIT `limit`. */
  function Window<T>(xs: seq<T>, offset: nat, limit: nat): (r: seq<T>)
    ensures |r| <= limit
    ensures |r| == if offset >= |xs| then 0 else if limit <= |xs| - offset then limit else |xs| - offset
    ensures forall i :: 0 <= i < |r| ==> r[i] == xs[offset + i]
  {
    if offset >= |xs| then []
    else if offset + limit <= |xs| then xs[offset..offset + limit]
    else xs[offset..]
  }

  function Min(a: int, b: int): int { if a <= b then a else b }

  /** The result of `get(page, pageSize)` on a log and a users table. */
  function Query(log: seq<Activity>, users: seq<FullUser>, page: int, pageSize: int)
    : (r: Result<ActivityPage, QueryError>)
    ensures r.Ok? <==> (page - 1) * pageSize >= 0 && pageSize >= 0
    ensures (page - 1) * pageSize < 0 ==> r == Err(NegativeOffset)
    ensures 0 <= (page - 1) * pageSize && pageSize < 0 ==> r == Err(NegativeLimit)
    ensures r.Ok? ==> r.value.totalCount == |log| && |r.value.activities| <= pageSize
    ensures r.Ok? ==>
              |r.value.activities| == if (page - 1) * pageSize >= |Joined(log, users)| then 0
                                      else Min(pageSize, |Joined(log, users)| - (page - 1) * pageSize)
  {
    var offset := (page - 1) * pageSize;
    if offset < 0 then Err(NegativeOffset)
    else if pageSize < 0 then Err(NegativeLimit)
    else Ok(ActivityPage(Window(NewestFirst(Joined(log, users)), offset, pageSize), |log|))
  }

  /** Timestamps strictly increase along the log. */
  ghost predicate Chronological(log: seq<Activity>) {
    forall i, j :: 0 <= i < j < |log| ==> log[i].timestamp < log[j].timestamp
  }

  class ActivityLog {
    var rows: seq<Activity>
    var nextId: nat
    var clock: nat

    ghost predicate Valid()
      reads this
    {
      && Chronological(rows)
      && (forall k :: 0 <= k < |rows| ==> rows[k].id < nextId && rows[k].timestamp < clock && Truthy(rows[k].details))
      && (forall j, k :: 0 <= j < k < |rows| ==> rows[j].id != rows[k].id)
    }

    constructor ()
      ensures Valid() && rows == []
    {
      rows, nextId, clock := [], 1, 0;
    }

    /** `create(a)`: appends exactly one record, the details defaulted, stamped with the
        next id and a time later than every earlier record; nothing else changes. */
    method Create(a: InsertActivity) returns (r: Activity)
      requires Valid()
      modifies this
      ensures Valid()
      ensures rows == old(rows) + [r]
      ensures r == Activity(old(nextId), a.userId, a.action, StoredDetails(a.details), old(clock))
      ensures forall k :: 0 <= k < |old(rows)| ==> old(rows)[k].timestamp < r.timestamp
    {
      r := Activity(nextId, a.userId, a.action, StoredDetails(a.details), clock);
      rows := rows + [r];
      nextId := nextId + 1;
      clock := clock + 1;
    }

    /** `get(page = 1, pageSize = 20)`. */
    method Get(users: UserTable, page: Option<int>, pageSize: Option<int>)
      returns (r: Result<ActivityPage, QueryError>)
      ensures r == Query(rows, users.rows, page.GetOr(DefaultPage), pageSize.GetOr(DefaultPageSize))
      ensures page.None? && pageSize.None? ==>
                r.Ok? && r.value.totalCount == |rows| && |r.value.activities| <= DefaultPageSize
    {
      r := Query(rows, users.rows, page.GetOr(DefaultPage), pageSize.GetOr(DefaultPageSize));
    }
  }

  /** A page holds at most `pageSize` records, the ones found after skipping
      `(page-1)*pageSize` records of the joined, newest-first list. */
  lemma PageIsWindow(log: seq<Activity>, users: seq<FullUser>, page: int, pageSize: int, i: nat)
    requires Query(log, users, page, pageSize).Ok?
    requires i < |Query(log, users, page, pageSize).value.activities|
    ensures (page - 1) * pageSize + i < |Joined(log, users)|
    ensures Query(log, users, page, pageSize).value.activities[i]
              == Joined(log, users)[|Joined(log, users)| - 1 - ((page - 1) * pageSize + i)]
  {
    var offset: nat := (page - 1) * pageSize;
    assert Query(log, users, page, pageSize).value.activities == Window(NewestFirst(Joined(log, users)), offset, pageSize);
    WindowOfNewestFirst(Joined(log, users), offset, pageSize, i);
  }

  /** Element `i` of a window of the reversed list, read from the list itself. */
  lemma WindowOfNewestFirst<T>(xs: seq<T>, offset: nat, limit: nat, i: nat)
    requires i < |Window(NewestFirst(xs), offset, limit)|
    ensures offset + i < |xs|
    ensures Window(NewestFirst(xs), offset, limit)[i] == xs[|xs| - 1 - (offset + i)]
  {
    var r := NewestFirst(xs);
    assert Window(r, offset, limit)[i] == r[offset + i];
  }

  /** Timestamps strictly increase along a joined list. */
  ghost predicate JoinedInOrder(r: seq<JoinedActivity>) {
    forall i, j :: 0 <= i < j < |r| ==> r[i].activity.timestamp < r[j].activity.timestamp
  }

  /** An earlier record put in front of an ordered list keeps it ordered. */
  lemma JoinedInOrderCons(a: JoinedActivity, rest: seq<JoinedActivity>)
    requires JoinedInOrder(rest)
    requires forall x :: x in rest ==> a.activity.timestamp < x.activity.timestamp
    ensures JoinedInOrder([a] + rest)
  {
    var r := [a] + rest;
    forall i, j | 0 <= i < j < |r|
      ensures r[i].activity.timestamp < r[j].activity.timestamp
    {
      assert r[j] == rest[j - 1];
      if i > 0 {
        assert r[i] == rest[i - 1];
      }
    }
  }

  /** The first record of a chronological log is older than all others, and the rest of
      the log is chronological. */
  lemma ChronologicalTail(log: seq<Activity>)
    requires Chronological(log) && log != []
    ensures Chronological(log[1..])
    ensures forall a :: a in log[1..] ==> log[0].timestamp < a.timestamp
  {
    forall a | a in log[1..]
      ensures log[0].timestamp < a.timestamp
    {
      var k :| 0 <= k < |log[1..]| && log[1..][k] == a;
      assert log[k + 1] == a;
    }
  }

  /** With chronological input, the joined list is chronological too. */
  lemma {:induction false} JoinedChronological(log: seq<Activity>, users: seq<FullUser>)
    requires Chronological(log)
    ensures JoinedInOrder(Joined(log, users))
  {
    if log != [] {
      var head := FindById(users, log[0].userId);
      var rest := Joined(log[1..], users);
      ChronologicalTail(log);
      JoinedChronological(log[1..], users);
      forall x | x in rest
        ensures log[0].timestamp < x.activity.timestamp
      {
        var j :| 0 <= j < |rest| && rest[j] == x;
        assert x.activity in log[1..];
      }
      if head.Some? {
        var a := JoinedActivity(log[0], ToPublic(head.value));
        JoinedInOrderCons(a, rest);
        assert Joined(log, users) == [a] + rest;
      } else {
        assert Joined(log, users) == rest;
      }
    }
  }

  /** Records of a page are ordered by timestamp, most recent first. */
  lemma PageNewestFirst(log: seq<Activity>, users: seq<FullUser>, page: int, pageSize: int, i: nat, j: nat)
    requires Chronological(log)
    requires Query(log, users, page, pageSize).Ok?
    requires i < j < |Query(log, users, page, pageSize).value.activities|
    ensures Query(log, users, page, pageSize).value.activities[i].activity.timestamp
              > Query(log, users, page, pageSize).value.activities[j].activity.timestamp
  {
    PageIsWindow(log, users, page, pageSize, i);
    PageIsWindow(log, users, page, pageSize, j);
    JoinedChronological(log, users);
  }

  /** An activity whose actor is missing from the users table is on no page, yet the
      total count still includes it. */
  lemma OrphanOnNoPage(log: seq<Activity>, users: seq<FullUser>, page: int, pageSize: int, k: nat)
    requires k < |log| && FindById(users, log[k].userId).None?
    requires Query(log, users, page, pageSize).Ok?
    ensures forall r :: r in Query(log, users, page, pageSize).value.activities ==> r.activity.userId != log[k].userId
    ensures Query(log, users, page, pageSize).value.totalCount == |log|
  {
    var p := Query(log, users, page, pageSize).value.activities;
    forall r | r in p ensures r.activity.userId != log[k].userId {
      var i :| 0 <= i < |p| && p[i] == r;
      PageIsWindow(log, users, page, pageSize, i);
    }
  }

  /** Every actor on a page is shown by its public profile: the profile of the user
      with the activity's id, which carries no password. */
  lemma PageShowsPublicProfile(log: seq<Activity>, users: seq<FullUser>, page: int, pageSize: int, i: nat)
    requires Query(log, users, page, pageSize).Ok?
    requires i < |Query(log, users, page, pageSize).value.activities|
    ensures var r := Query(log, users, page, pageSize).value.activities[i];
            && r.activity in log
            && exists u :: u in users && u.id == r.activity.userId && r.user == ToPublic(u)
  {
    PageIsWindow(log, users, page, pageSize, i);
    var r := Query(log, users, page, pageSize).value.activities[i];
    var u := FindById(users, r.activity.userId).value;
    assert u in users && r.user == ToPublic(u);
  }

  /** `ceil(n / size)` for a positive size. */
  function CeilDiv(n: nat, size: nat): (q: nat)
    requires size > 0
    ensures q * size >= n && (q == 0 || (q - 1) * size < n)
  {
    var q := (n + size - 1) / size;
    assert q * size + (n + size - 1) % size == n + size - 1;
    q
  }

  /** Pages 1..count of `xs` laid end to end. */
  function ConcatPages<T>(xs: seq<T>, size: nat, count: nat): seq<T> {
    if count == 0 then [] else ConcatPages(xs, size, count - 1) + Window(xs, (count - 1) * size, size)
  }

  /** The prefix before a window followed by the window is the prefix up to its end. */
  lemma PrefixThenWindow<T>(xs: seq<T>, lo: nat, size: nat)
    ensures xs[..if lo <= |xs| then lo else |xs|] + Window(xs, lo, size)
            == xs[..if lo + size <= |xs| then lo + size else |xs|]
  {
    var a := if lo <= |xs| then lo else |xs|;
    var b := if lo + size <= |xs| then lo + size else |xs|;
    assert Window(xs, lo, size) == xs[a..b];
    assert xs[..a] + xs[a..b] == xs[..b];
  }

  lemma {:induction false} ConcatPagesPrefix<T>(xs: seq<T>, size: nat, count: nat)
    ensures ConcatPages(xs, size, count) == xs[..if count * size <= |xs| then count * size else |xs|]
  {
    if count > 0 {
      var lo := (count - 1) * size;
      ConcatPagesPrefix(xs, size, count - 1);
      PrefixThenWindow(xs, lo, size);
      assert count * size == lo + size;
    }
  }

  /** Reading pages 1..ceil(n/pageSize) of a list yields the whole list, each element
      once and in order. */
  lemma AllPagesCoverList<T>(xs: seq<T>, size: nat)
    requires size > 0
    ensures ConcatPages(xs, size, CeilDiv(|xs|, size)) == xs
  {
    ConcatPagesPrefix(xs, size, CeilDiv(|xs|, size));
  }

  /** An answered page is the window of the newest-first join at its offset. */
  lemma QueryIsWindow(log: seq<Activity>, users: seq<FullUser>, page: int, pageSize: int)
    requires Query(log, users, page, pageSize).Ok?
    ensures (page - 1) * pageSize >= 0 && pageSize >= 0
    ensures Query(log, users, page, pageSize).value.activities
            == Window(NewestFirst(Joined(log, users)), (page - 1) * pageSize, pageSize)
  {
  }

  /** Pages 1..count of `get(page, pageSize)` laid end to end. */
  function QueryPages(log: seq<Activity>, users: seq<FullUser>, pageSize: nat, count: nat): seq<JoinedActivity> {
    if count == 0 then []
    else QueryPages(log, users, pageSize, count - 1) + Query(log, users, count, pageSize).value.activities
  }

  lemma ConcatPagesStep<T>(xs: seq<T>, size: nat, count: nat)
    requires count > 0
    ensures ConcatPages(xs, size, count) == ConcatPages(xs, size, count - 1) + Window(xs, (count - 1) * size, size)
  {
  }

  lemma QueryPagesStep(log: seq<Activity>, users: seq<FullUser>, pageSize: nat, count: nat)
    requires count > 0
    ensures QueryPages(log, users, pageSize, count)
            == QueryPages(log, users, pageSize, count - 1)
               + Window(NewestFirst(Joined(log, users)), (count - 1) * pageSize, pageSize)
  {
    QueryIsWindow(log, users, count, pageSize);
  }

  lemma {:induction false} QueryPagesAreWindows(log: seq<Activity>, users: seq<FullUser>, pageSize: nat, count: nat)
    ensures QueryPages(log, users, pageSize, count) == ConcatPages(NewestFirst(Joined(log, users)), pageSize, count)
  {
    if count > 0 {
      QueryPagesAreWindows(log, users, pageSize, count - 1);
      QueryPagesStep(log, users, pageSize, count);
      ConcatPagesStep(NewestFirst(Joined(log, users)), pageSize, count);
    }
  }

  /** Reading the pages 1..ceil(totalCount / pageSize) that `get` returns yields every
      joined record exactly once, newest first. */
  lemma AllQueryPagesCoverJoined(log: seq<Activity>, users: seq<FullUser>, pageSize: nat)
    requires pageSize > 0
    ensures QueryPages(log, users, pageSize, CeilDiv(|log|, pageSize)) == NewestFirst(Joined(log, users))
  {
    var xs := NewestFirst(Joined(log, users));
    var count := CeilDiv(|log|, pageSize);
    QueryPagesAreWindows(log, users, pageSize, count);
    ConcatPagesPrefix(xs, pageSize, count);
    assert xs[..|xs|] == xs;
  }

  /** When every actor exists, nothing is dropped by the join, so the pages of `get`
      together hold every record of the log, newest first. */
  lemma {:induction false} JoinedKeepsAll(log: seq<Activity>, users: seq<FullUser>)
    requires forall k :: 0 <= k < |log| ==> FindById(users, log[k].userId).Some?
    ensures |Joined(log, users)| == |log|
    ensures forall k :: 0 <= k < |log| ==> Joined(log, users)[k].activity == log[k]
  {
    if log != [] {
      forall k | 0 <= k < |log[1..]| ensures FindById(users, log[1..][k].userId).Some? {
        assert log[1..][k] == log[k + 1];
      }
      JoinedKeepsAll(log[1..], users);
    }
  }

  /** When every actor exists, the pages `get` returns for 1..ceil(totalCount / pageSize)
      hold every record of the log once, newest first. */
  lemma AllPagesHoldWholeLog(log: seq<Activity>, users: seq<FullUser>, pageSize: nat)
    requires pageSize > 0
    requires forall k :: 0 <= k < |log| ==> FindById(users, log[k].userId).Some?
    ensures var pages := QueryPages(log, users, pageSize, CeilDiv(|log|, pageSize));
            && |pages| == |log|
            && forall i :: 0 <= i < |log| ==> pages[i].activity == log[|log| - 1 - i]
  {
    AllQueryPagesCoverJoined(log, users, pageSize);
    JoinedKeepsAll(log, users);
  }
}
