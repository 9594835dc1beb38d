/**
 * `check_users`: one pass over the user table that counts users active in
 * the last five minutes, hour and day and users waiting in the chat queue,
 * behind a two-variable process-wide cache (a stored result and the time it
 * was stored). Times are integer seconds; the user table is an input sequence.
 */
module ActivityCounters {
  import opened Optional

  /** A user row, reduced to the three columns the scan reads. */
  datatype User = User(lastActive: Option<int>, isSuperuser: bool, queueing: bool)

  const FIVE_MINUTES: int := 300
  const ONE_HOUR: int := 3600
  const ONE_DAY: int := 86400

  /** Seconds a stored result stays servable; zero switches the cache off. */
  const CACHE_DURATION_SECONDS: int := 0

  /** The counters of the scan: the queue count, and one per activity window. */
  datatype Counter = Queueing | ActiveWithin(seconds: int)

  /**
   * Whether the scan at time `now` increments counter `c` for user `u`:
   * a user never seen active adds to nothing; the queue count comes before
   * the superuser skip; a window counts activity strictly after `now - seconds`.
   */
  predicate Increments(u: User, c: Counter, now: int)
    ensures Increments(u, c, now) ==> u.lastActive.Some?
    ensures Increments(u, c, now) && c.ActiveWithin? ==> !u.isSuperuser && u.lastActive.value > now - c.seconds
  {
    match u.lastActive
    case None => false
    case Some(t) =>
      match c
      case Queueing => u.queueing
      case ActiveWithin(w) => !u.isSuperuser && t > now - w
  }

  /** How many users of `users` increment `c`; never more than there are users. */
  function Count(users: seq<User>, c: Counter, now: int): (n: nat)
    ensures n <= |users|
  {
    if users == [] then 0
    else
      Count(users[..|users| - 1], c, now)
      + (if Increments(users[|users| - 1], c, now) then 1 else 0)
  }

  lemma {:induction false} CountAppend(a: seq<User>, b: seq<User>, c: Counter, now: int)
    ensures Count(a + b, c, now) == Count(a, c, now) + Count(b, c, now)
    decreases |b|
  {
    if b == [] {
      assert a + b == a;
    } else {
      CountAppend(a, b[..|b| - 1], c, now);
      assert (a + b)[..|a + b| - 1] == a + b[..|b| - 1];
    }
  }

  /** A user inserted anywhere in the table changes `c` by that user's own contribution. */
  lemma CountInsert(a: seq<User>, u: User, b: seq<User>, c: Counter, now: int)
    ensures Count(a + [u] + b, c, now)
         == Count(a + b, c, now) + (if Increments(u, c, now) then 1 else 0)
  {
    CountAppend(a + [u], b, c, now);
    CountAppend(a, [u], c, now);
    CountAppend(a, b, c, now);
    assert [u][..0] == [];
  }

  /** A superuser is never counted in any activity window, whatever its last activity. */
  lemma SuperuserNeverActive(a: seq<User>, u: User, b: seq<User>, seconds: int, now: int)
    requires u.isSuperuser
    ensures Count(a + [u] + b, ActiveWithin(seconds), now) == Count(a + b, ActiveWithin(seconds), now)
  {
    CountInsert(a, u, b, ActiveWithin(seconds), now);
  }

  /** A superuser with a last-activity time in the queue is counted as queueing. */
  lemma QueueingSuperuserCounted(a: seq<User>, u: User, b: seq<User>, now: int)
    requires u.isSuperuser && u.lastActive.Some? && u.queueing
    ensures Count(a + [u] + b, Queueing, now) == Count(a + b, Queueing, now) + 1
  {
    CountInsert(a, u, b, Queueing, now);
  }

  /** A user with no last-activity time adds to no counter at all. */
  lemma NeverActiveCountsNowhere(a: seq<User>, u: User, b: seq<User>, c: Counter, now: int)
    requires u.lastActive.None?
    ensures Count(a + [u] + b, c, now) == Count(a + b, c, now)
  {
    CountInsert(a, u, b, c, now);
  }

  /** A wider window counts at least the users a narrower one counts. */
  lemma {:induction false} WindowsNested(users: seq<User>, narrow: int, wide: int, now: int)
    requires narrow <= wide
    ensures Count(users, ActiveWithin(narrow), now) <= Count(users, ActiveWithin(wide), now)
    decreases |users|
  {
    if users != [] {
      WindowsNested(users[..|users| - 1], narrow, wide, now);
    }
  }

  /** What `check_users` returns: three window counts, the queue count and the user table. */
  datatype Snapshot = Snapshot(active5m: nat, active1h: nat, active1d: nat, queueingCount: nat, users: seq<User>)

  /**
   * The result a scan of `users` at time `now` must produce: its counters are
   * nested and bounded by the number of users, and the table is returned whole.
   */
  function Summary(users: seq<User>, now: int): (r: Snapshot)
    ensures r.active5m <= r.active1h <= r.active1d <= |users|
    ensures r.queueingCount <= |users|
    ensures r.users == users
  {
    WindowsNested(users, FIVE_MINUTES, ONE_HOUR, now);
    WindowsNested(users, ONE_HOUR, ONE_DAY, now);
    Snapshot(Count(users, ActiveWithin(FIVE_MINUTES), now),
             Count(users, ActiveWithin(ONE_HOUR), now),
             Count(users, ActiveWithin(ONE_DAY), now),
             Count(users, Queueing, now),
             users)
  }

  /** The counting loop of `check_users`. */
  method Tally(users: seq<User>, now: int) returns (r: Snapshot)
    ensures r == Summary(users, now)
    ensures r.active5m <= r.active1h <= r.active1d <= |users|
    ensures r.queueingCount <= |users| == |r.users|
  {
    var queueing: nat, in5m: nat, in1h: nat, in1d: nat := 0, 0, 0, 0;
    for i := 0 to |users|
      invariant queueing == Count(users[..i], Queueing, now)
      invariant in5m == Count(users[..i], ActiveWithin(FIVE_MINUTES), now)
      invariant in1h == Count(users[..i], ActiveWithin(ONE_HOUR), now)
      invariant in1d == Count(users[..i], ActiveWithin(ONE_DAY), now)
    {
      var user := users[i];
      assert users[..i + 1][..i] == users[..i];
      if user.lastActive.None? {
        continue;
      }
      if user.queueing {
        queueing := queueing + 1;
      }
      if user.isSuperuser {
        continue;
      }
      var t := user.lastActive.value;
      if t > now - FIVE_MINUTES {
        in5m := in5m + 1;
      }
      if t > now - ONE_HOUR {
        in1h := in1h + 1;
      }
      if t > now - ONE_DAY {
        in1d := in1d + 1;
      }
    }
    assert users[..|users|] == users;
    r := Snapshot(in5m, in1h, in1d, queueing, users);
  }

  /**
   * Whether a call with flag `refresh` at time `now` returns the stored result
   * `entry` stamped `stamp` instead of scanning again.
   */
  predicate ServesCached(refresh: bool, entry: Option<Snapshot>, stamp: Option<int>, now: int)
    ensures ServesCached(refresh, entry, stamp, now) ==> !refresh && entry.Some? && stamp.Some?
  {
    !refresh && entry.Some? && stamp.Some? && stamp.value > now - CACHE_DURATION_SECONDS
  }

  /**
   * With a zero duration, only a stamp strictly later than the current time is
   * served. This restates `ServesCached` with the constant folded in; what it
   * means for a sequence of calls is proved by `RepeatedChecks`.
   */
  lemma ZeroDurationServesOnlyLaterStamps(refresh: bool, entry: Option<Snapshot>, stamp: Option<int>, now: int)
    ensures ServesCached(refresh, entry, stamp, now)
        <==> !refresh && entry.Some? && stamp.Some? && stamp.value > now
  {
  }

  /** The two module-level cache variables and `check_users` itself. */
  class UsersCache {
    var entry: Option<Snapshot>
    var stamp: Option<int>

    /** Both variables are set together, and a stored result is a true scan at its stamp. */
    ghost predicate Valid()
      reads this
    {
      entry.Some? == stamp.Some?
      && (entry.Some? ==> entry.value == Summary(entry.value.users, stamp.value))
    }

    constructor ()
      ensures Valid() && entry == None && stamp == None
    {
      entry := None;
      stamp := None;
    }

    method CheckUsers(refresh: bool, now: int, users: seq<User>) returns (r: Snapshot)
      requires Valid()
      modifies this
      ensures Valid()
      ensures old(ServesCached(refresh, entry, stamp, now)) ==>
                r == old(entry).value && r == Summary(r.users, old(stamp).value)
                && entry == old(entry) && stamp == old(stamp)
      ensures !old(ServesCached(refresh, entry, stamp, now)) ==>
                r == Summary(users, now) && entry == Some(r) && stamp == Some(now)
    {
      if refresh {
        entry := None;
        stamp := None;
      }
      if entry.Some? && stamp.Some? {
        if stamp.value > now - CACHE_DURATION_SECONDS {
          return entry.value;
        }
      }
      stamp := Some(now);
      r := Tally(users, now);
      entry := Some(r);
    }
  }

  /** One call of `check_users`: its flag, the clock reading and the user table at that moment. */
  datatype Call = Call(refresh: bool, now: int, users: seq<User>)

  /**
   * A run of calls under a clock that never goes backwards: with a zero
   * duration every call scans afresh, whatever its `refresh` flag.
   */
  method RepeatedChecks(cache: UsersCache, calls: seq<Call>) returns (results: seq<Snapshot>)
    requires cache.Valid()
    requires forall i, j :: 0 <= i <= j < |calls| ==> calls[i].now <= calls[j].now
    requires cache.stamp.Some? ==> forall i :: 0 <= i < |calls| ==> cache.stamp.value <= calls[i].now
    modifies cache
    ensures cache.Valid()
    ensures |results| == |calls|
    ensures forall i :: 0 <= i < |calls| ==> results[i] == Summary(calls[i].users, calls[i].now)
    ensures |calls| > 0 ==>
              cache.entry == Some(results[|calls| - 1]) && cache.stamp == Some(calls[|calls| - 1].now)
  {
    results := [];
    for i := 0 to |calls|
      invariant cache.Valid()
      invariant |results| == i
      invariant forall k :: 0 <= k < i ==> results[k] == Summary(calls[k].users, calls[k].now)
      invariant cache.stamp.Some? ==> forall k :: i <= k < |calls| ==> cache.stamp.value <= calls[k].now
      invariant i > 0 ==> cache.entry == Some(results[i - 1]) && cache.stamp == Some(calls[i - 1].now)
    {
      var r := cache.CheckUsers(calls[i].refresh, calls[i].now, calls[i].users);
      results := results + [r];
    }
  }
}
