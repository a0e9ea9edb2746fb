/** Replay protection of the Shadowsocks 2022 server: the salt pool with its lazy
    cleaning, and the timestamp window it is combined with. Clock readings are
    monotonic and counted in nanoseconds. */
module SaltPool {

  type uint64 = n: int | 0 <= n < 0x1_0000_0000_0000_0000

  const SECOND: nat := 1_000_000_000
  const RETAIN: nat := 60 * SECOND
  const MAX_DIFF: int := 30
  const TWO63: int := 0x8000_0000_0000_0000

  // ------------------------------------------------------------------
  // The pool

  datatype State<!T> = State(pool: map<T, nat>, lastCleaned: nat)

  /** The lazy deletion pass: it runs only when the last one is old enough. */
  function Cleaned<T>(s: State<T>, now: nat): (s': State<T>)
  {
    if now - s.lastCleaned > RETAIN then State(s.pool - Outdated(s.pool, now), now) else s
  }

  /** The salts added too long ago. */
  function Outdated<T>(pool: map<T, nat>, now: nat): (salts: set<T>)
  {
    set salt | salt in pool && now - pool[salt] > RETAIN
  }

  /** The pool after one checkAndAdd; the salt is new exactly when Cleaned lacks it. */
  function After<T>(s: State<T>, salt: T, now: nat): (s': State<T>)
  {
    var c := Cleaned(s, now);
    if salt in c.pool then c else c.(pool := c.pool[salt := now])
  }

  predicate Accepts<T>(s: State<T>, salt: T, now: nat)
  {
    salt !in Cleaned(s, now).pool
  }

  class Pool<T(==)> {
    var pool: map<T, nat>
    var lastCleaned: nat

    constructor (now: nat)
      ensures Contents() == State(map[], now)
    {
      pool, lastCleaned := map[], now;
    }

    ghost function Contents(): State<T>
      reads this
    {
      State(pool, lastCleaned)
    }

    method CheckAndAdd(salt: T, now: nat) returns (ok: bool)
      modifies this
      ensures ok == Accepts(old(Contents()), salt, now)
      ensures Contents() == After(old(Contents()), salt, now)
    {
      if now - lastCleaned > RETAIN {
        var todo := pool.Keys;
        while todo != {}
          invariant todo <= old(pool).Keys
          invariant pool.Keys <= old(pool).Keys
          invariant forall x :: x in pool ==> pool[x] == old(pool)[x]
          invariant forall x :: x in todo ==> x in pool
          invariant forall x :: x in old(pool) && x !in todo ==>
                                  (x in pool <==> now - old(pool)[x] <= RETAIN)
          decreases |todo|
        {
          var oldSalt :| oldSalt in todo;
          if now - pool[oldSalt] > RETAIN {
            pool := pool - {oldSalt};
          }
          todo := todo - {oldSalt};
        }
        assert pool == Cleaned(old(Contents()), now).pool;
        lastCleaned := now;
      }
      ok := salt !in pool;
      if ok {
        pool := pool[salt := now];
      }
    }
  }

  // ------------------------------------------------------------------
  // Whole runs

  datatype Call<!T> = Call(salt: T, time: nat)

  ghost predicate Monotonic<T>(start: nat, calls: seq<Call<T>>)
  {
    && (forall i :: 0 <= i < |calls| ==> start <= calls[i].time)
    && (forall i, j :: 0 <= i < j < |calls| ==> calls[i].time <= calls[j].time)
  }

  /** The pool before call `n` of a run that starts with an empty pool. */
  function Before<T>(start: nat, calls: seq<Call<T>>, n: nat): (s: State<T>)
    requires n <= |calls|
  {
    if n == 0 then State(map[], start)
    else After(Before(start, calls, n - 1), calls[n - 1].salt, calls[n - 1].time)
  }

  predicate Accepted<T(==)>(start: nat, calls: seq<Call<T>>, i: nat)
    requires i < |calls|
  {
    Accepts(Before(start, calls, i), calls[i].salt, calls[i].time)
  }

  ghost function Acceptances<T>(start: nat, calls: seq<Call<T>>, n: nat): set<Call<T>>
    requires n <= |calls|
  {
    if n == 0 then {}
    else Acceptances(start, calls, n - 1) + if Accepted(start, calls, n - 1) then {calls[n - 1]} else {}
  }

  lemma {:induction false} AcceptedIsIn<T>(start: nat, calls: seq<Call<T>>, i: nat, n: nat)
    requires i < n <= |calls| && Accepted(start, calls, i)
    ensures calls[i] in Acceptances(start, calls, n)
  {
    if i < n - 1 {
      AcceptedIsIn(start, calls, i, n - 1);
    }
  }

  lemma {:induction false} InMeansAccepted<T>(start: nat, calls: seq<Call<T>>, c: Call<T>, n: nat)
    returns (i: nat)
    requires n <= |calls| && c in Acceptances(start, calls, n)
    ensures i < n && Accepted(start, calls, i) && calls[i] == c
  {
    if c in Acceptances(start, calls, n - 1) {
      i := InMeansAccepted(start, calls, c, n - 1);
    } else {
      i := n - 1;
    }
  }

  /** How the pool relates to the acceptances so far: every entry stems from one
      and was young at the last cleaning; each of them is still remembered, at its
      own time or a later one, unless it was outdated at the last cleaning. */
  ghost predicate Remembers<T(!new)>(s: State<T>, accepted: set<Call<T>>)
  {
    && (forall x :: x in s.pool ==> Call(x, s.pool[x]) in accepted && s.lastCleaned <= s.pool[x] + RETAIN)
    && (forall c :: c in accepted ==>
          || (c.salt in s.pool && c.time <= s.pool[c.salt])
          || s.lastCleaned - c.time > RETAIN)
  }

  lemma StepRemembers<T(!new)>(s: State<T>, accepted: set<Call<T>>, salt: T, now: nat)
    requires Remembers(s, accepted) && s.lastCleaned <= now
    requires forall c :: c in accepted ==> c.time <= now
    ensures Remembers(After(s, salt, now),
                      if Accepts(s, salt, now) then accepted + {Call(salt, now)} else accepted)
  {
  }

  lemma {:induction false} RunRemembers<T(!new)>(start: nat, calls: seq<Call<T>>, n: nat)
    requires Monotonic(start, calls) && n <= |calls|
    ensures Remembers(Before(start, calls, n), Acceptances(start, calls, n))
    ensures start <= Before(start, calls, n).lastCleaned
    ensures forall i :: n <= i < |calls| ==> Before(start, calls, n).lastCleaned <= calls[i].time
    ensures n > 0 ==> calls[n - 1].time <= Before(start, calls, n).lastCleaned + RETAIN
  {
    if n > 0 {
      RunRemembers(start, calls, n - 1);
      forall c | c in Acceptances(start, calls, n - 1)
        ensures c.time <= calls[n - 1].time
      {
        var i := InMeansAccepted(start, calls, c, n - 1);
      }
      StepRemembers(Before(start, calls, n - 1), Acceptances(start, calls, n - 1),
                    calls[n - 1].salt, calls[n - 1].time);
      assert calls[n - 1] == Call(calls[n - 1].salt, calls[n - 1].time);
    }
  }

  /** Two acceptances of one salt are always more than 60 seconds apart. */
  lemma AcceptancesAreFarApart<T(!new)>(start: nat, calls: seq<Call<T>>, i: nat, j: nat)
    requires Monotonic(start, calls) && i < j < |calls|
    requires calls[i].salt == calls[j].salt
    requires Accepted(start, calls, i) && Accepted(start, calls, j)
    ensures calls[j].time - calls[i].time > 60_000_000_000
  {
    RunRemembers(start, calls, j);
    AcceptedIsIn(start, calls, i, j);
  }

  /** After every call, no entry is older than 120 seconds. */
  lemma {:induction false} EntriesAreYoung<T(!new)>(start: nat, calls: seq<Call<T>>, n: nat)
    requires Monotonic(start, calls) && 0 < n <= |calls|
    ensures var s := Before(start, calls, n);
            forall x :: x in s.pool ==> calls[n - 1].time - s.pool[x] <= 120_000_000_000
  {
    RunRemembers(start, calls, n);
  }

  /** A refused salt was accepted before, at most 120 seconds ago. */
  lemma RefusalsAreJustified<T(!new)>(start: nat, calls: seq<Call<T>>, j: nat)
    requires Monotonic(start, calls) && j < |calls|
    requires !Accepted(start, calls, j)
    ensures exists i :: 0 <= i < j && Accepted(start, calls, i) && calls[i].salt == calls[j].salt
                     && calls[j].time - calls[i].time <= 120_000_000_000
  {
    RunRemembers(start, calls, j);
    var s := Before(start, calls, j);
    var i := InMeansAccepted(start, calls, Call(calls[j].salt, s.pool[calls[j].salt]), j);
  }

  // ------------------------------------------------------------------
  // The pool without the pool

  /** When the last lazy cleaning before call `n` took place, from the times alone. */
  function LastCleaning<T>(start: nat, calls: seq<Call<T>>, n: nat): (t: nat)
    requires n <= |calls|
  {
    if n == 0 then start
    else
      var last := LastCleaning(start, calls, n - 1);
      if calls[n - 1].time - last > 60_000_000_000 then calls[n - 1].time else last
  }

  /** Call `k` cleans, and what call `i` added is then older than 60 seconds. */
  predicate Forgets<T>(start: nat, calls: seq<Call<T>>, i: nat, k: nat)
    requires i < |calls| && k < |calls|
  {
    calls[k].time - LastCleaning(start, calls, k) > 60_000_000_000 && calls[k].time - calls[i].time > 60_000_000_000
  }

  ghost predicate ForgottenBefore<T>(start: nat, calls: seq<Call<T>>, i: nat, n: nat)
    requires i < |calls| && n <= |calls|
  {
    exists k :: i < k < n && Forgets(start, calls, i, k)
  }

  ghost predicate Held<T(!new)>(start: nat, calls: seq<Call<T>>, i: nat, n: nat, salt: T)
    requires n <= |calls|
  {
    i < n && calls[i].salt == salt && Accepted(start, calls, i) && !ForgottenBefore(start, calls, i, n)
  }

  lemma {:induction false} CleaningTimes<T>(start: nat, calls: seq<Call<T>>, n: nat)
    requires n <= |calls|
    ensures Before(start, calls, n).lastCleaned == LastCleaning(start, calls, n)
  {
    if n > 0 {
      CleaningTimes(start, calls, n - 1);
    }
  }

  lemma ForgottenStep<T>(start: nat, calls: seq<Call<T>>, i: nat, n: nat)
    requires i < n < |calls|
    ensures ForgottenBefore(start, calls, i, n + 1)
       <==> ForgottenBefore(start, calls, i, n) || Forgets(start, calls, i, n)
  {
  }

  ghost predicate StillHeld<T(!new)>(start: nat, calls: seq<Call<T>>, i: nat, n: nat, salt: T)
    requires n < |calls|
  {
    Held(start, calls, i, n, salt) && !Forgets(start, calls, i, n)
  }

  /** The pool holds exactly the salts of calls that were accepted and not forgotten. */
  ghost predicate HoldsHeld<T(!new)>(pool: map<T, nat>, start: nat, calls: seq<Call<T>>, n: nat, salt: T)
    requires n <= |calls|
  {
    && (forall i: nat :: Held(start, calls, i, n, salt) ==> salt in pool && pool[salt] == calls[i].time)
    && (salt in pool ==> exists i: nat :: Held(start, calls, i, n, salt))
  }

  /** What call `n` leaves of it before it adds its own salt. */
  ghost predicate HoldsStill<T(!new)>(pool: map<T, nat>, start: nat, calls: seq<Call<T>>, n: nat, salt: T)
    requires n < |calls|
  {
    && (forall i: nat :: StillHeld(start, calls, i, n, salt) ==> salt in pool && pool[salt] == calls[i].time)
    && (salt in pool ==> exists i: nat :: StillHeld(start, calls, i, n, salt))
  }

  lemma CleanedHolds<T(!new)>(start: nat, calls: seq<Call<T>>, n: nat, salt: T)
    requires n < |calls| && HoldsHeld(Before(start, calls, n).pool, start, calls, n, salt)
    ensures HoldsStill(Cleaned(Before(start, calls, n), calls[n].time).pool, start, calls, n, salt)
  {
    CleaningTimes(start, calls, n);
    var s, c := Before(start, calls, n), Cleaned(Before(start, calls, n), calls[n].time);
    if salt in c.pool {
      var i: nat :| Held(start, calls, i, n, salt);
      assert StillHeld(start, calls, i, n, salt);
    }
    forall i: nat | StillHeld(start, calls, i, n, salt)
      ensures salt in c.pool && c.pool[salt] == calls[i].time
    {
      assert Held(start, calls, i, n, salt);
    }
  }

  lemma NextHolds<T(!new)>(start: nat, calls: seq<Call<T>>, n: nat, salt: T)
    requires n < |calls|
    requires HoldsStill(Cleaned(Before(start, calls, n), calls[n].time).pool, start, calls, n, salt)
    ensures HoldsHeld(Before(start, calls, n + 1).pool, start, calls, n + 1, salt)
  {
    var next := Before(start, calls, n + 1).pool;
    forall i: nat | Held(start, calls, i, n + 1, salt)
      ensures salt in next && next[salt] == calls[i].time
    {
      if i < n {
        ForgottenStep(start, calls, i, n);
        assert StillHeld(start, calls, i, n, salt);
      }
    }
    if salt in next {
      if Accepted(start, calls, n) && calls[n].salt == salt {
        assert Held(start, calls, n, n + 1, salt);
      } else {
        var i: nat :| StillHeld(start, calls, i, n, salt);
        ForgottenStep(start, calls, i, n);
        assert Held(start, calls, i, n + 1, salt);
      }
    }
  }

  lemma {:induction false} RunHolds<T(!new)>(start: nat, calls: seq<Call<T>>, n: nat, salt: T)
    requires n <= |calls|
    ensures HoldsHeld(Before(start, calls, n).pool, start, calls, n, salt)
  {
    if n > 0 {
      RunHolds(start, calls, n - 1, salt);
      CleanedHolds(start, calls, n - 1, salt);
      NextHolds(start, calls, n - 1, salt);
    }
  }

  /** A call is accepted if and only if every acceptance of its salt before it has been
      forgotten: by a call since then, or by this one, that came more than 60 seconds
      after it and more than 60 seconds after the cleaning before. */
  lemma AcceptedExactly<T(!new)>(start: nat, calls: seq<Call<T>>, j: nat)
    requires j < |calls|
    ensures Accepted(start, calls, j) <==>
            forall i :: 0 <= i < j && calls[i].salt == calls[j].salt && Accepted(start, calls, i) ==>
              ForgottenBefore(start, calls, i, j + 1)
  {
    RunHolds(start, calls, j, calls[j].salt);
    CleanedHolds(start, calls, j, calls[j].salt);
    forall i | 0 <= i < j
      ensures calls[i].salt == calls[j].salt && Accepted(start, calls, i) && !ForgottenBefore(start, calls, i, j + 1)
         <==> StillHeld(start, calls, i, j, calls[j].salt)
    {
      ForgottenStep(start, calls, i, j);
    }
  }

  // ------------------------------------------------------------------
  // The timestamp window

  /** Go's conversion of a uint64 to int64. */
  function ToInt64(n: uint64): (i: int)
  {
    if n < TWO63 then n else n - 2 * TWO63
  }

  /** int64 arithmetic wraps around. */
  function Wrap64(i: int): (w: int)
  {
    (i + TWO63) % (2 * TWO63) - TWO63
  }

  /** validateUnixTimeInRange, `now` being time.Now().Unix(). */
  predicate InRange(ts: uint64, now: int)
  {
    var compared := ToInt64(ts);
    var diff := if compared > now then Wrap64(compared - now) else Wrap64(now - compared);
    diff <= MAX_DIFF
  }

  /** The window is what it should be for timestamps below 2^63. Above, the
      subtraction overflows and a whole family is let through. */
  lemma InRangeExactly(ts: uint64, now: int)
    requires 0 <= now < TWO63
    ensures ts < TWO63 ==> (InRange(ts, now) <==> -30 <= ts - now <= 30)
    ensures ts >= TWO63 ==> (InRange(ts, now) <==>
                               ts - 2 * TWO63 >= now - 30 || ts - TWO63 <= now)
  {
  }

  /** Whether call `i` of a run passes the pool and, for a header carrying `ts`, the
      window as well, which reads the clock once more, at `seen`. */
  predicate Passes<T(==)>(start: nat, calls: seq<Call<T>>, i: nat, ts: uint64, seen: nat)
    requires i < |calls|
  {
    Accepted(start, calls, i) && InRange(ts, seen / SECOND)
  }

  /** Some header passes in two sessions of one salt exactly if both are accepted and
      their readings for the window are, in truncated seconds, at most 60 apart. */
  lemma TwoPassesExactly<T(!new)>(start: nat, calls: seq<Call<T>>, i: nat, j: nat, u: nat, v: nat)
    requires Monotonic(start, calls) && i < |calls| && j < |calls|
    requires u / SECOND < TWO63 - MAX_DIFF && v / SECOND < TWO63 - MAX_DIFF
    ensures (exists ts: uint64 :: ts < TWO63 && Passes(start, calls, i, ts, u) && Passes(start, calls, j, ts, v))
       <==> && Accepted(start, calls, i) && Accepted(start, calls, j)
            && -60 <= v / SECOND - u / SECOND <= 60
  {
    if ts: uint64 :| ts < TWO63 && Passes(start, calls, i, ts, u) && Passes(start, calls, j, ts, v) {
      InRangeExactly(ts, u / SECOND);
      InRangeExactly(ts, v / SECOND);
    }
    if -2 * MAX_DIFF <= v / SECOND - u / SECOND <= 2 * MAX_DIFF {
      var earlier: nat := if u / SECOND <= v / SECOND then u / SECOND else v / SECOND;
      var ts: uint64 := earlier + MAX_DIFF;
      InRangeExactly(ts, u / SECOND);
      InRangeExactly(ts, v / SECOND);
      assert Accepted(start, calls, i) && Accepted(start, calls, j) ==>
          Passes(start, calls, i, ts, u) && Passes(start, calls, j, ts, v);
    }
  }

  /** Sessions in which one header passes, in order, with their readings for the window,
      none of which is taken before the pool's own. */
  ghost predicate PassInTurn<T(!new)>(start: nat, calls: seq<Call<T>>, ts: uint64, turns: seq<nat>, seen: seq<nat>)
  {
    && |turns| == |seen| > 0 && (forall a :: 0 <= a < |turns| ==> turns[a] < |calls|)
    && (forall a, b :: 0 <= a < b < |turns| ==> turns[a] < turns[b])
    && (forall a :: 0 <= a < |turns| ==>
          && calls[turns[a]].salt == calls[turns[0]].salt && calls[turns[a]].time <= seen[a]
          && seen[a] / SECOND < TWO63 && Passes(start, calls, turns[a], ts, seen[a]))
  }

  lemma {:induction false} TurnsAreFarApart<T(!new)>(start: nat, calls: seq<Call<T>>, ts: uint64, turns: seq<nat>,
                                                     seen: seq<nat>, n: nat)
    requires Monotonic(start, calls) && PassInTurn(start, calls, ts, turns, seen) && n < |turns|
    ensures calls[turns[n]].time >= calls[turns[0]].time + n * (RETAIN + 1)
  {
    if n > 0 {
      TurnsAreFarApart(start, calls, ts, turns, seen, n - 1);
      AcceptancesAreFarApart(start, calls, turns[n - 1], turns[n]);
    }
  }

  /** A header passes once more only for more than 60 seconds of stalling: for its n-th
      repetition, the first session must have stalled between its two readings of the
      clock for more than 60 n - 61 seconds. */
  lemma RepetitionsNeedStall<T(!new)>(start: nat, calls: seq<Call<T>>, ts: uint64, turns: seq<nat>, seen: seq<nat>)
    requires Monotonic(start, calls) && PassInTurn(start, calls, ts, turns, seen) && ts < TWO63
    ensures seen[0] - calls[turns[0]].time > (|turns| - 1) * 60_000_000_000 - 61_000_000_000
  {
    var n := |turns| - 1;
    TurnsAreFarApart(start, calls, ts, turns, seen, n);
    InRangeExactly(ts, seen[0] / SECOND);
    InRangeExactly(ts, seen[n] / SECOND);
  }

  /** If the two readings of each session are one, a header passes twice exactly if both
      sessions are accepted, their truncated seconds are 60 apart and the timestamp lies
      midway, ... */
  lemma DoublePassExactly<T(!new)>(start: nat, calls: seq<Call<T>>, i: nat, j: nat, ts: uint64)
    requires Monotonic(start, calls) && i < j < |calls| && calls[j].time / SECOND < TWO63
    requires ts < TWO63 && calls[i].salt == calls[j].salt
    ensures Passes(start, calls, i, ts, calls[i].time) && Passes(start, calls, j, ts, calls[j].time)
       <==> && Accepted(start, calls, i) && Accepted(start, calls, j)
            && calls[j].time / SECOND == calls[i].time / SECOND + 60 && ts == calls[i].time / SECOND + 30
  {
    InRangeExactly(ts, calls[i].time / SECOND);
    InRangeExactly(ts, calls[j].time / SECOND);
    if Accepted(start, calls, i) && Accepted(start, calls, j) {
      AcceptancesAreFarApart(start, calls, i, j);
    }
  }

  /** ... which needs readings more than 60 and less than 61 seconds apart. */
  lemma DoublePassGap<T(!new)>(start: nat, calls: seq<Call<T>>, i: nat, j: nat, ts: uint64)
    requires Monotonic(start, calls) && i < j < |calls| && calls[j].time / SECOND < TWO63
    requires ts < TWO63 && calls[i].salt == calls[j].salt
    requires Passes(start, calls, i, ts, calls[i].time) && Passes(start, calls, j, ts, calls[j].time)
    ensures 60_000_000_000 < calls[j].time - calls[i].time < 61_000_000_000
  {
    AcceptancesAreFarApart(start, calls, i, j);
    DoublePassExactly(start, calls, i, j, ts);
  }

  /** With a pool that reads whole seconds, no header passes twice whose first session
      reads the clock twice within one second; when the second one does does not matter. */
  lemma WholeSecondsPassOnce<T(!new)>(start: nat, calls: seq<Call<T>>, i: nat, j: nat, ts: uint64, u: nat, v: nat)
    requires Monotonic(start, calls) && i < j < |calls| && calls[i].time <= u && calls[j].time <= v
    requires calls[i].time % SECOND == 0 && calls[j].time % SECOND == 0 && u / SECOND == calls[i].time / SECOND
    requires ts < TWO63 && v / SECOND < TWO63 && calls[i].salt == calls[j].salt
    ensures !(Passes(start, calls, i, ts, u) && Passes(start, calls, j, ts, v))
  {
    if Passes(start, calls, i, ts, u) && Passes(start, calls, j, ts, v) {
      AcceptancesAreFarApart(start, calls, i, j);
      InRangeExactly(ts, u / SECOND);
      InRangeExactly(ts, v / SECOND);
    }
  }

  /** A header whose first session stalls for at most 59 seconds never passes three times. */
  lemma NeverThreeTimes<T(!new)>(start: nat, calls: seq<Call<T>>, ts: uint64, turns: seq<nat>, seen: seq<nat>)
    requires Monotonic(start, calls) && PassInTurn(start, calls, ts, turns, seen) && ts < TWO63
    requires seen[0] - calls[turns[0]].time <= 59_000_000_000
    ensures |turns| < 3
  {
    RepetitionsNeedStall(start, calls, ts, turns, seen);
  }

  /** The limits are real. With one reading per session but fractions of seconds, a header
      passes twice, since the window compares truncated seconds and the pool does not; ... */
  lemma SubSecondDoublePass(salt: int)
    ensures var calls := [Call(salt, 900_000_000), Call(salt, 60_950_000_000)];
            && Monotonic(0, calls)
            && Passes(0, calls, 0, 30, calls[0].time) && Passes(0, calls, 1, 30, calls[1].time)
  {
    var calls := [Call(salt, 900_000_000), Call(salt, 60_950_000_000)];
    assert Before(0, calls, 0) == State(map[], 0);
    assert Before(0, calls, 1) == State(map[salt := 900_000_000], 0);
    assert Accepted(0, calls, 0) && Accepted(0, calls, 1);
  }

  /** ... with whole seconds, if the clock ticks between the two readings of the first
      session; ... */
  lemma TickDoublePass(salt: int)
    ensures var calls := [Call(salt, 0), Call(salt, 61 * SECOND)];
            Monotonic(0, calls) && Passes(0, calls, 0, 31, SECOND) && Passes(0, calls, 1, 31, 61 * SECOND)
  {
    var calls := [Call(salt, 0), Call(salt, 61 * SECOND)];
    assert Before(0, calls, 0) == State(map[], 0);
    assert Before(0, calls, 1) == State(map[salt := 0], 0);
    assert Accepted(0, calls, 0) && Accepted(0, calls, 1);
  }

  /** ... and three times, if the first session stalls for a minute. */
  lemma StalledTriplePass(salt: int)
    ensures var calls := [Call(salt, 0), Call(salt, 61 * SECOND), Call(salt, 122 * SECOND)];
            Monotonic(0, calls) && PassInTurn(0, calls, 92, [0, 1, 2], [62 * SECOND, 62 * SECOND, 122 * SECOND])
  {
    var calls := [Call(salt, 0), Call(salt, 61 * SECOND), Call(salt, 122 * SECOND)];
    assert Before(0, calls, 0) == State(map[], 0);
    assert Before(0, calls, 1) == State(map[salt := 0], 0);
    assert Before(0, calls, 2) == State(map[salt := 61 * SECOND], 61 * SECOND);
    assert Accepted(0, calls, 0) && Accepted(0, calls, 1) && Accepted(0, calls, 2);
  }
}
