/** The fixed-window rate limiter over Redis, and login's two checks on top of it. */
module RateLimit {
  import opened Types

  const MILLISECOND: Duration := 1_000_000

  /** Redis keeps deadlines in milliseconds. */
  type Millis = int

  /** A counter key; `deadline` is absent when the key carries no expiry. */
  datatype Entry = Entry(count: int, deadline: Option<Millis>)

  type Store = map<string, Entry>

  /** Go's int64(d.Seconds()). */
  function WholeSeconds(d: Duration): int {
    if d >= 0 then d / SECOND else -(-d / SECOND)
  }

  /** The whole seconds of a duration: never more than it, and by less than a second less. */
  lemma WholeSecondsOf(d: Duration)
    requires d >= 0
    ensures 0 <= WholeSeconds(d) && WholeSeconds(d) * SECOND <= d < (WholeSeconds(d) + 1) * SECOND
    ensures d % SECOND == 0 ==> WholeSeconds(d) * 1000 == d / MILLISECOND
    ensures WholeSeconds(d) * 1000 == d / MILLISECOND <==> d % SECOND < MILLISECOND
    ensures WholeSeconds(d) >= 1 <==> d >= SECOND
  {
    var n := d / SECOND;
    assert d == n * SECOND + d % SECOND;
    assert d / MILLISECOND == n * 1000 + (d % SECOND) / MILLISECOND;
  }

  /**
   When the script runs, and whether a key whose deadline is this very
   millisecond is already gone: the bounds below hold either way.
   */
  datatype Moment = Moment(at: Millis, goneAtDeadline: bool)

  predicate Alive(e: Entry, m: Moment) {
    e.deadline.None? || m.at < e.deadline.value || (m.at == e.deadline.value && !m.goneAtDeadline)
  }

  /** The counter after the script's INCR and, on the first hit, its EXPIRE; a deadline not ahead deletes the key. */
  function Hit(e: Option<Entry>, secs: int, m: Moment): Option<Entry> {
    var count := HitCount(e, m);
    if count != 1 then Some(Entry(count, e.value.deadline))
    else if secs <= 0 then None
    else Some(Entry(1, Some(m.at + secs * 1000)))
  }

  function HitCount(e: Option<Entry>, m: Moment): (n: int)
    ensures n != 1 ==> e.Some?
  {
    if e.Some? && Alive(e.value, m) then e.value.count + 1 else 1
  }

  function Lookup(store: Store, key: string): Option<Entry> {
    if key in store then Some(store[key]) else None
  }

  function Put(store: Store, key: string, e: Option<Entry>): (r: Store)
    ensures Lookup(r, key) == e
    ensures forall k :: k != key ==> Lookup(r, k) == Lookup(store, k)
  {
    match e
    case Some(entry) => store[key := entry]
    case None => store - {key}
  }

  /** The script's TTL of a key: the time left to the nearest second, -1 without a deadline, -2 without a key. */
  predicate IsTtl(e: Option<Entry>, m: Moment, ttl: int) {
    match e
    case None => ttl == -2
    case Some(Entry(_, None)) => ttl == -1
    case Some(Entry(_, Some(deadline))) => ttl >= 0 && -500 < ttl * 1000 - (deadline - m.at) <= 500
  }

  /**
   How long a refused caller is told to wait: whole seconds, off from the time
   until the window of counter `e` resets by up to half a second.
   */
  predicate TellsReset(e: Option<Entry>, window: Duration, m: Moment, retryAfter: Duration) {
    match e
    case Some(Entry(_, Some(deadline))) =>
      && -500 * MILLISECOND < retryAfter - (deadline - m.at) * MILLISECOND <= 500 * MILLISECOND
      && retryAfter >= 0 && retryAfter % SECOND == 0
    case _ => retryAfter == WholeSeconds(window) * SECOND
  }

  /**
   The caller is told exactly when the window resets if and only if that is a
   whole number of seconds away, and too little if and only if the rest of it is
   below half a second.
   */
  lemma ToldExactlyIff(e: Entry, window: Duration, m: Moment, retryAfter: Duration)
    requires e.deadline.Some? && TellsReset(Some(e), window, m, retryAfter)
    ensures var left := e.deadline.value - m.at;
            && (retryAfter == left * MILLISECOND <==> left % 1000 == 0)
            && (retryAfter < left * MILLISECOND <==> 0 < left % 1000 < 500)
            && (retryAfter == 0 <==> left < 500)
  {
    var left, n := e.deadline.value - m.at, retryAfter / SECOND;
    assert retryAfter == n * SECOND;
    assert -500 < n * 1000 - left <= 500;
  }

  /** For instance, with 1.3 seconds left the caller is told one second, and after it still counts in the old window. */
  lemma ToldTooLittle(e: Entry, window: Duration, m: Moment, retryAfter: Duration, gone: bool)
    requires e.deadline == Some(m.at + 1300) && TellsReset(Some(e), window, m, retryAfter)
    ensures retryAfter == SECOND && HitCount(Some(e), Moment(m.at + 1000, gone)) == e.count + 1
  {
    var n := retryAfter / SECOND;
    assert retryAfter == n * SECOND;
    assert -500 < n * 1000 - 1300 <= 500;
  }

  /** Coming back when told, the first caller opens the next window exactly when that was not too early. */
  lemma BackWhenTold(e: Entry, window: Duration, m: Moment, retryAfter: Duration, back: Moment)
    requires e.count >= 1 && e.deadline.Some? && TellsReset(Some(e), window, m, retryAfter)
    requires back.at * MILLISECOND == m.at * MILLISECOND + retryAfter
    ensures var left := e.deadline.value - m.at;
            HitCount(Some(e), back) == 1 <==> left % 1000 >= 500 || (left % 1000 == 0 && back.goneAtDeadline)
  {
    ToldExactlyIff(e, window, m, retryAfter);
    assert (back.at - e.deadline.value) * MILLISECOND == retryAfter - (e.deadline.value - m.at) * MILLISECOND;
  }

  /** So who waits half a second longer than told, and is the first to come back, opens the next window. */
  lemma RetryOpensWindow(e: Entry, window: Duration, m: Moment, retryAfter: Duration, later: Moment)
    requires e.deadline.Some? && TellsReset(Some(e), window, m, retryAfter)
    requires later.at * MILLISECOND >= m.at * MILLISECOND + retryAfter + 500 * MILLISECOND
    ensures HitCount(Some(e), later) == 1
  {
    assert (later.at - e.deadline.value) * MILLISECOND > 0;
  }

  class Limiter {
    var store: Store

    constructor ()
      ensures store == map[]
    {
      store := map[];
    }

    /** allowScript: INCR, EXPIRE on the first hit, TTL. */
    method AllowScript(key: string, secs: int, m: Moment) returns (current: int, ttl: int)
      modifies this
      ensures current == HitCount(Lookup(old(store), key), m)
      ensures Lookup(store, key) == Hit(Lookup(old(store), key), secs, m)
      ensures forall k :: k != key ==> Lookup(store, k) == Lookup(old(store), k)
      ensures IsTtl(Lookup(store, key), m, ttl)
    {
      if key in store && !Alive(store[key], m) {
        store := store - {key};
      }
      // INCR
      if key in store {
        current := store[key].count + 1;
        store := store[key := store[key].(count := current)];
      } else {
        current := 1;
        store := store[key := Entry(1, None)];
      }
      // EXPIRE
      if current == 1 {
        if secs <= 0 {
          store := store - {key};
        } else {
          store := store[key := store[key].(deadline := Some(m.at + secs * 1000))];
        }
      }
      // TTL, rounded to the nearest second
      if key !in store {
        ttl := -2;
      } else if store[key].deadline.None? {
        ttl := -1;
      } else {
        var left := store[key].deadline.value - m.at;
        ttl := (left + 500) / 1000;
      }
    }

    /** Allow: the script's count decides. */
    method Allow(key: string, max: int, window: Duration, m: Moment) returns (allowed: bool, retryAfter: Duration)
      modifies this
      ensures allowed <==> HitCount(Lookup(old(store), key), m) <= max
      ensures Lookup(store, key) == Hit(Lookup(old(store), key), WholeSeconds(window), m)
      ensures forall k :: k != key ==> Lookup(store, k) == Lookup(old(store), k)
      ensures if allowed then retryAfter == 0 else TellsReset(Lookup(store, key), window, m, retryAfter)
    {
      var current, ttl := AllowScript(key, WholeSeconds(window), m);
      if current > max {
        if ttl < 0 {
          ttl := WholeSeconds(window);
        }
        return false, ttl * SECOND;
      }
      return true, 0;
    }
  }

  // ------------------------------------------------------------------------
  // One key over a whole run of attempts.
  // ------------------------------------------------------------------------

  /** One use of the limiter; an answer that is lost on the way back allows nothing. */
  datatype Attempt = Attempt(moment: Moment, heard: bool)

  datatype KeyRun = KeyRun(entry: Option<Entry>, passed: seq<bool>)

  /** The life of one key from entry `e0`; `passed` tells which attempts were allowed. */
  function RunKey(e0: Option<Entry>, max: int, secs: int, attempts: seq<Attempt>): (r: KeyRun)
    ensures |r.passed| == |attempts|
  {
    if attempts == [] then KeyRun(e0, [])
    else
      var before := RunKey(e0, max, secs, Front(attempts));
      var m := Last(attempts).moment;
      KeyRun(Hit(before.entry, secs, m),
             before.passed + [Last(attempts).heard && HitCount(before.entry, m) <= max])
  }

  /** How many attempts with `from <= at < to` passed. */
  function PassedWithin(attempts: seq<Attempt>, passed: seq<bool>, from: Millis, to: Millis): nat
    requires |attempts| == |passed|
  {
    if attempts == [] then 0
    else
      PassedWithin(Front(attempts), Front(passed), from, to)
      + if Last(passed) && from <= Last(attempts).moment.at < to then 1 else 0
  }

  /** A counter the script can have left behind by `now`: its window opened no later than that. */
  predicate Counting(e: Option<Entry>, span: Millis, now: Millis) {
    e.Some? ==> e.value.count >= 1 && e.value.deadline.Some? && e.value.deadline.value <= now + span
  }

  /**
   Where the current window stands to an interval of length `span` from `from`,
   and how many attempts can have passed inside the interval so far: a window
   that began before the interval spent its first attempt outside it, and at
   most one window can begin inside.
   */
  predicate WithinBudget(e: Option<Entry>, max: int, span: Millis, from: Millis, passed: int) {
    && (e.None? ==> passed == 0)
    && (e.Some? && e.value.deadline.Some? ==>
        var start := e.value.deadline.value - span;
        var used := Min(e.value.count, max);
        if start < from then passed <= used - 1
        else if start < from + span then passed <= max - 1 + used
        else passed <= 2 * max - 1)
  }

  lemma HitWithinBudget(e: Option<Entry>, max: int, secs: int, a: Attempt, from: Millis, passed: int)
    requires secs >= 1 && max >= 1
    requires Counting(e, secs * 1000, a.moment.at) && WithinBudget(e, max, secs * 1000, from, passed)
    requires a.moment.at < from ==> passed == 0
    ensures var counts := a.heard && HitCount(e, a.moment) <= max && from <= a.moment.at < from + secs * 1000;
            WithinBudget(Hit(e, secs, a.moment), max, secs * 1000, from, passed + if counts then 1 else 0)
    ensures Counting(Hit(e, secs, a.moment), secs * 1000, a.moment.at)
  {
  }

  /** One more attempt at the end of a run. */
  lemma RunSnoc(e0: Option<Entry>, max: int, secs: int, attempts: seq<Attempt>, a: Attempt, from: Millis, to: Millis)
    ensures var r, r' := RunKey(e0, max, secs, attempts), RunKey(e0, max, secs, attempts + [a]);
            var passes := a.heard && HitCount(r.entry, a.moment) <= max;
            && r'.entry == Hit(r.entry, secs, a.moment)
            && PassedWithin(attempts + [a], r'.passed, from, to) ==
               PassedWithin(attempts, r.passed, from, to) + if passes && from <= a.moment.at < to then 1 else 0
  {
    assert Front(attempts + [a]) == attempts;
    assert Front(RunKey(e0, max, secs, attempts + [a]).passed) == RunKey(e0, max, secs, attempts).passed;
  }

  /** When a run's last attempt was; `start` before there is one. */
  function LastAt(attempts: seq<Attempt>, start: Millis): Millis {
    if attempts == [] then start else Last(attempts).moment.at
  }

  /** Attempts in order, none before `start`. */
  predicate Chronological(attempts: seq<Attempt>, start: Millis) {
    && (forall i :: 0 <= i < |attempts| ==> start <= attempts[i].moment.at)
    && forall i, j :: 0 <= i < j < |attempts| ==> attempts[i].moment.at <= attempts[j].moment.at
  }

  lemma {:induction false} RunWithinBudget(e0: Option<Entry>, max: int, secs: int, attempts: seq<Attempt>,
                                           start: Millis, from: Millis)
    requires secs >= 1 && max >= 1 && Counting(e0, secs * 1000, start) && Chronological(attempts, start)
    ensures var r := RunKey(e0, max, secs, attempts);
            var n := PassedWithin(attempts, r.passed, from, from + secs * 1000);
            && Counting(r.entry, secs * 1000, LastAt(attempts, start))
            && WithinBudget(r.entry, max, secs * 1000, from, n)
            && (LastAt(attempts, start) < from ==> n == 0)
  {
    if attempts != [] {
      var before, a := Front(attempts), Last(attempts);
      RunWithinBudget(e0, max, secs, before, start, from);
      var r := RunKey(e0, max, secs, before);
      assert Front(RunKey(e0, max, secs, attempts).passed) == r.passed;
      assert LastAt(before, start) <= a.moment.at;
      HitWithinBudget(r.entry, max, secs, a, from, PassedWithin(before, r.passed, from, from + secs * 1000));
    }
  }

  /**
   For a window of at least one whole second, whatever the counter held before,
   every half-open interval as long as the window holds at most 2 * max - 1
   passed attempts per key.
   */
  lemma RateBound(e0: Option<Entry>, max: int, secs: int, attempts: seq<Attempt>, start: Millis, from: Millis)
    requires secs >= 1 && max >= 1 && Counting(e0, secs * 1000, start) && Chronological(attempts, start)
    ensures PassedWithin(attempts, RunKey(e0, max, secs, attempts).passed, from, from + secs * 1000) <= 2 * max - 1
  {
    RunWithinBudget(e0, max, secs, attempts, start, from);
  }

  /** A shorter interval holds no more. */
  lemma {:induction false} FewerWithin(attempts: seq<Attempt>, passed: seq<bool>, from: Millis, to: Millis, to': Millis)
    requires |attempts| == |passed| && to <= to'
    ensures PassedWithin(attempts, passed, from, to) <= PassedWithin(attempts, passed, from, to')
  {
    if attempts != [] {
      FewerWithin(Front(attempts), Front(passed), from, to, to');
    }
  }

  /** A window of less than a second limits nothing: the key is deleted as soon as it is counted. */
  lemma {:induction false} SubSecondWindowLimitsNothing(max: int, secs: int, attempts: seq<Attempt>)
    requires secs <= 0 && max >= 1
    ensures var r := RunKey(None, max, secs, attempts);
            r.entry.None? && forall i :: 0 <= i < |attempts| ==> r.passed[i] == attempts[i].heard
  {
    if attempts != [] {
      SubSecondWindowLimitsNothing(max, secs, Front(attempts));
    }
  }

  // ------------------------------------------------------------------------
  // The bound is reached, and holds of no longer interval.
  // ------------------------------------------------------------------------

  /** Attempts in order, none before 0 and none after `now`. */
  predicate InOrderTo(attempts: seq<Attempt>, now: Millis) {
    if attempts == [] then 0 <= now
    else Last(attempts).moment.at <= now && InOrderTo(Front(attempts), Last(attempts).moment.at)
  }

  lemma {:induction false} InOrderIsChronological(attempts: seq<Attempt>, now: Millis)
    requires InOrderTo(attempts, now)
    ensures Chronological(attempts, 0) && 0 <= LastAt(attempts, 0) <= now
  {
    if attempts != [] {
      InOrderIsChronological(Front(attempts), Last(attempts).moment.at);
      assert attempts == Front(attempts) + [Last(attempts)];
      ChronologicalSnoc(Front(attempts), Last(attempts), 0);
    }
  }

  /**
   A run of attempts in order from 0 to `now` on a fresh key: the count and the
   deadline it ends with, and its tally `n` between `from` and `to`.
   */
  predicate Leaves(max: int, secs: int, attempts: seq<Attempt>, now: Millis, from: Millis, to: Millis, count: int,
                   deadline: Millis, n: int)
  {
    && InOrderTo(attempts, now)
    && RunKey(None, max, secs, attempts).entry == Some(Entry(count, Some(deadline)))
    && PassedWithin(attempts, RunKey(None, max, secs, attempts).passed, from, to) == n
  }

  lemma {:induction false} OneMore(max: int, secs: int, before: seq<Attempt>, a: Attempt, from: Millis, to: Millis,
                                   count: int, deadline: Millis, tally: int)
    requires Leaves(max, secs, before, a.moment.at, from, to, count, deadline, tally)
    requires secs >= 1 && a.heard && from <= a.moment.at < to
    ensures a.moment.at < deadline && 1 <= count < max ==>
              Leaves(max, secs, before + [a], a.moment.at, from, to, count + 1, deadline, tally + 1)
    ensures a.moment.at == deadline && a.moment.goneAtDeadline && max >= 1 ==>
              Leaves(max, secs, before + [a], a.moment.at, from, to, 1, deadline + secs * 1000, tally + 1)
  {
    RunSnoc(None, max, secs, before, a, from, to);
    assert Front(before + [a]) == before;
  }

  /** A burst on a live counter that stays within `max`: all of it passes. */
  lemma {:induction false} Burst(max: int, secs: int, before: seq<Attempt>, n: nat, at: Millis, from: Millis,
                                 to: Millis, count: int, deadline: Millis, tally: int) returns (after: seq<Attempt>)
    requires Leaves(max, secs, before, at, from, to, count, deadline, tally)
    requires secs >= 1 && at < deadline && 1 <= count && count + n <= max && from <= at < to
    ensures Leaves(max, secs, after, at, from, to, count + n, deadline, tally + n)
  {
    if n == 0 {
      after := before;
    } else {
      var prefix := Burst(max, secs, before, n - 1, at, from, to, count, deadline, tally);
      after := prefix + [Attempt(Moment(at, true), true)];
      OneMore(max, secs, prefix, Attempt(Moment(at, true), true), from, to, count + n - 1, deadline, tally + n - 1);
    }
  }

  /** An attempt at 0 opens a window. */
  lemma {:induction false} FirstAttempt(max: int, secs: int, from: Millis, to: Millis) returns (attempts: seq<Attempt>)
    requires secs >= 1 && max >= 1 && 0 < to
    ensures Leaves(max, secs, attempts, 0, from, to, 1, secs * 1000, if from <= 0 then 1 else 0)
  {
    attempts := [Attempt(Moment(0, true), true)];
    assert Front(attempts) == [];
    assert Front(RunKey(None, max, secs, attempts).passed) == [];
  }

  /** `max` attempts when the next window opens all pass. */
  lemma {:induction false} NextBurst(max: nat, secs: nat, span: int, before: seq<Attempt>, at: Millis, from: Millis,
                                     to: Millis, tally: int) returns (attempts: seq<Attempt>)
    requires max >= 1 && secs >= 1 && span == secs * 1000 && at < span && from <= span < to
    requires Leaves(max, secs, before, at, from, to, max, span, tally)
    ensures Leaves(max, secs, attempts, span, from, to, max, span + span, tally + max)
  {
    var again := Attempt(Moment(span, true), true);
    assert InOrderTo(before, span);
    OneMore(max, secs, before, again, from, to, max, span, tally);
    attempts := Burst(max, secs, before + [again], max - 1, span, from, to, 1, span + span, tally + 1);
  }

  /** An attempt at 0, `max - 1` more at `at`, and `max` when the next window opens: how many pass from `at` on. */
  lemma {:induction false} Bursts(max: nat, secs: nat, span: int, at: Millis, to: Millis)
    returns (attempts: seq<Attempt>)
    requires max >= 1 && secs >= 1 && span == secs * 1000 && 0 <= at < span < to
    ensures Leaves(max, secs, attempts, span, at, to, max, span + span, 2 * max - if at == 0 then 0 else 1)
  {
    var first := FirstAttempt(max, secs, at, to);
    var tally := if at <= 0 then 1 else 0;
    var burst := Burst(max, secs, first, max - 1, at, at, to, 1, span, tally);
    attempts := NextBurst(max, secs, span, burst, at, at, to, tally + max - 1);
  }

  /** The bound is reached, for every window and every limit. */
  lemma {:induction false} RateBoundIsSharp(max: nat, secs: nat) returns (attempts: seq<Attempt>)
    requires max >= 1 && secs >= 1
    ensures Chronological(attempts, 0)
    ensures var span := secs * 1000;
            PassedWithin(attempts, RunKey(None, max, secs, attempts).passed, span - 1, span - 1 + span) == 2 * max - 1
  {
    var span := secs * 1000;
    attempts := Bursts(max, secs, span, span - 1, span - 1 + span);
    InOrderIsChronological(attempts, span);
  }

  /** A run from a counter the script can have left behind stays within the bound, from `from` on for `length`. */
  predicate Bounded(max: int, secs: int, length: Millis, e0: Option<Entry>, attempts: seq<Attempt>, start: Millis,
                    from: Millis)
  {
    Counting(e0, secs * 1000, start) && Chronological(attempts, start) ==>
      PassedWithin(attempts, RunKey(e0, max, secs, attempts).passed, from, from + length) <= 2 * max - 1
  }

  /** The bound holds of every run and every interval of length `length`. */
  ghost predicate BoundHolds(max: int, secs: int, length: Millis) {
    forall e0, attempts, start, from :: Bounded(max, secs, length, e0, attempts, start, from)
  }

  /** So the bound holds of intervals as long as the stored window and no longer. */
  lemma {:induction false} BoundHoldsIff(max: nat, secs: nat, length: Millis)
    requires max >= 1 && secs >= 1
    ensures BoundHolds(max, secs, length) <==> length <= secs * 1000
  {
    if length <= secs * 1000 {
      forall e0, attempts, start, from
        ensures Bounded(max, secs, length, e0, attempts, start, from)
      {
        if Counting(e0, secs * 1000, start) && Chronological(attempts, start) {
          RateBound(e0, max, secs, attempts, start, from);
          FewerWithin(attempts, RunKey(e0, max, secs, attempts).passed, from, from + length, from + secs * 1000);
        }
      }
    } else {
      var attempts := Bursts(max, secs, secs * 1000, 0, length);
      InOrderIsChronological(attempts, secs * 1000);
      assert !Bounded(max, secs, length, None, attempts, 0, 0);
    }
  }

  /**
   Hence, of intervals as long as the configured window itself, exactly when the
   window is a whole number of seconds, to the millisecond.
   */
  lemma BoundHoldsOfWindowIff(max: nat, window: Duration)
    requires max >= 1 && window >= SECOND
    ensures BoundHolds(max, WholeSeconds(window), window / MILLISECOND) <==> window % SECOND < MILLISECOND
  {
    WholeSecondsOf(window);
    BoundHoldsIff(max, WholeSeconds(window), window / MILLISECOND);
    assert window / MILLISECOND >= WholeSeconds(window) * 1000;
  }

  // ------------------------------------------------------------------------
  // Login's two checks.
  // ------------------------------------------------------------------------

  datatype Limits = Limits(ipMax: int, ipWindow: Duration, identityMax: int, identityWindow: Duration)

  const IP_PREFIX := "ratelimit:login:ip:"
  const IDENTITY_PREFIX := "ratelimit:login:identity:"

  function IpKey(ip: string): string {
    IP_PREFIX + ip
  }

  function IdentityKey(identifierHash: string, ip: string): string {
    IDENTITY_PREFIX + identifierHash + ":" + ip
  }

  lemma KeysNeverCollide(ip: string, identifierHash: string, ip': string)
    ensures IpKey(ip) != IdentityKey(identifierHash, ip')
  {
    assert IpKey(ip)[17] == 'p';
    assert IdentityKey(identifierHash, ip')[17] == 'd';
  }

  lemma IpKeysAreDistinct(ip: string, ip': string)
    ensures IpKey(ip) == IpKey(ip') ==> ip == ip'
  {
    assert IpKey(ip)[|IP_PREFIX|..] == ip;
    assert IpKey(ip')[|IP_PREFIX|..] == ip';
  }

  /** What comes before the first colon. */
  function BeforeColon(s: string): string {
    if s == "" || s[0] == ':' then "" else [s[0]] + BeforeColon(s[1..])
  }

  lemma {:induction false} BeforeColonOf(a: string, b: string)
    requires ':' !in a
    ensures BeforeColon(a + ":" + b) == a
  {
    var s := a + ":" + b;
    if a != "" {
      assert s[1..] == a[1..] + ":" + b;
      BeforeColonOf(a[1..], b);
    }
  }

  /** Identities and addresses each have a counter of their own, a hash being free of colons. */
  lemma IdentityKeysAreDistinct(h: string, ip: string, h': string, ip': string)
    requires ':' !in h && ':' !in h'
    ensures IdentityKey(h, ip) == IdentityKey(h', ip') ==> h == h' && ip == ip'
  {
    if IdentityKey(h, ip) == IdentityKey(h', ip') {
      assert IdentityKey(h, ip)[|IDENTITY_PREFIX|..] == h + ":" + ip;
      assert IdentityKey(h', ip')[|IDENTITY_PREFIX|..] == h' + ":" + ip';
      BeforeColonOf(h, ip);
      BeforeColonOf(h', ip');
      assert (h + ":" + ip)[|h| + 1..] == ip && (h' + ":" + ip')[|h| + 1..] == ip';
    }
  }

  /** How a call to Redis goes: answered, lost before it runs, or run but not heard back. */
  datatype Fate = Answered | LostRequest | LostReply

  /** One login's visit to the limiter: when and how each of its two calls goes. */
  datatype Visit = Visit(ip: string, identifierHash: string, first: Moment, firstFate: Fate,
                         second: Moment, secondFate: Fate)

  datatype Verdict = Passed | Limited(retryAfter: Duration) | Unavailable

  /** One call: the store after it, and whether it was allowed and heard. */
  function CallStore(store: Store, key: string, window: Duration, m: Moment, fate: Fate): Store {
    if fate.LostRequest? then store else Put(store, key, Hit(Lookup(store, key), WholeSeconds(window), m))
  }

  predicate CallPasses(store: Store, key: string, max: int, m: Moment, fate: Fate) {
    fate.Answered? && HitCount(Lookup(store, key), m) <= max
  }

  predicate PassesIp(limits: Limits, store: Store, v: Visit) {
    CallPasses(store, IpKey(v.ip), limits.ipMax, v.first, v.firstFate)
  }

  /** The identity check of a visit whose address has passed. */
  predicate PassesIdentity(limits: Limits, store: Store, v: Visit) {
    CallPasses(CallStore(store, IpKey(v.ip), limits.ipWindow, v.first, v.firstFate),
               IdentityKey(v.identifierHash, v.ip), limits.identityMax, v.second, v.secondFate)
  }

  function VisitStore(limits: Limits, store: Store, v: Visit): Store {
    var store' := CallStore(store, IpKey(v.ip), limits.ipWindow, v.first, v.firstFate);
    if PassesIp(limits, store, v)
    then CallStore(store', IdentityKey(v.identifierHash, v.ip), limits.identityWindow, v.second, v.secondFate)
    else store'
  }

  /** checkRateLimit: the identity is consulted only after the address has passed. */
  method CheckRateLimit(limiter: Limiter, limits: Limits, v: Visit) returns (verdict: Verdict)
    modifies limiter
    ensures forall k :: Lookup(limiter.store, k) == Lookup(VisitStore(limits, old(limiter.store), v), k)
    ensures verdict.Passed? <==>
            PassesIp(limits, old(limiter.store), v) && PassesIdentity(limits, old(limiter.store), v)
    ensures verdict.Unavailable? <==>
            !v.firstFate.Answered? || (PassesIp(limits, old(limiter.store), v) && !v.secondFate.Answered?)
    ensures verdict.Limited? ==>
            if PassesIp(limits, old(limiter.store), v)
            then TellsReset(Lookup(limiter.store, IdentityKey(v.identifierHash, v.ip)), limits.identityWindow,
                            v.second, verdict.retryAfter)
            else TellsReset(Lookup(limiter.store, IpKey(v.ip)), limits.ipWindow, v.first, verdict.retryAfter)
    ensures !PassesIp(limits, old(limiter.store), v) ==>
            forall k :: k != IpKey(v.ip) ==> Lookup(limiter.store, k) == Lookup(old(limiter.store), k)
  {
    KeysNeverCollide(v.ip, v.identifierHash, v.ip);
    if v.firstFate.LostRequest? {
      return Unavailable;
    }
    var allowed, retryAfter := limiter.Allow(IpKey(v.ip), limits.ipMax, limits.ipWindow, v.first);
    if v.firstFate.LostReply? {
      return Unavailable;
    }
    if !allowed {
      return Limited(retryAfter);
    }
    if v.secondFate.LostRequest? {
      return Unavailable;
    }
    allowed, retryAfter := limiter.Allow(IdentityKey(v.identifierHash, v.ip), limits.identityMax,
                                         limits.identityWindow, v.second);
    if v.secondFate.LostReply? {
      return Unavailable;
    }
    verdict := if allowed then Passed else Limited(retryAfter);
  }

  /** The stores a run of visits goes through. */
  function StoreAfter(limits: Limits, store: Store, visits: seq<Visit>): Store {
    if visits == [] then store else VisitStore(limits, StoreAfter(limits, store, Front(visits)), Last(visits))
  }

  /** What a run of visits does to the counter of one address. */
  function AddressAttempts(visits: seq<Visit>, ip: string): seq<Attempt> {
    if visits == [] then []
    else
      AddressAttempts(Front(visits), ip)
      + if Last(visits).ip == ip && !Last(visits).firstFate.LostRequest?
        then [Attempt(Last(visits).first, Last(visits).firstFate.Answered?)] else []
  }

  /** How many visits from `ip` passed the address check at `from <= at < to`. */
  function AddressPasses(limits: Limits, store: Store, visits: seq<Visit>, ip: string, from: Millis, to: Millis): nat {
    if visits == [] then 0
    else
      var v := Last(visits);
      AddressPasses(limits, store, Front(visits), ip, from, to)
      + if && v.ip == ip && from <= v.first.at < to
           && PassesIp(limits, StoreAfter(limits, store, Front(visits)), v) then 1 else 0
  }

  /** Only visits from an address touch its counter, whatever the identities and the other addresses do. */
  lemma VisitOnAddress(limits: Limits, store: Store, v: Visit, ip: string)
    ensures Lookup(VisitStore(limits, store, v), IpKey(ip)) ==
            if v.ip == ip && !v.firstFate.LostRequest?
            then Hit(Lookup(store, IpKey(ip)), WholeSeconds(limits.ipWindow), v.first)
            else Lookup(store, IpKey(ip))
  {
    KeysNeverCollide(ip, v.identifierHash, v.ip);
    IpKeysAreDistinct(ip, v.ip);
  }

  lemma {:induction false} AddressProjection(limits: Limits, store: Store, visits: seq<Visit>, ip: string,
                                             from: Millis, to: Millis)
    ensures var attempts := AddressAttempts(visits, ip);
            var r := RunKey(Lookup(store, IpKey(ip)), limits.ipMax, WholeSeconds(limits.ipWindow), attempts);
            && Lookup(StoreAfter(limits, store, visits), IpKey(ip)) == r.entry
            && AddressPasses(limits, store, visits, ip, from, to) == PassedWithin(attempts, r.passed, from, to)
  {
    if visits != [] {
      var v := Last(visits);
      AddressProjection(limits, store, Front(visits), ip, from, to);
      VisitOnAddress(limits, StoreAfter(limits, store, Front(visits)), v, ip);
      var attempts, attempts' := AddressAttempts(Front(visits), ip), AddressAttempts(visits, ip);
      if v.ip == ip && !v.firstFate.LostRequest? {
        RunSnoc(Lookup(store, IpKey(ip)), limits.ipMax, WholeSeconds(limits.ipWindow), attempts,
                Attempt(v.first, v.firstFate.Answered?), from, to);
      } else {
        assert attempts' == attempts;
      }
    }
  }

  predicate VisitsInOrder(visits: seq<Visit>, start: Millis) {
    && (forall i :: 0 <= i < |visits| ==> start <= visits[i].first.at)
    && forall i, j :: 0 <= i < j < |visits| ==> visits[i].first.at <= visits[j].first.at
  }

  lemma {:induction false} AttemptsInOrder(visits: seq<Visit>, ip: string, start: Millis)
    requires VisitsInOrder(visits, start)
    ensures Chronological(AddressAttempts(visits, ip), start)
    ensures forall i :: 0 <= i < |AddressAttempts(visits, ip)| ==>
              visits != [] && AddressAttempts(visits, ip)[i].moment.at <= Last(visits).first.at
  {
    if visits != [] {
      AttemptsInOrder(Front(visits), ip, start);
      assert Front(visits) != [] ==> Last(Front(visits)) == visits[|visits| - 2];
    }
  }

  /**
   Over every run of logins from any addresses, starting from counters the
   limiter left behind, at most 2 * ipMax - 1 logins from one address pass the
   address check in any interval as long as the address window.
   */
  lemma AddressRateBound(limits: Limits, store: Store, visits: seq<Visit>, ip: string, start: Millis, from: Millis)
    requires limits.ipMax >= 1 && WholeSeconds(limits.ipWindow) >= 1
    requires VisitsInOrder(visits, start)
    requires Counting(Lookup(store, IpKey(ip)), WholeSeconds(limits.ipWindow) * 1000, start)
    ensures AddressPasses(limits, store, visits, ip, from, from + WholeSeconds(limits.ipWindow) * 1000) <=
            2 * limits.ipMax - 1
  {
    AddressProjection(limits, store, visits, ip, from, from + WholeSeconds(limits.ipWindow) * 1000);
    AttemptsInOrder(visits, ip, start);
    RateBound(Lookup(store, IpKey(ip)), limits.ipMax, WholeSeconds(limits.ipWindow), AddressAttempts(visits, ip),
              start, from);
  }

  function KeyOf(v: Visit): string {
    IdentityKey(v.identifierHash, v.ip)
  }

  /** The visit reaches the identity counter `key`. */
  predicate ReachesIdentity(limits: Limits, store: Store, v: Visit, key: string) {
    KeyOf(v) == key && PassesIp(limits, store, v) && !v.secondFate.LostRequest?
  }

  /** What a run of visits does to one identity counter. */
  function IdentityAttempts(limits: Limits, store: Store, visits: seq<Visit>, key: string): seq<Attempt> {
    if visits == [] then []
    else
      var v := Last(visits);
      IdentityAttempts(limits, store, Front(visits), key)
      + if ReachesIdentity(limits, StoreAfter(limits, store, Front(visits)), v, key)
        then [Attempt(v.second, v.secondFate.Answered?)] else []
  }

  /** How many visits passed both checks, the second against counter `key` at `from <= at < to`. */
  function IdentityPasses(limits: Limits, store: Store, visits: seq<Visit>, key: string, from: Millis,
                          to: Millis): nat {
    if visits == [] then 0
    else
      var v, before := Last(visits), StoreAfter(limits, store, Front(visits));
      IdentityPasses(limits, store, Front(visits), key, from, to)
      + if && KeyOf(v) == key && from <= v.second.at < to
           && PassesIp(limits, before, v) && PassesIdentity(limits, before, v) then 1 else 0
  }

  /** Only visits that reach an identity counter touch it. */
  lemma VisitOnIdentity(limits: Limits, store: Store, v: Visit, identifierHash: string, ip: string)
    ensures var key := IdentityKey(identifierHash, ip);
            && Lookup(VisitStore(limits, store, v), key) ==
               (if ReachesIdentity(limits, store, v, key)
                then Hit(Lookup(store, key), WholeSeconds(limits.identityWindow), v.second)
                else Lookup(store, key))
            && (KeyOf(v) == key ==>
                (PassesIdentity(limits, store, v) <==>
                 v.secondFate.Answered? && HitCount(Lookup(store, key), v.second) <= limits.identityMax))
  {
    KeysNeverCollide(v.ip, identifierHash, ip);
  }

  lemma {:induction false} IdentityProjection(limits: Limits, store: Store, visits: seq<Visit>,
                                              identifierHash: string, ip: string,
                                              from: Millis, to: Millis)
    ensures var key := IdentityKey(identifierHash, ip);
            var attempts := IdentityAttempts(limits, store, visits, key);
            var r := RunKey(Lookup(store, key), limits.identityMax, WholeSeconds(limits.identityWindow), attempts);
            && Lookup(StoreAfter(limits, store, visits), key) == r.entry
            && IdentityPasses(limits, store, visits, key, from, to) == PassedWithin(attempts, r.passed, from, to)
  {
    if visits != [] {
      var key := IdentityKey(identifierHash, ip);
      var v, before := Last(visits), StoreAfter(limits, store, Front(visits));
      IdentityProjection(limits, store, Front(visits), identifierHash, ip, from, to);
      VisitOnIdentity(limits, before, v, identifierHash, ip);
      var attempts := IdentityAttempts(limits, store, Front(visits), key);
      if ReachesIdentity(limits, before, v, key) {
        RunSnoc(Lookup(store, key), limits.identityMax, WholeSeconds(limits.identityWindow), attempts,
                Attempt(v.second, v.secondFate.Answered?), from, to);
      } else {
        assert IdentityAttempts(limits, store, visits, key) == attempts;
      }
    }
  }

  /** When the last visit to counter `key` made its second check; `start` before there is one. */
  function LastSecond(visits: seq<Visit>, key: string, start: Millis): Millis {
    if visits == [] then start
    else if KeyOf(Last(visits)) == key then Last(visits).second.at
    else LastSecond(Front(visits), key, start)
  }

  /** The second checks of the visits to one identity counter come in order. */
  predicate SecondsInOrder(visits: seq<Visit>, key: string, start: Millis) {
    visits == []
    || (SecondsInOrder(Front(visits), key, start)
        && (KeyOf(Last(visits)) == key ==> LastSecond(Front(visits), key, start) <= Last(visits).second.at))
  }

  lemma ChronologicalSnoc(attempts: seq<Attempt>, a: Attempt, start: Millis)
    requires Chronological(attempts, start) && LastAt(attempts, start) <= a.moment.at
    ensures Chronological(attempts + [a], start)
  {
  }

  lemma {:induction false} IdentityAttemptsInOrder(limits: Limits, store: Store, visits: seq<Visit>, key: string,
                                                   start: Millis)
    requires SecondsInOrder(visits, key, start)
    ensures var attempts := IdentityAttempts(limits, store, visits, key);
            Chronological(attempts, start) && LastAt(attempts, start) <= LastSecond(visits, key, start)
  {
    if visits != [] {
      IdentityAttemptsInOrder(limits, store, Front(visits), key, start);
      var v, before := Last(visits), IdentityAttempts(limits, store, Front(visits), key);
      if ReachesIdentity(limits, StoreAfter(limits, store, Front(visits)), v, key) {
        ChronologicalSnoc(before, Attempt(v.second, v.secondFate.Answered?), start);
      } else {
        assert IdentityAttempts(limits, store, visits, key) == before;
      }
    }
  }

  /**
   The same bound for one identity at one address: logins that pass both checks
   in an interval as long as its window.
   */
  lemma IdentityRateBound(limits: Limits, store: Store, visits: seq<Visit>, identifierHash: string, ip: string,
                          start: Millis, from: Millis)
    requires limits.identityMax >= 1 && WholeSeconds(limits.identityWindow) >= 1
    requires SecondsInOrder(visits, IdentityKey(identifierHash, ip), start)
    requires Counting(Lookup(store, IdentityKey(identifierHash, ip)), WholeSeconds(limits.identityWindow) * 1000, start)
    ensures IdentityPasses(limits, store, visits, IdentityKey(identifierHash, ip), from,
                           from + WholeSeconds(limits.identityWindow) * 1000)
            <= 2 * limits.identityMax - 1
  {
    var key := IdentityKey(identifierHash, ip);
    IdentityProjection(limits, store, visits, identifierHash, ip, from,
                       from + WholeSeconds(limits.identityWindow) * 1000);
    IdentityAttemptsInOrder(limits, store, visits, key, start);
    RateBound(Lookup(store, key), limits.identityMax, WholeSeconds(limits.identityWindow),
              IdentityAttempts(limits, store, visits, key), start, from);
  }

  /** A refusal by address consumes no identity quota. */
  lemma AddressRefusalSparesIdentities(limits: Limits, store: Store, v: Visit, identifierHash: string, ip: string)
    requires !PassesIp(limits, store, v)
    ensures Lookup(VisitStore(limits, store, v), IdentityKey(identifierHash, ip)) ==
            Lookup(store, IdentityKey(identifierHash, ip))
  {
    KeysNeverCollide(v.ip, identifierHash, ip);
  }

  // ------------------------------------------------------------------------
  // The bounds in terms of the configured windows.
  // ------------------------------------------------------------------------

  /** With an address window of whole seconds, the bound holds of every interval as long as that window. */
  lemma AddressWindowBound(limits: Limits, store: Store, visits: seq<Visit>, ip: string, start: Millis, from: Millis)
    requires limits.ipMax >= 1 && limits.ipWindow >= SECOND && limits.ipWindow % SECOND == 0
    requires VisitsInOrder(visits, start) && Counting(Lookup(store, IpKey(ip)), limits.ipWindow / MILLISECOND, start)
    ensures AddressPasses(limits, store, visits, ip, from, from + limits.ipWindow / MILLISECOND) <= 2 * limits.ipMax - 1
  {
    WholeSecondsOf(limits.ipWindow);
    AddressRateBound(limits, store, visits, ip, start, from);
  }

  /** With an identity window of whole seconds, likewise. */
  lemma IdentityWindowBound(limits: Limits, store: Store, visits: seq<Visit>, identifierHash: string, ip: string,
                            start: Millis, from: Millis)
    requires limits.identityMax >= 1 && limits.identityWindow >= SECOND && limits.identityWindow % SECOND == 0
    requires SecondsInOrder(visits, IdentityKey(identifierHash, ip), start)
    requires Counting(Lookup(store, IdentityKey(identifierHash, ip)), limits.identityWindow / MILLISECOND, start)
    ensures IdentityPasses(limits, store, visits, IdentityKey(identifierHash, ip), from,
                           from + limits.identityWindow / MILLISECOND) <= 2 * limits.identityMax - 1
  {
    WholeSecondsOf(limits.identityWindow);
    IdentityRateBound(limits, store, visits, identifierHash, ip, start, from);
  }
}
