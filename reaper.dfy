/**
 * The reaper: ZREMRANGEBYSCORE over scores 0..now on `"poi"`, then on
 * `"processed_poi"`, each with its own reading of the clock, stopping at
 * the first Redis error. Each count removed is logged.
 */
module Reaper {
  import opened Wrappers
  import opened Decimal
  import opened SortedSet
  import opened Posts

  /** A set after a reap at clock reading `now`. */
  function Expire(z: ZSet, now: nat): ZSet {
    RemoveRange(z, 0, now)
  }

  /** The state after `remove_expr_element`, its result and the counts it
      logged. */
  datatype Sweep = Sweep(sets: Sets, result: Result<(), RedisError>, logged: seq<nat>)

  /** `remove_expr_element` with clock readings `t1` and `t2` and whether
      each ZREMRANGEBYSCORE was answered. It succeeds exactly when both
      commands were answered, logs one count per answered command, and
      never adds a member to either set. */
  function Reap(s: Sets, t1: nat, ok1: bool, t2: nat, ok2: bool): (r: Sweep)
    ensures r.result.Success? <==> ok1 && ok2
    ensures |r.logged| == (if ok1 && ok2 then 2 else if ok1 then 1 else 0)
    ensures r.sets.poi.Keys <= s.poi.Keys && r.sets.processedPoi.Keys <= s.processedPoi.Keys
    ensures !ok1 ==> r.sets == s
    ensures !ok2 ==> r.sets.processedPoi == s.processedPoi
  {
    if !ok1 then Sweep(s, Failure(RedisError), [])
    else
      var afterPoi := s.Put(PoiKey, Expire(s.poi, t1));
      var count1 := |InRange(s.poi, 0, t1)|;
      if !ok2 then Sweep(afterPoi, Failure(RedisError), [count1])
      else
        var count2 := |InRange(s.processedPoi, 0, t2)|;
        Sweep(afterPoi.Put(ProcessedPoiKey, Expire(s.processedPoi, t2)), Success(()), [count1, count2])
  }

  /** `remove_expr_element` against the connection. */
  method RemoveExprElement(conn: Connection, t1: nat, ok1: bool, t2: nat, ok2: bool)
    returns (r: Result<(), RedisError>, logged: seq<nat>)
    modifies conn
    ensures Sweep(conn.State(), r, logged) == Reap(old(conn.State()), t1, ok1, t2, ok2)
  {
    logged := [];
    var first := conn.ZRemRangeByScore(PoiKey, 0, t1, ok1);
    if first.Failure? {
      return Failure(first.error), logged;
    }
    logged := logged + [first.value];
    var second := conn.ZRemRangeByScore(ProcessedPoiKey, 0, t2, ok2);
    if second.Failure? {
      return Failure(second.error), logged;
    }
    logged := logged + [second.value];
    return Success(()), logged;
  }

  // ---------------------------------------------------------------------
  // Properties of one sweep

  /** A member survives a reap at `now` exactly when its score is negative
      or above `now` (both bounds of the range are inclusive), and keeps
      its score. */
  lemma ExpireBoundary(z: ZSet, now: nat, k: string)
    requires k in z
    ensures k in Expire(z, now) <==> z[k] < 0 || z[k] > now
    ensures k in Expire(z, now) ==> Expire(z, now)[k] == z[k]
  {
  }

  /** A reap never adds members, and the logged count is the number it
      removed. */
  lemma ExpireCount(z: ZSet, now: nat)
    ensures Expire(z, now).Keys <= z.Keys
    ensures |InRange(z, 0, now)| == |z| - |Expire(z, now)|
  {
  }

  /** Reaping twice is reaping once at the later time; in particular a
      second reap at the same time removes nothing. */
  lemma ExpireTwice(z: ZSet, t: nat, u: nat)
    ensures Expire(Expire(z, t), u) == Expire(z, if t <= u then u else t)
    ensures InRange(Expire(z, t), 0, t) == {}
  {
    RemoveRangeAgain(z, 0, t);
  }

  /** An error on `"poi"` returns at once: nothing is removed and nothing
      logged. */
  lemma ReapFirstFails(s: Sets, t1: nat, t2: nat, ok2: bool)
    ensures var sw := Reap(s, t1, false, t2, ok2);
      sw.sets == s && sw.result.Failure? && sw.logged == []
  {
  }

  /** An error on `"processed_poi"` leaves that set untouched after `"poi"`
      was swept. */
  lemma ReapSecondFails(s: Sets, t1: nat, t2: nat)
    ensures var sw := Reap(s, t1, true, t2, false);
      && sw.sets == Sets(Expire(s.poi, t1), s.processedPoi)
      && sw.result.Failure?
      && sw.logged == [|s.poi| - |sw.sets.poi|]
  {
  }

  /** What one sweep of a set at `t` leaves: no member scored in [0, t],
      every other member with its score, and as many fewer members as it
      logs. */
  predicate SweptAt(before: ZSet, after: ZSet, t: nat, count: nat) {
    && (forall k :: k in after ==> !(0 <= after[k] <= t))
    && (forall k :: k in before && !(0 <= before[k] <= t) ==> k in after && after[k] == before[k])
    && after.Keys <= before.Keys
    && count == |before| - |after|
  }

  lemma ExpireSweeps(z: ZSet, t: nat)
    ensures SweptAt(z, Expire(z, t), t, |InRange(z, 0, t)|)
  {
  }

  /** A complete sweep: each set is swept at its own clock reading and the
      logged counts are the numbers removed. */
  lemma ReapSweepsBoth(s: Sets, t1: nat, t2: nat)
    ensures var sw := Reap(s, t1, true, t2, true);
      && sw.result == Success(())
      && |sw.logged| == 2
      && SweptAt(s.poi, sw.sets.poi, t1, sw.logged[0])
      && SweptAt(s.processedPoi, sw.sets.processedPoi, t2, sw.logged[1])
  {
    ExpireSweeps(s.poi, t1);
    ExpireSweeps(s.processedPoi, t2);
  }

  /** Sweeping again with the same clock readings removes nothing. */
  lemma ReapAgainRemovesNothing(s: Sets, t1: nat, t2: nat)
    ensures var once := Reap(s, t1, true, t2, true).sets;
      var twice := Reap(once, t1, true, t2, true);
      twice.sets == once && twice.logged == [0, 0]
  {
    ExpireTwice(s.poi, t1, t1);
    ExpireTwice(s.processedPoi, t2, t2);
  }

  // ---------------------------------------------------------------------
  // Retirement and expiry together

  /** An ID retired by `consume_poi` at `now` survives every reap of
      `"processed_poi"` before now + 86400 and is removed by any reap at or
      after it. */
  lemma RetiredExpiresAfterCooldown(s: Sets, w: World, now: nat, t: nat)
    requires var e := Consume(s, w, now).ending; e.Done? && e.retirement == Retired
    ensures var step := Consume(s, w, now);
      var member := FormatU32(ParseU32(step.popped.value).value);
      && member in step.sets.processedPoi
      && (member in Expire(step.sets.processedPoi, t) <==> t < now + COOLDOWN)
  {
    var step := Consume(s, w, now);
    ConsumeRetires(s, w, now);
    var member := FormatU32(ParseU32(step.popped.value).value);
    assert step.sets.processedPoi[member] == now + COOLDOWN;
    ExpireBoundary(step.sets.processedPoi, t, member);
  }

  /** The same through `remove_expr_element`: its second sweep, at clock
      reading t2, keeps the retired member exactly when t2 < now + 86400. */
  lemma RetiredSurvivesReap(s: Sets, w: World, now: nat, t1: nat, t2: nat)
    requires var e := Consume(s, w, now).ending; e.Done? && e.retirement == Retired
    ensures var step := Consume(s, w, now);
      var member := FormatU32(ParseU32(step.popped.value).value);
      var swept := Reap(step.sets, t1, true, t2, true).sets;
      member in swept.processedPoi <==> t2 < now + COOLDOWN
  {
    RetiredExpiresAfterCooldown(s, w, now, t2);
  }
}
