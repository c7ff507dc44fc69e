/** DefaultClusterRecoverPolicy, with the clock, the random draw and server availability as inputs. */
module ClusterRecover {

  datatype Config = Config(holdSeconds: int, interval: int)

  datatype Policy = Policy(recovering: bool, lastUsable: nat, changeTime: int, cache: nat, cacheTime: int)

  const IDLE := Policy(false, 0, 0, 0, 0)

  function Count(up: seq<bool>): nat {
    if up == [] then 0 else Count(up[..|up| - 1]) + if up[|up| - 1] then 1 else 0
  }

  // One call of each operation.

  predicate HeldLongEnough(c: Config, p: Policy, now: int) {
    p.changeTime != 0 && p.lastUsable != 0 && now - p.changeTime > c.holdSeconds * 1000
  }

  function Stopped(c: Config, p: Policy, now: int): Policy {
    if p.recovering && HeldLongEnough(c, p, now) then p.(recovering := false, lastUsable := 0, changeTime := 0) else p
  }

  function Counted(c: Config, p: Policy, now: int, up: seq<bool>): Policy {
    if now - p.cacheTime < c.interval then p else p.(cache := Count(up), cacheTime := now)
  }

  /** DoReject: the observation is the cache after the count. */
  function Observed(c: Config, p: Policy, now: int, up: seq<bool>): Policy {
    if !p.recovering then p
    else
      var q := Counted(c, p, now, up);
      if q.lastUsable != q.cache then q.(lastUsable := q.cache, changeTime := now) else q
  }

  predicate Rejects(c: Config, p: Policy, now: int, up: seq<bool>, draw: nat) {
    p.recovering && draw >= Counted(c, p, now, up).cache
  }

  class DefaultClusterRecoverPolicy {
    const cfg: Config
    var recovering: bool
    var lastUsable: nat
    var lastUsableChangeTime: int
    var usableCache: nat
    var usableCacheTime: int

    ghost function View(): Policy
      reads this
    {
      Policy(recovering, lastUsable, lastUsableChangeTime, usableCache, usableCacheTime)
    }

    constructor (cfg: Config)
      ensures this.cfg == cfg && View() == IDLE
    {
      this.cfg := cfg;
      recovering, lastUsable, lastUsableChangeTime, usableCache, usableCacheTime := false, 0, 0, 0, 0;
    }

    method StartRecover()
      modifies this`recovering
      ensures recovering
    {
      recovering := true;
    }

    method StopRecoverIfNecessary(now: int) returns (still: bool)
      modifies this
      ensures View() == Stopped(cfg, old(View()), now)
      ensures still == recovering
    {
      if !recovering {
        return false;
      }
      if lastUsableChangeTime != 0 && lastUsable != 0 && now - lastUsableChangeTime > cfg.holdSeconds * 1000 {
        recovering := false;
        lastUsable := 0;
        lastUsableChangeTime := 0;
        return false;
      }
      return true;
    }

    method GetUsableServerCount(now: int, up: seq<bool>) returns (n: nat)
      modifies this`usableCache, this`usableCacheTime
      ensures View() == Counted(cfg, old(View()), now, up)
      ensures n == usableCache
    {
      if now - usableCacheTime < cfg.interval {
        return usableCache;
      }
      var usable := 0;
      for i := 0 to |up|
        invariant usable == Count(up[..i])
      {
        assert up[..i + 1][..i] == up[..i];
        if up[i] {
          usable := usable + 1;
        }
      }
      assert up[..|up|] == up;
      usableCache := usable;
      usableCacheTime := now;
      return usableCache;
    }

    method DoReject(now: int, up: seq<bool>, draw: nat) returns (reject: bool)
      modifies this
      ensures View() == Observed(cfg, old(View()), now, up)
      ensures reject == Rejects(cfg, old(View()), now, up, draw)
    {
      if !recovering {
        return false;
      }
      var usable := GetUsableServerCount(now, up);
      if lastUsable != usable {
        lastUsable := usable;
        lastUsableChangeTime := now;
      }
      reject := draw >= usable;
    }
  }

  // Draws.

  /** How many of the first n draws are let through. */
  function AcceptedDraws(c: Config, p: Policy, now: int, up: seq<bool>, n: nat): nat {
    if n == 0 then 0 else AcceptedDraws(c, p, now, up, n - 1) + if Rejects(c, p, now, up, n - 1) then 0 else 1
  }

  /** During recovery min(usable, n) of n draws are accepted, outside it all of them; n is min_working_instances. */
  lemma {:induction false} AcceptanceRate(c: Config, p: Policy, now: int, up: seq<bool>, n: nat)
    ensures var usable := Observed(c, p, now, up).cache;
            AcceptedDraws(c, p, now, up, n) == if p.recovering && usable < n then usable else n
  {
    if n > 0 {
      AcceptanceRate(c, p, now, up, n - 1);
    }
  }

  // Runs.

  datatype Event = Start | Stop(now: int) | Ask(now: int, up: seq<bool>)

  function Step(c: Config, p: Policy, e: Event): Policy {
    match e
    case Start => p.(recovering := true)
    case Stop(now) => Stopped(c, p, now)
    case Ask(now, up) => Observed(c, p, now, up)
  }

  function Run(c: Config, es: seq<Event>): Policy {
    if es == [] then IDLE else Step(c, Run(c, es[..|es| - 1]), es[|es| - 1])
  }

  /** The clock never goes back. */
  predicate Monotone(es: seq<Event>) {
    forall i, j :: 0 <= i < j < |es| && !es[i].Start? && !es[j].Start? ==> es[i].now <= es[j].now
  }

  datatype Observation = Observation(time: int, usable: nat)

  /** What DoReject observed, and when, since recovery last ended. */
  function Seen(c: Config, es: seq<Event>): seq<Observation> {
    if es == [] then []
    else
      var init, e := es[..|es| - 1], es[|es| - 1];
      var p, q := Run(c, init), Run(c, es);
      if p.recovering && !q.recovering then []
      else if p.recovering && e.Ask? then Seen(c, init) + [Observation(e.now, q.cache)]
      else Seen(c, init)
  }

  function Latest(seen: seq<Observation>): nat {
    if seen == [] then 0 else seen[|seen| - 1].usable
  }

  /** The index of the first of the trailing observations that agree. */
  function AgreedFrom(seen: seq<Observation>): (k: nat)
    requires seen != []
    ensures k < |seen|
  {
    var n := |seen| - 1;
    if n > 0 && seen[n - 1].usable == seen[n].usable then AgreedFrom(seen[..n]) else n
  }

  /** Every observation from index k on agrees with the latest. */
  predicate Stood(seen: seq<Observation>, k: nat) {
    forall j :: k <= j < |seen| ==> seen[j].usable == Latest(seen)
  }

  lemma {:induction false} Agreement(seen: seq<Observation>)
    requires seen != []
    ensures Stood(seen, AgreedFrom(seen))
    ensures AgreedFrom(seen) > 0 ==> seen[AgreedFrom(seen) - 1].usable != Latest(seen)
  {
    var n := |seen| - 1;
    if n > 0 && seen[n - 1].usable == seen[n].usable {
      Agreement(seen[..n]);
      assert forall j :: AgreedFrom(seen) <= j < n ==> seen[..n][j].usable == seen[n].usable;
    }
  }

  /** The fields restate the observations of this recovery. */
  predicate Recorded(p: Policy, seen: seq<Observation>) {
    && p.lastUsable == Latest(seen)
    && (seen != [] && Latest(seen) != 0 ==> p.changeTime == seen[AgreedFrom(seen)].time)
  }

  lemma {:induction false} RunRecorded(c: Config, es: seq<Event>)
    ensures Recorded(Run(c, es), Seen(c, es))
  {
    if es != [] {
      var init := es[..|es| - 1];
      RunRecorded(c, init);
      var seen, more := Seen(c, init), Seen(c, es);
      if |more| == |seen| + 1 {
        assert more[..|seen|] == seen;
      }
    }
  }

  predicate Until(es: seq<Event>, time: int) {
    forall j :: 0 <= j < |es| && !es[j].Start? ==> es[j].now <= time
  }

  lemma {:induction false} SeenUntil(c: Config, es: seq<Event>, time: int)
    requires Until(es, time)
    ensures forall i :: 0 <= i < |Seen(c, es)| ==> Seen(c, es)[i].time <= time
  {
    if es != [] {
      SeenUntil(c, es[..|es| - 1], time);
    }
  }

  lemma {:induction false} SeenInOrder(c: Config, es: seq<Event>)
    requires Monotone(es)
    ensures forall i, j :: 0 <= i < j < |Seen(c, es)| ==> Seen(c, es)[i].time <= Seen(c, es)[j].time
  {
    if es != [] {
      var init, e := es[..|es| - 1], es[|es| - 1];
      SeenInOrder(c, init);
      if e.Ask? {
        SeenUntil(c, init, e.now);
      }
    }
  }

  /** Recovery ends exactly when the last observed count is not zero and has stood for more than the hold time. */
  lemma RecoveryEndsExactly(c: Config, es: seq<Event>, e: Event)
    requires Run(c, es).recovering
    ensures var seen := Seen(c, es);
            !Step(c, Run(c, es), e).recovering <==>
              && e.Stop? && seen != [] && Latest(seen) != 0
              && seen[AgreedFrom(seen)].time != 0
              && e.now - seen[AgreedFrom(seen)].time > c.holdSeconds * 1000
  {
    RunRecorded(c, es);
  }

  /** So with a monotone clock no DoReject of the last hold_seconds disagreed, and since before then all agreed. */
  lemma RecoveryHold(c: Config, es: seq<Event>, e: Event)
    requires Monotone(es) && Run(c, es).recovering && !Step(c, Run(c, es), e).recovering
    ensures var seen := Seen(c, es);
            && e.Stop? && Latest(seen) != 0
            && (forall j :: 0 <= j < |seen| && seen[j].time >= e.now - c.holdSeconds * 1000 ==>
                  seen[j].usable == Latest(seen))
            && exists j :: 0 <= j < |seen| && seen[j].time < e.now - c.holdSeconds * 1000 && Stood(seen, j)
  {
    RecoveryEndsExactly(c, es, e);
    var seen := Seen(c, es);
    Agreement(seen);
    SeenInOrder(c, es);
    var k := AgreedFrom(seen);
    assert seen[k].time < e.now - c.holdSeconds * 1000 && Stood(seen, k);
  }

  // The cached count.

  /** The call that last counted the servers, or -1. */
  function LastCount(c: Config, es: seq<Event>): int {
    if es == [] then -1
    else
      var init, e := es[..|es| - 1], es[|es| - 1];
      var p := Run(c, init);
      if p.recovering && e.Ask? && e.now - p.cacheTime >= c.interval then |es| - 1 else LastCount(c, init)
  }

  lemma {:induction false} CacheFromLastCount(c: Config, es: seq<Event>)
    ensures var p, k := Run(c, es), LastCount(c, es);
            && -1 <= k < |es|
            && (k < 0 ==> p.cache == 0 && p.cacheTime == 0)
            && (k >= 0 ==> es[k].Ask? && p.cache == Count(es[k].up) && p.cacheTime == es[k].now)
  {
    if es != [] {
      CacheFromLastCount(c, es[..|es| - 1]);
    }
  }

  /** Past the first interval, DoReject goes by the exact count of this call or of one less than an interval ago. */
  lemma ObservationFresh(c: Config, es: seq<Event>, e: Event)
    requires Run(c, es).recovering && e.Ask? && e.now >= c.interval
    ensures var run := es + [e]; var k := LastCount(c, run);
            && 0 <= k < |run| && run[k].Ask? && Run(c, run).cache == Count(run[k].up)
            && (k == |es| || e.now - run[k].now < c.interval)
  {
    var run := es + [e];
    assert run[..|es|] == es;
    CacheFromLastCount(c, run);
    CacheFromLastCount(c, es);
  }
}
