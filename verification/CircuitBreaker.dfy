/** EmaErrorRecorder: error cost and latency averages of one window, doubles taken as reals. */
module EmaErrorRecorder {

  /** The window, its flags, and the smoothing coefficient pow(epsilon, 1 / window). */
  datatype Config = Config(window: nat, percent: nat, smooth: real, epsilon: real, minCost: int, multiple: nat) {
    ghost predicate Valid() {
      0.0 < smooth < 1.0 && 0.0 < epsilon < 1.0
    }
  }

  datatype State = State(samples: nat, errors: nat, cost: nat, latency: nat)

  const FRESH := State(0, 0, 0, 0)

  function Power(x: real, n: nat): real {
    if n == 0 then 1.0 else x * Power(x, n - 1)
  }

  /** The int64_t a non-negative double is converted to. */
  function Truncate(x: real): nat
    requires x >= 0.0
  {
    x.Floor
  }

  lemma Product(a: real, b: real)
    requires a >= 0.0 && b >= 0.0
    ensures a * b >= 0.0
  {
  }

  /** A weighted mean lies between its operands. */
  function Mean(x: real, y: real, w: real): (z: real)
    requires 0.0 < w < 1.0
    ensures x <= y ==> x <= z <= y
    ensures y <= x ==> y <= z <= x
  {
    var v := 1.0 - w;
    assert x * w + y * v == x + (y - x) * v == y + (x - y) * w;
    if x <= y then
      Product(y - x, v);
      Product(y - x, w);
      x * w + y * v
    else
      Product(x - y, v);
      Product(x - y, w);
      x * w + y * v
  }

  /** UpdateLatency: the new average lies between the old one and the sample. */
  function NextLatency(c: Config, ema: nat, latency: nat): (next: nat)
    requires c.Valid()
    ensures ema == 0 ==> next == latency
    ensures 0 < ema <= latency ==> ema <= next <= latency
    ensures 0 < ema && latency <= ema ==> latency <= next <= ema
  {
    if ema == 0 then latency else Truncate(Mean(ema as real, latency as real, c.smooth))
  }

  lemma Scaled(cost: nat, w: real)
    requires 0.0 < w < 1.0
    ensures 0.0 <= cost as real * w
    ensures cost > 0 ==> cost as real * w < cost as real
  {
    if cost > 0 {
      assert cost as real * (1.0 - w) > 0.0;
    }
  }

  /** The decay of the error cost by an ordinary response. */
  function Decay(c: Config, cost: nat): (next: nat)
    requires c.Valid()
    ensures cost > 0 ==> next < cost
    ensures cost == 0 ==> next == 0
    ensures next as real <= cost as real * c.smooth
  {
    Scaled(cost, c.smooth);
    if cost == 0 || cost < c.minCost then 0 else Truncate(cost as real * c.smooth)
  }

  function CappedCost(c: Config, cost: nat, ema: nat): nat {
    if ema != 0 && ema * c.multiple < cost then ema * c.multiple else cost
  }

  function MaxCost(c: Config, ema: nat): int {
    (ema as real * c.window as real * (c.percent as real / 100.0) * (1.0 + c.epsilon)).Floor
  }

  /** UpdateErrorCost: the new cost, and the verdict. */
  function NextCost(c: Config, was: nat, cost: nat, ema: nat): nat
    requires c.Valid()
  {
    var capped := CappedCost(c, cost, ema);
    if capped != 0 then was + capped else Decay(c, was)
  }

  predicate Affordable(c: Config, was: nat, cost: nat, ema: nat) {
    var capped := CappedCost(c, cost, ema);
    capped == 0 || was + capped <= MaxCost(c, ema)
  }

  /** The number of errors a window tolerates while it initializes. */
  function Tolerated(c: Config): nat {
    c.window * c.percent / 100
  }

  /** OnCallEnd: the new state, and the verdict. */
  function OnCall(c: Config, s: State, failed: bool, latency: nat): State
    requires c.Valid()
  {
    var ema := if failed then s.latency else NextLatency(c, s.latency, latency);
    var first := s.samples < c.window;
    State(if first then s.samples + 1 else s.samples,
          if first && failed then s.errors + 1 else s.errors,
          NextCost(c, s.cost, if failed then latency else 0, ema),
          ema)
  }

  predicate Healthy(c: Config, s: State, failed: bool, latency: nat) {
    !failed || (if s.samples < c.window then s.errors < Tolerated(c) else Affordable(c, s.cost, latency, s.latency))
  }

  function Reset(c: Config, s: State): State {
    if s.samples < c.window then FRESH else s.(cost := 0)
  }

  class Recorder {
    const cfg: Config
    var samples: nat
    var errors: nat
    var cost: nat
    var latency: nat

    ghost function View(): State
      reads this
    {
      State(samples, errors, cost, latency)
    }

    constructor (cfg: Config)
      ensures this.cfg == cfg && View() == FRESH
    {
      this.cfg := cfg;
      samples, errors, cost, latency := 0, 0, 0, 0;
    }

    method UpdateLatency(sample: nat) returns (next: nat)
      requires cfg.Valid()
      modifies this
      ensures next == NextLatency(cfg, old(latency), sample)
      ensures View() == old(View()).(latency := next)
    {
      next := NextLatency(cfg, latency, sample);
      latency := next;
    }

    method UpdateErrorCost(errorCost: nat, ema: nat) returns (healthy: bool)
      requires cfg.Valid()
      modifies this
      ensures View() == old(View()).(cost := NextCost(cfg, old(cost), errorCost, ema))
      ensures healthy == Affordable(cfg, old(cost), errorCost, ema)
    {
      var capped := errorCost;
      if ema != 0 && ema * cfg.multiple < capped {
        capped := ema * cfg.multiple;
      }
      if capped != 0 {
        cost := cost + capped;
        return cost <= MaxCost(cfg, ema);
      }
      if cost != 0 {
        if cost < cfg.minCost {
          cost := 0;
        } else {
          Scaled(cost, cfg.smooth);
          cost := Truncate(cost as real * cfg.smooth);
        }
      }
      healthy := true;
    }

    method OnCallEnd(errorCode: int, sample: nat) returns (healthy: bool)
      requires cfg.Valid()
      modifies this
      ensures View() == OnCall(cfg, old(View()), errorCode != 0, sample)
      ensures healthy == Healthy(cfg, old(View()), errorCode != 0, sample)
    {
      if errorCode == 0 {
        var ema := UpdateLatency(sample);
        healthy := UpdateErrorCost(0, ema);
      } else {
        healthy := UpdateErrorCost(sample, latency);
      }
      if samples < cfg.window {
        samples := samples + 1;
        if errorCode != 0 {
          errors := errors + 1;
          return errors - 1 < cfg.window * cfg.percent / 100;
        }
        return true;
      }
    }

    method ResetHistory()
      modifies this
      ensures View() == Reset(cfg, old(View()))
    {
      if samples < cfg.window {
        samples, errors, latency := 0, 0, 0;
      }
      cost := 0;
    }
  }

  // Runs.

  datatype Event = Call(failed: bool, latency: nat) | Restart

  function Step(c: Config, s: State, e: Event): State
    requires c.Valid()
  {
    match e
    case Call(failed, latency) => OnCall(c, s, failed, latency)
    case Restart => Reset(c, s)
  }

  function Run(c: Config, s: State, es: seq<Event>): State
    requires c.Valid()
  {
    if es == [] then s else Step(c, Run(c, s, es[..|es| - 1]), es[|es| - 1])
  }

  /** The success latencies since the history last restarted. */
  function Successes(c: Config, es: seq<Event>): seq<nat>
    requires c.Valid()
  {
    if es == [] then []
    else
      var init := es[..|es| - 1];
      match es[|es| - 1]
      case Call(failed, latency) => if failed then Successes(c, init) else Successes(c, init) + [latency]
      case Restart => if Run(c, FRESH, init).samples < c.window then [] else Successes(c, init)
  }

  /** In every run the average lies between the least and the greatest of those latencies. */
  lemma {:induction false} LatencyBounds(c: Config, es: seq<Event>, lo: nat, hi: nat)
    requires c.Valid()
    requires forall x :: x in Successes(c, es) ==> lo <= x <= hi
    ensures var ema := Run(c, FRESH, es).latency;
            if Successes(c, es) == [] then ema == 0 else lo <= ema <= hi
  {
    if es != [] {
      var init, e := es[..|es| - 1], es[|es| - 1];
      if e.Call? {
        assert !e.failed ==> Successes(c, es) == Successes(c, init) + [e.latency];
        assert forall x :: x in Successes(c, init) ==> x in Successes(c, es);
        assert !e.failed ==> e.latency in Successes(c, es);
        LatencyBounds(c, init, lo, hi);
      } else if Run(c, FRESH, init).samples >= c.window {
        assert Successes(c, es) == Successes(c, init);
        LatencyBounds(c, init, lo, hi);
      }
    }
  }

  function Calls(failed: bool, latencies: seq<nat>): seq<Event> {
    seq(|latencies|, i requires 0 <= i < |latencies| => Call(failed, latencies[i]))
  }

  lemma CallsInit(failed: bool, latencies: seq<nat>)
    requires latencies != []
    ensures Calls(failed, latencies)[..|latencies| - 1] == Calls(failed, latencies[..|latencies| - 1])
    ensures Calls(failed, latencies)[|latencies| - 1] == Call(failed, latencies[|latencies| - 1])
  {
  }

  lemma ScaleLe(a: real, b: real, w: real)
    requires a <= b && w >= 0.0
    ensures a * w <= b * w
  {
    Product(b - a, w);
  }

  /** The cost after n ordinary responses. */
  function Decayed(c: Config, cost: nat, n: nat): nat
    requires c.Valid()
  {
    if n == 0 then cost else Decay(c, Decayed(c, cost, n - 1))
  }

  /** At most that part of a cost is left. */
  predicate Shrunk(was: nat, next: nat, w: real) {
    next as real <= was as real * w
  }

  predicate Shrinking(costs: seq<nat>, w: real) {
    forall i :: 0 < i < |costs| ==> Shrunk(costs[i - 1], costs[i], w)
  }

  lemma {:induction false} Geometric(costs: seq<nat>, w: real, n: nat)
    requires n < |costs| && w >= 0.0 && Shrinking(costs, w)
    ensures costs[n] as real <= costs[0] as real * Power(w, n)
  {
    if n > 0 {
      Geometric(costs, w, n - 1);
      assert Shrunk(costs[n - 1], costs[n], w);
      var a, p := costs[0] as real, Power(w, n - 1);
      ScaleLe(costs[n - 1] as real, a * p, w);
      assert a * p * w == a * (w * p);
    }
  }

  function Costs(c: Config, cost: nat, n: nat): seq<nat>
    requires c.Valid()
  {
    seq(n + 1, i requires 0 <= i => Decayed(c, cost, i))
  }

  lemma DecayedShrunk(c: Config, cost: nat, i: nat)
    requires c.Valid() && i > 0
    ensures Shrunk(Decayed(c, cost, i - 1), Decayed(c, cost, i), c.smooth)
  {
  }

  lemma CostsShrink(c: Config, cost: nat, n: nat)
    requires c.Valid()
    ensures Shrinking(Costs(c, cost, n), c.smooth)
  {
    forall i | 0 < i <= n ensures Shrunk(Costs(c, cost, n)[i - 1], Costs(c, cost, n)[i], c.smooth) {
      DecayedShrunk(c, cost, i);
    }
  }

  /** At most smooth^n of a cost is left. */
  predicate DecayedBy(c: Config, cost: nat, n: nat, left: nat) {
    left as real <= cost as real * Power(c.smooth, n)
  }

  lemma DecayedPower(c: Config, cost: nat, n: nat)
    requires c.Valid()
    ensures DecayedBy(c, cost, n, Decayed(c, cost, n))
  {
    CostsShrink(c, cost, n);
    Geometric(Costs(c, cost, n), c.smooth, n);
  }

  lemma {:induction false} DecayedAway(c: Config, cost: nat, n: nat)
    requires c.Valid()
    ensures if n >= cost then Decayed(c, cost, n) == 0 else Decayed(c, cost, n) <= cost - n
  {
    if n > 0 {
      DecayedAway(c, cost, n - 1);
    }
  }

  lemma {:induction false} SuccessesCost(c: Config, s: State, latencies: seq<nat>)
    requires c.Valid()
    ensures Run(c, s, Calls(false, latencies)).cost == Decayed(c, s.cost, |latencies|)
    decreases |latencies|
  {
    if latencies != [] {
      CallsInit(false, latencies);
      SuccessesCost(c, s, latencies[..|latencies| - 1]);
    }
  }

  /** n successes in a row leave at most smooth^n of the cost. */
  lemma SuccessesDecay(c: Config, s: State, latencies: seq<nat>)
    requires c.Valid()
    ensures DecayedBy(c, s.cost, |latencies|, Run(c, s, Calls(false, latencies)).cost)
  {
    DecayedPower(c, s.cost, |latencies|);
    SuccessesCost(c, s, latencies);
  }

  /** Each success takes away at least one, so a cost of n or less is gone. */
  lemma SuccessesClear(c: Config, s: State, latencies: seq<nat>)
    requires c.Valid()
    ensures var after, n := Run(c, s, Calls(false, latencies)).cost, |latencies|;
            if n >= s.cost then after == 0 else after <= s.cost - n
  {
    SuccessesCost(c, s, latencies);
    DecayedAway(c, s.cost, |latencies|);
  }

  /** How the smoothing coefficient is chosen. */
  predicate Rooted(c: Config) {
    Power(c.smooth, c.window) == c.epsilon
  }

  lemma EpsilonLeft(c: Config, cost: nat, n: nat, left: nat)
    requires Rooted(c) && n == c.window && DecayedBy(c, cost, n, left)
    ensures Shrunk(cost, left, c.epsilon)
  {
  }

  /** A whole window of successes leaves at most epsilon of the cost. */
  lemma WindowDecay(c: Config, s: State, latencies: seq<nat>)
    requires c.Valid() && Rooted(c) && |latencies| == c.window
    ensures Shrunk(s.cost, Run(c, s, Calls(false, latencies)).cost, c.epsilon)
  {
    SuccessesDecay(c, s, latencies);
    EpsilonLeft(c, s.cost, |latencies|, Run(c, s, Calls(false, latencies)).cost);
  }

  /** What errors of these latencies cost, each cut off at the cap. */
  function TotalCost(latencies: seq<nat>, cap: nat): nat {
    if latencies == [] then 0
    else
      var last := latencies[|latencies| - 1];
      TotalCost(latencies[..|latencies| - 1], cap) + if cap < last then cap else last
  }

  function Cap(c: Config, s: State): nat {
    s.latency * c.multiple
  }

  predicate Steady(c: Config, s: State) {
    s.cost == 0 && s.latency > 0 && s.samples >= c.window
  }

  lemma {:induction false} ErrorCost(c: Config, s: State, latencies: seq<nat>, cap: nat)
    requires c.Valid() && Steady(c, s) && cap == Cap(c, s)
    ensures var after := Run(c, s, Calls(true, latencies));
            && after.latency == s.latency && after.samples == s.samples
            && after.cost <= TotalCost(latencies, cap)
            && (cap > 0 && 0 !in latencies ==> after.cost == TotalCost(latencies, cap))
    decreases |latencies|
  {
    if latencies != [] {
      var init, last := latencies[..|latencies| - 1], latencies[|latencies| - 1];
      CallsInit(true, latencies);
      ErrorCost(c, s, init, cap);
      assert last in latencies && forall x :: x in init ==> x in latencies;
    }
  }

  lemma {:induction false} TotalBound(latencies: seq<nat>, cap: nat)
    ensures TotalCost(latencies, cap) <= |latencies| * cap
    decreases |latencies|
  {
    if latencies != [] {
      TotalBound(latencies[..|latencies| - 1], cap);
      assert |latencies| * cap == (|latencies| - 1) * cap + cap;
    }
  }

  /** The share of a window's latency its errors may cost. */
  function Budget(c: Config): real {
    c.window as real * (c.percent as real / 100.0) * (1.0 + c.epsilon)
  }

  lemma MaxCostIsBudget(c: Config, ema: nat)
    ensures MaxCost(c, ema) == (ema as real * Budget(c)).Floor
  {
    var a, b, d, e := ema as real, c.window as real, c.percent as real / 100.0, 1.0 + c.epsilon;
    assert a * b * d * e == a * (b * d * e);
  }

  lemma BudgetCovers(c: Config, k: nat, ema: nat)
    requires (k * c.multiple) as real <= Budget(c)
    ensures k * (ema * c.multiple) <= MaxCost(c, ema)
  {
    MaxCostIsBudget(c, ema);
    ScaleLe((k * c.multiple) as real, Budget(c), ema as real);
    assert k * (ema * c.multiple) == (k * c.multiple) * ema;
    assert ((k * c.multiple) * ema) as real == (k * c.multiple) as real * ema as real;
  }

  /** The verdict on the last of a run of errors. */
  predicate LastErrorTolerated(c: Config, s: State, latencies: seq<nat>)
    requires c.Valid() && latencies != []
  {
    var n := |latencies|;
    Healthy(c, Run(c, s, Calls(true, latencies[..n - 1])), true, latencies[n - 1])
  }

  /** Every error of the run costs something; one of no latency, or all under a cap of 0, count as successes. */
  predicate Costly(c: Config, s: State, latencies: seq<nat>) {
    Cap(c, s) > 0 && 0 !in latencies
  }

  /**
   After initialization a run of errors that all cost something is tolerated if and only if its total is at
   most the maximum; with costless ones among them it is tolerated at least then, and a costless one always.
   */
  lemma ErrorsTripExactly(c: Config, s: State, latencies: seq<nat>)
    requires c.Valid() && Steady(c, s) && latencies != []
    ensures TotalCost(latencies, Cap(c, s)) <= MaxCost(c, s.latency) ==> LastErrorTolerated(c, s, latencies)
    ensures Costly(c, s, latencies) ==>
              (LastErrorTolerated(c, s, latencies) <==> TotalCost(latencies, Cap(c, s)) <= MaxCost(c, s.latency))
    ensures Cap(c, s) == 0 || latencies[|latencies| - 1] == 0 ==> LastErrorTolerated(c, s, latencies)
  {
    var k, init := |latencies|, latencies[..|latencies| - 1];
    assert latencies[k - 1] in latencies && forall x :: x in init ==> x in latencies;
    ErrorCost(c, s, init, Cap(c, s));
  }

  /** So k errors in a row whose multiples fit the window's budget never trip, whatever their latencies. */
  lemma ErrorsWithinBudget(c: Config, s: State, latencies: seq<nat>)
    requires c.Valid() && Steady(c, s) && latencies != []
    requires (|latencies| * c.multiple) as real <= Budget(c)
    ensures LastErrorTolerated(c, s, latencies)
  {
    var k := |latencies|;
    ErrorCost(c, s, latencies[..k - 1], Cap(c, s));
    assert CappedCost(c, latencies[k - 1], s.latency) + TotalCost(latencies[..k - 1], Cap(c, s))
        == TotalCost(latencies, Cap(c, s));
    TotalBound(latencies, Cap(c, s));
    BudgetCovers(c, k, s.latency);
  }
}

/** CircuitBreaker: two recorders, isolation and the half-open window; the clock is a parameter. */
module CircuitBreaker {
  import opened EmaErrorRecorder

  const ELIMIT := 2004
  const ECANCELED := 125

  datatype Flags = Flags(long: Config, short: Config, minDuration: nat, maxDuration: nat, halfOpenWindow: nat) {
    ghost predicate Ready() {
      long.Valid() && short.Valid()
    }
  }

  datatype Breaker = Breaker(long: State, short: State, lastReset: int, duration: nat, isolated: nat,
                             broken: bool, halfOpen: bool, halfOpenSuccesses: nat)

  function Initial(f: Flags): Breaker {
    Breaker(FRESH, FRESH, 0, f.minDuration, 0, false, false, 0)
  }

  predicate Ignored(code: int) {
    code == ELIMIT || code == ECANCELED
  }

  function NextDuration(f: Flags, b: Breaker, now: int): nat {
    if now - b.lastReset < f.maxDuration then
      if b.duration * 2 < f.maxDuration then b.duration * 2 else f.maxDuration
    else f.minDuration
  }

  function Marked(f: Flags, b: Breaker, now: int): Breaker {
    if b.broken then b else b.(broken := true, isolated := b.isolated + 1, duration := NextDuration(f, b, now))
  }

  function Restarted(f: Flags, b: Breaker, now: int): Breaker {
    var c := b.(long := Reset(f.long, b.long), short := Reset(f.short, b.short), lastReset := now, broken := false);
    if f.halfOpenWindow > 0 then c.(halfOpen := true, halfOpenSuccesses := 0) else c
  }

  predicate Probing(f: Flags, b: Breaker) {
    f.halfOpenWindow > 0 && b.halfOpen
  }

  /** A success counted by the half-open window. */
  function Probed(f: Flags, b: Breaker): Breaker {
    if b.halfOpenSuccesses + 1 == f.halfOpenWindow then b.(halfOpen := false, halfOpenSuccesses := 0)
    else b.(halfOpenSuccesses := b.halfOpenSuccesses + 1)
  }

  /** The verdict of OnCallEnd. */
  predicate Passes(f: Flags, b: Breaker, code: int, latency: nat) {
    || Ignored(code)
    || (&& !b.broken
        && !(Probing(f, b) && code != 0)
        && Healthy(f.long, b.long, code != 0, latency)
        && Healthy(f.short, b.short, code != 0, latency))
  }

  /** The state OnCallEnd leaves; the short window is not told of a call the long one rejects. */
  function Called(f: Flags, b: Breaker, code: int, latency: nat, now: int): Breaker
    requires f.Ready()
  {
    if Ignored(code) || b.broken then b
    else if Probing(f, b) && code != 0 then Marked(f, b, now)
    else
      var failed := code != 0;
      var c := if Probing(f, b) then Probed(f, b) else b;
      var d := c.(long := OnCall(f.long, b.long, failed, latency));
      var e := if Healthy(f.long, b.long, failed, latency) then d.(short := OnCall(f.short, b.short, failed, latency))
               else d;
      if Passes(f, b, code, latency) then e else Marked(f, e, now)
  }

  class CircuitBreaker {
    const flags: Flags
    const longWindow: Recorder
    const shortWindow: Recorder
    var lastResetTime: int
    var isolationDuration: nat
    var isolatedTimes: nat
    var broken: bool
    var halfOpen: bool
    var halfOpenSuccessCount: nat

    ghost predicate Valid()
      reads this
    {
      flags.Ready() && longWindow != shortWindow && longWindow.cfg == flags.long && shortWindow.cfg == flags.short
    }

    ghost function View(): Breaker
      reads this, longWindow, shortWindow
    {
      Breaker(longWindow.View(), shortWindow.View(), lastResetTime, isolationDuration, isolatedTimes,
              broken, halfOpen, halfOpenSuccessCount)
    }

    constructor (flags: Flags)
      requires flags.Ready()
      ensures Valid() && this.flags == flags && View() == Initial(flags)
      ensures fresh(longWindow) && fresh(shortWindow)
    {
      this.flags := flags;
      longWindow := new Recorder(flags.long);
      shortWindow := new Recorder(flags.short);
      lastResetTime, isolationDuration, isolatedTimes := 0, flags.minDuration, 0;
      broken, halfOpen, halfOpenSuccessCount := false, false, 0;
    }

    method UpdateIsolationDuration(now: int)
      requires Valid()
      modifies this`isolationDuration
      ensures isolationDuration == NextDuration(flags, old(View()), now)
    {
      if now - lastResetTime < flags.maxDuration {
        var doubled := isolationDuration * 2;
        isolationDuration := if doubled < flags.maxDuration then doubled else flags.maxDuration;
      } else {
        isolationDuration := flags.minDuration;
      }
    }

    method MarkAsBroken(now: int)
      requires Valid()
      modifies this`broken, this`isolatedTimes, this`isolationDuration
      ensures View() == Marked(flags, old(View()), now)
    {
      var was := broken;
      broken := true;
      if !was {
        isolatedTimes := isolatedTimes + 1;
        UpdateIsolationDuration(now);
      }
    }

    method ResetAll(now: int)
      requires Valid()
      modifies this, longWindow, shortWindow
      ensures Valid() && View() == Restarted(flags, old(View()), now)
    {
      longWindow.ResetHistory();
      shortWindow.ResetHistory();
      lastResetTime := now;
      broken := false;
      if flags.halfOpenWindow > 0 {
        halfOpen := true;
        halfOpenSuccessCount := 0;
      }
    }

    method OnCallEnd(code: int, latency: nat, now: int) returns (ok: bool)
      requires Valid()
      modifies this, longWindow, shortWindow
      ensures Valid() && View() == Called(flags, old(View()), code, latency, now)
      ensures ok == Passes(flags, old(View()), code, latency)
    {
      if code == ELIMIT || code == ECANCELED {
        return true;
      }
      if broken {
        return false;
      }
      if flags.halfOpenWindow > 0 && halfOpen {
        if code != 0 {
          MarkAsBroken(now);
          return false;
        }
        halfOpenSuccessCount := halfOpenSuccessCount + 1;
        if halfOpenSuccessCount == flags.halfOpenWindow {
          halfOpen := false;
          halfOpenSuccessCount := 0;
        }
      }
      ok := longWindow.OnCallEnd(code, latency);
      if ok {
        ok := shortWindow.OnCallEnd(code, latency);
      }
      if !ok {
        MarkAsBroken(now);
      }
    }
  }

  // Runs.

  datatype Event = Call(code: int, latency: nat, now: int) | Mark(now: int) | Restart(now: int)

  function Step(f: Flags, b: Breaker, e: Event): Breaker
    requires f.Ready()
  {
    match e
    case Call(code, latency, now) => Called(f, b, code, latency, now)
    case Mark(now) => Marked(f, b, now)
    case Restart(now) => Restarted(f, b, now)
  }

  function Run(f: Flags, b: Breaker, es: seq<Event>): Breaker
    requires f.Ready()
  {
    if es == [] then b else Step(f, Run(f, b, es[..|es| - 1]), es[|es| - 1])
  }

  predicate Sample(e: Event) {
    e.Call? && !Ignored(e.code)
  }

  predicate Error(e: Event) {
    Sample(e) && e.code != 0
  }

  /** Once broken, and until a reset, every sampled call is refused and nothing at all changes. */
  lemma {:induction false} BrokenUntilReset(f: Flags, b: Breaker, es: seq<Event>, i: nat)
    requires f.Ready() && b.broken && i < |es|
    requires forall j :: 0 <= j < |es| ==> !es[j].Restart?
    ensures Run(f, b, es[..i]) == b
    ensures es[i].Call? ==> (Passes(f, Run(f, b, es[..i]), es[i].code, es[i].latency) <==> Ignored(es[i].code))
    decreases i
  {
    if i > 0 {
      BrokenUntilReset(f, b, es, i - 1);
      assert es[..i][..i - 1] == es[..i - 1];
    }
  }

  /** Only an error or an explicit mark opens the breaker: without them every call passes, whatever is reset. */
  lemma {:induction false} SuccessesNeverOpen(f: Flags, b: Breaker, es: seq<Event>)
    requires f.Ready() && !b.broken
    requires forall j :: 0 <= j < |es| ==> !Error(es[j]) && !es[j].Mark?
    ensures !Run(f, b, es).broken
    ensures forall code, latency :: code == 0 || Ignored(code) ==> Passes(f, Run(f, b, es), code, latency)
  {
    if es != [] {
      SuccessesNeverOpen(f, b, es[..|es| - 1]);
      assert !Error(es[|es| - 1]) && !es[|es| - 1].Mark?;
    }
  }

  /** The resets done while broken. */
  function Repairs(f: Flags, es: seq<Event>): nat
    requires f.Ready()
  {
    if es == [] then 0
    else
      var init := es[..|es| - 1];
      Repairs(f, init) + if es[|es| - 1].Restart? && Run(f, Initial(f), init).broken then 1 else 0
  }

  /** isolated_times counts each isolation once: those repaired, and the present one. */
  lemma {:induction false} IsolatedTimes(f: Flags, es: seq<Event>)
    requires f.Ready()
    ensures var b := Run(f, Initial(f), es); b.isolated == Repairs(f, es) + if b.broken then 1 else 0
  {
    if es != [] {
      IsolatedTimes(f, es[..|es| - 1]);
    }
  }

  function Successes(es: seq<Event>): nat {
    if es == [] then 0
    else Successes(es[..|es| - 1]) + if Sample(es[|es| - 1]) && es[|es| - 1].code == 0 then 1 else 0
  }

  predicate Probes(es: seq<Event>) {
    forall j :: 0 <= j < |es| ==> es[j].Call? && !Error(es[j])
  }

  /** After a reset with a half-open window W the breaker probes until exactly W successes. */
  lemma {:induction false} HalfOpenWindow(f: Flags, b: Breaker, now: int, es: seq<Event>)
    requires f.Ready() && f.halfOpenWindow > 0 && Probes(es)
    ensures var a := Run(f, Restarted(f, b, now), es);
            && !a.broken
            && (a.halfOpen <==> Successes(es) < f.halfOpenWindow)
            && a.halfOpenSuccesses == if a.halfOpen then Successes(es) else 0
  {
    if es != [] {
      HalfOpenWindow(f, b, now, es[..|es| - 1]);
      assert es[|es| - 1].Call? && !Error(es[|es| - 1]);
    }
  }

  /** So any error before W successes is refused and reopens it. */
  lemma ErrorReopens(f: Flags, b: Breaker, now: int, es: seq<Event>, e: Event)
    requires f.Ready() && Probes(es) && Successes(es) < f.halfOpenWindow && Error(e)
    ensures !Passes(f, Run(f, Restarted(f, b, now), es), e.code, e.latency)
    ensures Run(f, Restarted(f, b, now), es + [e]).broken
  {
    HalfOpenWindow(f, b, now, es);
    assert (es + [e])[..|es|] == es;
  }

  function Samples(es: seq<Event>): nat {
    if es == [] then 0 else Samples(es[..|es| - 1]) + if Sample(es[|es| - 1]) then 1 else 0
  }

  function Errors(es: seq<Event>): nat {
    if es == [] then 0 else Errors(es[..|es| - 1]) + if Error(es[|es| - 1]) then 1 else 0
  }

  function Tolerance(f: Flags): nat {
    if Tolerated(f.long) < Tolerated(f.short) then Tolerated(f.long) else Tolerated(f.short)
  }

  /** The samples and errors both windows counted, while neither is full. */
  predicate Counted(b: Breaker, samples: nat, errors: nat) {
    b.long.samples == b.short.samples == samples && b.long.errors == b.short.errors == errors
  }

  /** From construction, while both windows initialize, the breaker opens at error Tolerance + 1 exactly. */
  lemma {:induction false} OpensExactly(f: Flags, es: seq<Event>)
    requires f.Ready() && forall j :: 0 <= j < |es| ==> es[j].Call?
    requires Samples(es) <= f.long.window && Samples(es) <= f.short.window
    ensures var b := Run(f, Initial(f), es);
            && (b.broken <==> Errors(es) > Tolerance(f))
            && !b.halfOpen
            && (!b.broken ==> Counted(b, Samples(es), Errors(es)))
  {
    if es != [] {
      OpensExactly(f, es[..|es| - 1]);
      assert es[|es| - 1].Call?;
    }
  }

  // Isolation durations.

  function LastReset(es: seq<Event>): int {
    if es == [] then 0
    else if es[|es| - 1].Restart? then es[|es| - 1].now else LastReset(es[..|es| - 1])
  }

  /** The trailing breaks that came less than the maximal duration after a reset. */
  function QuickBreaks(f: Flags, es: seq<Event>): nat
    requires f.Ready()
  {
    if es == [] then 0
    else
      var init, e := es[..|es| - 1], es[|es| - 1];
      var k := QuickBreaks(f, init);
      if Run(f, Initial(f), init).broken || !Run(f, Initial(f), es).broken then k
      else if e.now - LastReset(init) < f.maxDuration then k + 1 else 0
  }

  function Doubled(n: nat, k: nat): nat {
    if k == 0 then n else 2 * Doubled(n, k - 1)
  }

  /** min * 2^k, up to the maximum. */
  function Duration(f: Flags, k: nat): nat {
    var d := Doubled(f.minDuration, k);
    if k > 0 && f.maxDuration < d then f.maxDuration else d
  }

  /** A step changes the duration only when it breaks the breaker. */
  lemma BreakDuration(f: Flags, b: Breaker, e: Event)
    requires f.Ready()
    ensures var c := Step(f, b, e);
            && c.duration == (if !b.broken && c.broken then NextDuration(f, b, e.now) else b.duration)
            && c.lastReset == if e.Restart? then e.now else b.lastReset
  {
  }

  lemma DurationStep(f: Flags, b: Breaker, k: nat, now: int)
    requires b.duration == Duration(f, k)
    ensures NextDuration(f, b, now) == Duration(f, if now - b.lastReset < f.maxDuration then k + 1 else 0)
  {
  }

  /** In every run from construction the duration doubles with each quick break, up to the maximum. */
  lemma {:induction false} DurationDoubles(f: Flags, es: seq<Event>)
    requires f.Ready()
    ensures Run(f, Initial(f), es).duration == Duration(f, QuickBreaks(f, es))
    ensures Run(f, Initial(f), es).lastReset == LastReset(es)
  {
    if es != [] {
      var init, e := es[..|es| - 1], es[|es| - 1];
      DurationDoubles(f, init);
      BreakDuration(f, Run(f, Initial(f), init), e);
      DurationStep(f, Run(f, Initial(f), init), QuickBreaks(f, init), e.now);
    }
  }
}
