/**
 CircuitBreakerService. A call is two events, its start and its settlement, so calls to one
 service may overlap in any way; events of one service form its history.
 */
module CircuitBreaker {
  import opened Common

  datatype CircuitState = CLOSED | OPEN | HALF_OPEN

  datatype Config = Config(failureThreshold: int, successThreshold: int, timeout: int)

  datatype Stats = Stats(failures: nat, successes: nat, lastFailureTime: Option<Millis>, state: CircuitState)

  datatype Circuit = Circuit(config: Config, stats: Stats)

  datatype Event = Registered(config: Config) | Started(at: Millis) | Refused(at: Millis) | Succeeded | Failed(at: Millis) | WasReset

  datatype Admission = NotRegistered | Rejected | Admitted

  // ---------- one event ----------

  // JavaScript takes a failure time of 0 for no failure time.
  predicate Admits(c: Circuit, at: Millis) {
    c.stats.state != OPEN ||
    match c.stats.lastFailureTime
    case None => false
    case Some(t) => t != 0 && at - t >= c.config.timeout
  }

  function Step(c: Circuit, e: Event): Circuit {
    var s := c.stats;
    match e
    case Registered(config) => Circuit(config, Stats(0, 0, None, CLOSED))
    case Started(_) => if s.state == OPEN then c.(stats := s.(state := HALF_OPEN, successes := 0)) else c
    case Refused(_) => c
    case Succeeded =>
      if s.state == HALF_OPEN && s.successes + 1 >= c.config.successThreshold
      then c.(stats := s.(state := CLOSED, successes := 0, failures := 0))
      else c.(stats := s.(successes := s.successes + 1, failures := 0))
    case Failed(at) =>
      var s' := s.(failures := s.failures + 1, lastFailureTime := Some(at));
      if s.state == HALF_OPEN then c.(stats := s'.(state := OPEN, successes := 0))
      else if s'.failures >= c.config.failureThreshold then c.(stats := s'.(state := OPEN))
      else c.(stats := s')
    case WasReset => c.(stats := Stats(0, 0, None, CLOSED))
  }

  // ---------- histories ----------

  ghost predicate Timed(e: Event) {
    e.Started? || e.Refused? || e.Failed?
  }

  // The latest time any event of the history carries.
  ghost function Latest(es: seq<Event>): Millis
    decreases |es|
  {
    if es == [] then 0
    else if Timed(es[|es|-1]) then es[|es|-1].at
    else Latest(es[..|es|-1])
  }

  // Times never go back, and a call starts exactly when the circuit admits it.
  ghost predicate Follows(es: seq<Event>, e: Event)
    requires es != [] && es[0].Registered?
  {
    && (Timed(e) ==> Latest(es) <= e.at)
    && (e.Started? ==> Admits(After(es), e.at))
    && (e.Refused? ==> !Admits(After(es), e.at))
  }

  // A history begins with a registration.
  ghost predicate History(es: seq<Event>)
    decreases |es|
  {
    && es != [] && es[0].Registered?
    && (|es| > 1 ==> History(es[..|es|-1]) && Follows(es[..|es|-1], es[|es|-1]))
  }

  function After(es: seq<Event>): Circuit
    requires es != [] && es[0].Registered?
    decreases |es|
  {
    if |es| == 1 then Circuit(es[0].config, Stats(0, 0, None, CLOSED))
    else Step(After(es[..|es|-1]), es[|es|-1])
  }

  lemma {:induction false} Prefixes(es: seq<Event>, k: nat)
    requires History(es) && 1 <= k <= |es|
    ensures History(es[..k])
    ensures k < |es| ==> Follows(es[..k], es[k])
    decreases |es|
  {
    if k < |es| - 1 {
      Prefixes(es[..|es|-1], k);
      assert es[..|es|-1][..k] == es[..k];
    } else if k == |es| {
      assert es[..k] == es;
    }
  }

  lemma {:induction false} LatestBounds(es: seq<Event>, m: nat)
    requires History(es) && m < |es| && Timed(es[m])
    ensures es[m].at <= Latest(es)
    decreases |es|
  {
    if m < |es| - 1 {
      LatestBounds(es[..|es|-1], m);
    }
  }

  lemma Ordered(es: seq<Event>, i: nat, j: nat)
    requires History(es) && i < j < |es| && Timed(es[i]) && Timed(es[j])
    ensures es[i].at <= es[j].at
  {
    Prefixes(es, j);
    LatestBounds(es[..j], i);
  }

  // How many failures were recorded since the last success, reset or registration.
  ghost function TrailingFailures(es: seq<Event>): nat
    decreases |es|
  {
    if es == [] then 0
    else
      var front, e := es[..|es|-1], es[|es|-1];
      match e
      case Failed(_) => TrailingFailures(front) + 1
      case Started(_) => TrailingFailures(front)
      case Refused(_) => TrailingFailures(front)
      case _ => 0
  }

  lemma {:induction false} FailuresAreTrailing(es: seq<Event>)
    requires es != [] && es[0].Registered?
    ensures After(es).stats.failures == TrailingFailures(es)
    decreases |es|
  {
    if |es| > 1 {
      FailuresAreTrailing(es[..|es|-1]);
    } else {
      assert es[..|es|-1] == [];
    }
  }

  // How many calls succeeded since the circuit last went half-open.
  ghost function ProbeSuccesses(es: seq<Event>): nat
    requires es != [] && es[0].Registered?
    decreases |es|
  {
    if |es| == 1 then 0
    else
      var front, e := es[..|es|-1], es[|es|-1];
      match e
      case Succeeded => ProbeSuccesses(front) + 1
      case Started(_) => if After(front).stats.state == OPEN then 0 else ProbeSuccesses(front)
      case _ => ProbeSuccesses(front)
  }

  lemma {:induction false} SuccessesAreProbes(es: seq<Event>)
    requires es != [] && es[0].Registered?
    ensures After(es).stats.state == HALF_OPEN ==> After(es).stats.successes == ProbeSuccesses(es)
    decreases |es|
  {
    if |es| > 1 {
      SuccessesAreProbes(es[..|es|-1]);
    }
  }

  // When the state changes, in terms of the history alone: it opens on a failure that is
  // a probe's or completes a run of failureThreshold, goes half-open when a call starts
  // while open, and closes on the probe success that completes successThreshold, on a
  // reset or on a registration.
  lemma TransitionsExact(es: seq<Event>, e: Event)
    requires es != [] && es[0].Registered?
    ensures var before, after, config := After(es).stats.state, After(es + [e]).stats.state, After(es).config;
            (after == OPEN <==>
               if before == OPEN then !e.Started? && !e.WasReset? && !e.Registered?
               else e.Failed? && (before == HALF_OPEN || TrailingFailures(es) + 1 >= config.failureThreshold)) &&
            (after == HALF_OPEN <==>
               (before == OPEN && e.Started?) ||
               (before == HALF_OPEN && (e.Started? || e.Refused? || (e.Succeeded? && ProbeSuccesses(es) + 1 < config.successThreshold))))
  {
    assert (es + [e])[..|es|] == es;
    FailuresAreTrailing(es);
    SuccessesAreProbes(es);
  }

  ghost predicate Consistent(c: Circuit) {
    && (c.stats.state == CLOSED && c.config.failureThreshold >= 1 ==> c.stats.failures < c.config.failureThreshold)
    && (c.stats.state == HALF_OPEN && c.config.successThreshold >= 1 ==> c.stats.successes < c.config.successThreshold)
    && (c.stats.state == OPEN ==> c.stats.lastFailureTime.Some?)
  }

  lemma {:induction false} AlwaysConsistent(es: seq<Event>)
    requires es != [] && es[0].Registered?
    ensures Consistent(After(es))
    decreases |es|
  {
    if |es| > 1 {
      AlwaysConsistent(es[..|es|-1]);
    }
  }

  // No reset or registration at positions i+1 .. k-1.
  ghost predicate Untouched(es: seq<Event>, i: nat, k: nat)
    requires k <= |es|
  {
    forall m :: i < m < k ==> !es[m].WasReset? && !es[m].Registered?
  }

  // While no call has started since the failure at i, the circuit stays open and keeps a
  // failure time no older than that failure.
  lemma {:induction false} OpenUntilStart(es: seq<Event>, i: nat, k: nat)
    requires History(es) && 1 <= i < k <= |es| && es[i].Failed? && After(es[..i+1]).stats.state == OPEN
    requires Untouched(es, i, k)
    requires forall m :: i < m < k ==> !es[m].Started?
    ensures var c := After(es[..k]);
            c.stats.state == OPEN && c.config == After(es[..i+1]).config &&
            c.stats.lastFailureTime.Some? && es[i].at <= c.stats.lastFailureTime.value
    decreases k
  {
    assert es[..k][..k-1] == es[..k-1];
    if k > i + 1 {
      OpenUntilStart(es, i, k - 1);
      if es[k-1].Failed? {
        Ordered(es, i, k - 1);
      }
    }
  }

  // After a failure leaves the circuit open at t, no call starts before t + timeout unless
  // the circuit is reset or registered again.
  lemma {:induction false} NoEarlyStart(es: seq<Event>, i: nat, j: nat)
    requires History(es) && 1 <= i < j < |es|
    requires es[i].Failed? && After(es[..i+1]).stats.state == OPEN
    requires es[j].Started? && Untouched(es, i, j)
    ensures es[i].at + After(es[..i+1]).config.timeout <= es[j].at
    decreases j
  {
    if m :| i < m < j && es[m].Started? {
      NoEarlyStart(es, i, m);
      Ordered(es, m, j);
    } else {
      OpenUntilStart(es, i, j);
      Prefixes(es, j);
    }
  }

  // An open circuit turns a call away forever if its failure was recorded at time 0, and
  // otherwise exactly while the timeout has not passed.
  lemma OpenRefusesExactly(es: seq<Event>, at: Millis)
    requires es != [] && es[0].Registered? && After(es).stats.state == OPEN
    ensures After(es).stats.lastFailureTime.Some?
    ensures var c := After(es); var t := c.stats.lastFailureTime.value;
            !Admits(c, at) <==> t == 0 || at < t + c.config.timeout
  {
    AlwaysConsistent(es);
  }

  // The time of the last failure recorded since the last reset or registration.
  ghost function LastFailure(es: seq<Event>): Option<Millis>
    decreases |es|
  {
    if es == [] then None
    else
      match es[|es|-1]
      case Failed(at) => Some(at)
      case Registered(_) => None
      case WasReset => None
      case _ => LastFailure(es[..|es|-1])
  }

  lemma {:induction false} FailureTimeIsLast(es: seq<Event>)
    requires es != [] && es[0].Registered?
    ensures After(es).stats.lastFailureTime == LastFailure(es)
    decreases |es|
  {
    if |es| > 1 {
      FailureTimeIsLast(es[..|es|-1]);
    }
  }

  // A circuit is configured by its last registration.
  ghost function LastConfig(es: seq<Event>): Config
    requires es != [] && es[0].Registered?
    decreases |es|
  {
    if es[|es|-1].Registered? then es[|es|-1].config else LastConfig(es[..|es|-1])
  }

  lemma {:induction false} ConfigIsLast(es: seq<Event>)
    requires es != [] && es[0].Registered?
    ensures After(es).config == LastConfig(es)
    decreases |es|
  {
    if |es| > 1 {
      ConfigIsLast(es[..|es|-1]);
    }
  }

  // Which calls start, in terms of the history alone: every call unless the circuit is open,
  // and while it is open those made once the timeout has passed since the last recorded
  // failure, unless that was at time 0.
  lemma StartsExactly(es: seq<Event>, at: Millis)
    requires History(es) && Latest(es) <= at
    ensures History(es + [Started(at)]) <==>
              After(es).stats.state != OPEN ||
              (LastFailure(es).Some? && LastFailure(es).value != 0 && LastFailure(es).value + LastConfig(es).timeout <= at)
    ensures History(es + [Refused(at)]) <==> !History(es + [Started(at)])
    ensures After(es).stats.state == OPEN ==> LastFailure(es).Some?
  {
    FailureTimeIsLast(es);
    ConfigIsLast(es);
    AlwaysConsistent(es);
    assert (es + [Started(at)])[..|es|] == es && (es + [Refused(at)])[..|es|] == es;
  }

  lemma Extends(es: seq<Event>, e: Event)
    requires History(es) && Follows(es, e)
    ensures History(es + [e]) && After(es + [e]) == Step(After(es), e)
    ensures Latest(es + [e]) == if Timed(e) then e.at else Latest(es)
  {
    assert (es + [e])[..|es|] == es;
  }

  // The history explains the circuit as it is at `now`.
  ghost predicate Tracks(es: seq<Event>, c: Circuit, now: Millis) {
    History(es) && After(es) == c && Latest(es) <= now
  }

  lemma Continues(es: seq<Event>, c: Circuit, now: Millis, e: Event)
    requires Tracks(es, c, now)
    requires Timed(e) ==> e.at == now
    requires e.Started? ==> Admits(c, now)
    requires e.Refused? ==> !Admits(c, now)
    ensures Tracks(es + [e], Step(c, e), now)
  {
    Extends(es, e);
  }

  lemma Begins(config: Config, now: Millis)
    ensures Tracks([Registered(config)], Circuit(config, Stats(0, 0, None, CLOSED)), now)
  {
  }

  // ---------- the service ----------

  class CircuitBreakerService {
    var configs: map<string, Config>
    var circuits: map<string, Stats>
    var clock: Millis
    ghost var history: map<string, seq<Event>>

    ghost predicate Valid()
      reads this
    {
      && configs.Keys == circuits.Keys == history.Keys
      && forall n :: n in history ==> Tracks(history[n], Circuit(configs[n], circuits[n]), clock)
    }

    constructor (clock: Millis)
      ensures Valid() && history == map[] && this.clock == clock
    {
      configs, circuits, history, this.clock := map[], map[], map[], clock;
    }

    method Elapse()
      requires Valid()
      modifies this`clock
      ensures Valid() && old(clock) <= clock
    {
      var later: Millis :| clock <= later;
      clock := later;
    }

    method Register(name: string, config: Config)
      requires Valid()
      modifies this`configs, this`circuits, this`history
      ensures Valid()
      ensures history == old(history)[name := if name in old(history) then old(history)[name] + [Registered(config)] else [Registered(config)]]
    {
      configs := configs[name := config];
      circuits := circuits[name := Stats(0, 0, None, CLOSED)];
      if name in history {
        Continues(history[name], old(Circuit(configs[name], circuits[name])), clock, Registered(config));
        history := history[name := history[name] + [Registered(config)]];
      } else {
        Begins(config, clock);
        history := history[name := [Registered(config)]];
      }
    }

    // The part of execute before the wrapped function runs. Only an open circuit turns a call
    // away, and only until the timeout has passed since the last recorded failure.
    method StartCall(name: string) returns (r: Admission)
      requires Valid()
      modifies this`circuits, this`history
      ensures Valid()
      ensures r.NotRegistered? <==> name !in old(history)
      ensures r.NotRegistered? ==> history == old(history)
      ensures !r.NotRegistered? ==>
                history == old(history)[name := old(history)[name] + [if r.Admitted? then Started(clock) else Refused(clock)]]
      ensures name in old(history) && old(circuits)[name].state != OPEN ==> r.Admitted? && circuits == old(circuits)
      ensures name in old(history) && old(circuits)[name].state == OPEN ==>
                var f := LastFailure(old(history)[name]);
                f.Some? && (r.Admitted? <==> f.value != 0 && f.value + LastConfig(old(history)[name]).timeout <= clock) &&
                (r.Admitted? ==> circuits[name].state == HALF_OPEN && circuits[name].successes == 0)
    {
      if name !in configs {
        return NotRegistered;
      }
      var stats, config := circuits[name], configs[name];
      FailureTimeIsLast(history[name]);
      ConfigIsLast(history[name]);
      AlwaysConsistent(history[name]);
      r := Admitted;
      if stats.state == OPEN {
        if stats.lastFailureTime.Some? && stats.lastFailureTime.value != 0 && clock - stats.lastFailureTime.value >= config.timeout {
          circuits := circuits[name := stats.(state := HALF_OPEN, successes := 0)];
        } else {
          r := Rejected;
        }
      }
      ghost var e := if r.Admitted? then Started(clock) else Refused(clock);
      Continues(history[name], Circuit(config, stats), clock, e);
      history := history[name := history[name] + [e]];
    }

    // Registrations are never removed, so a call that started still finds its circuit.
    method RecordSuccess(name: string)
      requires Valid() && name in circuits
      modifies this`circuits, this`history
      ensures Valid()
      ensures history == old(history)[name := old(history)[name] + [Succeeded]]
    {
      var stats, config := circuits[name], configs[name];
      Continues(history[name], Circuit(config, stats), clock, Succeeded);
      stats := stats.(successes := stats.successes + 1, failures := 0);
      if stats.state == HALF_OPEN && stats.successes >= config.successThreshold {
        stats := stats.(state := CLOSED, successes := 0);
      }
      circuits := circuits[name := stats];
      history := history[name := history[name] + [Succeeded]];
    }

    method RecordFailure(name: string)
      requires Valid() && name in circuits
      modifies this`circuits, this`history
      ensures Valid()
      ensures history == old(history)[name := old(history)[name] + [Failed(clock)]]
    {
      var stats, config := circuits[name], configs[name];
      Continues(history[name], Circuit(config, stats), clock, Failed(clock));
      stats := stats.(failures := stats.failures + 1, lastFailureTime := Some(clock));
      if stats.state == HALF_OPEN {
        stats := stats.(state := OPEN, successes := 0);
      } else if stats.failures >= config.failureThreshold {
        stats := stats.(state := OPEN);
      }
      circuits := circuits[name := stats];
      history := history[name := history[name] + [Failed(clock)]];
    }

    method Reset(name: string)
      requires Valid()
      modifies this`circuits, this`history
      ensures Valid()
      ensures history == if name in old(history) then old(history)[name := old(history)[name] + [WasReset]] else old(history)
    {
      if name in circuits {
        Continues(history[name], Circuit(configs[name], circuits[name]), clock, WasReset);
        circuits := circuits[name := Stats(0, 0, None, CLOSED)];
        history := history[name := history[name] + [WasReset]];
      }
    }

    method GetStats(name: string) returns (s: Option<Stats>)
      requires Valid()
      ensures s.Some? <==> name in history
      ensures s.Some? ==> s.value.failures == TrailingFailures(history[name]) && s.value.lastFailureTime == LastFailure(history[name])
      ensures s.Some? && s.value.state == HALF_OPEN ==> s.value.successes == ProbeSuccesses(history[name])
      ensures s.Some? ==> s.value == circuits[name]
      ensures s.Some? ==> Consistent(Circuit(configs[name], s.value))
    {
      if name !in circuits {
        return None;
      }
      FailuresAreTrailing(history[name]);
      FailureTimeIsLast(history[name]);
      SuccessesAreProbes(history[name]);
      AlwaysConsistent(history[name]);
      s := Some(circuits[name]);
    }
  }
}
