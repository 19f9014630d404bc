/**
 RateLimitGuard.canActivate for one identifier, requests one at a time, Redis answering.
 A request reads the counter, increments it, and gives a new counter its time to live, at
 three successive instants.
 */
module RateLimit {
  import opened Common

  const MAX_ATTEMPTS: nat := 5
  const WINDOW: Millis := 900 * 1000

  datatype Counter = Counter(count: nat, expiresAt: Millis)

  datatype Request = Request(readAt: Millis, incrementedAt: Millis, expireSetAt: Millis)

  function Current(c: Option<Counter>, now: Millis): nat {
    if c.Some? && now < c.value.expiresAt then c.value.count else 0
  }

  // Whether the request passes, and the counter it leaves.
  function Activate(c: Option<Counter>, q: Request): (bool, Option<Counter>) {
    if Current(c, q.readAt) >= MAX_ATTEMPTS then (false, c)
    else
      var n := Current(c, q.incrementedAt) + 1;
      (true, Some(if n == 1 then Counter(1, q.expireSetAt + WINDOW) else c.value.(count := n)))
  }

  // A counter that has counted something and has not run out.
  ghost predicate Counting(c: Option<Counter>, now: Millis) {
    c.Some? && now < c.value.expiresAt && c.value.count > 0
  }

  class RateLimitGuard {
    var counter: Option<Counter>

    constructor ()
      ensures counter == None
    {
      counter := None;
    }

    // Refused exactly where the live counter shows five attempts, which leaves it alone. What
    // passes adds one to the counter still live at the increment, whose end stays as it was,
    // and otherwise begins a new one of 900 s.
    method CanActivate(q: Request) returns (pass: bool)
      requires q.readAt <= q.incrementedAt <= q.expireSetAt
      modifies this
      ensures (pass, counter) == Activate(old(counter), q)
      ensures !pass <==> exists n, till :: old(counter) == Some(Counter(n, till)) && n >= 5 && q.readAt < till
      ensures !pass ==> counter == old(counter)
      ensures pass && Counting(old(counter), q.incrementedAt) ==>
                counter == Some(Counter(old(counter).value.count + 1, old(counter).value.expiresAt))
      ensures pass && !Counting(old(counter), q.incrementedAt) ==> counter == Some(Counter(1, q.expireSetAt + 900_000))
    {
      var attempts := if counter.Some? && q.readAt < counter.value.expiresAt then counter.value.count else 0;
      if attempts >= MAX_ATTEMPTS {
        return false;
      }
      if counter.Some? && q.incrementedAt < counter.value.expiresAt && counter.value.count > 0 {
        counter := Some(counter.value.(count := counter.value.count + 1));
      } else {
        counter := Some(Counter(1, q.expireSetAt + WINDOW));
      }
      pass := true;
    }
  }

  ghost predicate Sequential(qs: seq<Request>) {
    && (forall i :: 0 <= i < |qs| ==> qs[i].readAt <= qs[i].incrementedAt <= qs[i].expireSetAt)
    && (forall i, j :: 0 <= i < j < |qs| ==> qs[i].expireSetAt <= qs[j].readAt)
  }

  // Requests let through with their increment between `from` and `till`.
  function Passes(c: Option<Counter>, qs: seq<Request>, from: Millis, till: Millis): nat
    decreases |qs|
  {
    if qs == [] then 0
    else
      (if Activate(c, qs[0]).0 && from <= qs[0].incrementedAt <= till then 1 else 0)
      + Passes(Activate(c, qs[0]).1, qs[1..], from, till)
  }

  // How many more requests may pass between now and till.
  ghost function Budget(c: Option<Counter>, now: Millis, till: Millis): nat {
    if till < now then 0
    else if Counting(c, now) then
      (if c.value.count < 5 then 5 - c.value.count else 0)
      + if till < c.value.expiresAt then 0 else 5 * (1 + (till - c.value.expiresAt) / WINDOW)
    else 5 * (1 + (till - now) / WINDOW)
  }

  // A window begun after the increment at `at` has let one request through already.
  lemma BudgetOfNewWindow(at: Millis, begunAt: Millis, till: Millis)
    requires at <= begunAt && at <= till
    ensures 1 + Budget(Some(Counter(1, begunAt + WINDOW)), at, till) <= 5 * (1 + (till - at) / WINDOW)
  {
    if begunAt + WINDOW <= till {
      assert (till - begunAt) / WINDOW == (till - (begunAt + WINDOW)) / WINDOW + 1;
      assert (till - begunAt) / WINDOW <= (till - at) / WINDOW;
    }
  }

  lemma BudgetStep(c: Option<Counter>, q: Request, now: Millis, till: Millis)
    requires now <= q.readAt <= q.incrementedAt <= q.expireSetAt
    ensures (if Activate(c, q).0 && q.incrementedAt <= till then 1 else 0)
            + Budget(Activate(c, q).1, q.incrementedAt, till) <= Budget(c, now, till)
  {
    BudgetShrinks(c, now, q.incrementedAt, till);
    if q.incrementedAt <= till {
      BudgetOfNewWindow(q.incrementedAt, q.expireSetAt, till);
    }
  }

  lemma BudgetShrinks(c: Option<Counter>, now: Millis, later: Millis, till: Millis)
    requires now <= later
    ensures Budget(c, later, till) <= Budget(c, now, till)
  {
  }

  lemma {:induction false} PassesWithinBudget(c: Option<Counter>, qs: seq<Request>, now: Millis, from: Millis, till: Millis)
    requires Sequential(qs) && (qs != [] ==> now <= qs[0].readAt)
    ensures Passes(c, qs, from, till) <= Budget(c, now, till)
    decreases |qs|
  {
    if qs != [] {
      BudgetStep(c, qs[0], now, till);
      var c1 := Activate(c, qs[0]).1;
      PassesWithinBudget(c1, qs[1..], qs[0].expireSetAt, from, till);
      BudgetShrinks(c1, qs[0].incrementedAt, qs[0].expireSetAt, till);
    }
  }

  // Windows begun in a span: one for each whole or part window it covers.
  function Windows(span: nat): (n: nat)
    ensures span <= WINDOW ==> n <= 1
  {
    (span + WINDOW - 1) / WINDOW
  }

  lemma SpanStep(c: Option<Counter>, q: Request, from: Millis, till: Millis)
    requires q.readAt <= q.incrementedAt <= q.expireSetAt && from <= q.incrementedAt && from <= till
    ensures (if Activate(c, q).0 && q.incrementedAt <= till then 1 else 0)
            + Budget(Activate(c, q).1, q.incrementedAt, till) <= 5 * (1 + Windows(till - from))
  {
  }

  lemma SpanBound(c: Option<Counter>, qs: seq<Request>, from: Millis, till: Millis)
    requires Sequential(qs) && from <= till && qs != [] && from <= qs[0].incrementedAt
    ensures Passes(c, qs, from, till) <= 5 * (1 + Windows(till - from))
  {
    var c1 := Activate(c, qs[0]).1;
    PassesWithinBudget(c1, qs[1..], qs[0].expireSetAt, from, till);
    BudgetShrinks(c1, qs[0].incrementedAt, qs[0].expireSetAt, till);
    SpanStep(c, qs[0], from, till);
  }

  // A span of time lets through at most five requests plus five for every window begun in
  // it: ten in any 900 s.
  lemma {:induction false} PassBound(c: Option<Counter>, qs: seq<Request>, from: Millis, till: Millis)
    requires Sequential(qs) && from <= till
    ensures Passes(c, qs, from, till) <= 5 * (1 + Windows(till - from))
    ensures till - from <= 900_000 ==> Passes(c, qs, from, till) <= 10
    decreases |qs|
  {
    if qs != [] {
      if qs[0].incrementedAt < from {
        PassBound(Activate(c, qs[0]).1, qs[1..], from, till);
      } else {
        SpanBound(c, qs, from, till);
      }
    }
  }
}
