/**
 The two-tier cache under any interleaving. A read is its memory step, Redis's answer and the
 memory fill; a write is its memory step and the moment Redis has it, or fails; between any two
 of these other reads and writes of this process may run, time may pass, and other writers may
 leave Redis holding anything. A batch is its keys' steps, several at one instant.
 */
module MultiTierRuns {
  import opened Common
  import opened T = MultiTierCache

  // Where a remembered value comes from: a read, answered and filled at these instants, or a set
  // of this process begun at this one.
  datatype Source = Filled(answeredAt: Millis, filledAt: Millis) | Written(writtenAt: Millis)

  datatype Reply = Reply(key: Key, value: Value, answeredAt: Millis)

  datatype Pending = Pending(key: Key, value: Option<Value>, ttl: Option<int>, writtenAt: Millis)

  datatype Served = Served(key: Key, value: Value, source: Source, at: Millis)

  // asked, replies: reads waiting for Redis, and for their fill. writes: Redis's part of sets.
  datatype State = State(
    tiers: T.State,
    asked: multiset<Key>,
    replies: multiset<Reply>,
    writes: multiset<Pending>,
    sources: map<Key, Source>,
    served: set<Served>)

  datatype Event =
    | Tick(later: Millis)
    | Ask(key: Key)
    | Answer(key: Key)
    | Fill(reply: Reply)
    | Begin(key: Key, value: Option<Value>, ttl: Option<int>)
    | Land(write: Pending)
    | Lose(write: Pending)
    | Forget(gone: set<Key>)
    | Sweep
    | OtherWriter(redis: map<Key, RedisEntry>)

  ghost predicate Enabled(s: State, e: Event) {
    match e
    case Tick(later) => s.tiers.clock <= later
    case Answer(k) => k in s.asked
    case Fill(q) => q in s.replies
    case Land(w) => w in s.writes
    case Lose(w) => w in s.writes
    case _ => true
  }

  function MemoryLife(ttl: Option<int>): int {
    Min(Or(ttl, MEMORY_TTL), MEMORY_TTL)
  }

  // What a step does to the two tiers. Deletes and counters forget the key in memory; what they
  // do to Redis is another writer's.
  function TierStep(t: T.State, e: Event): T.State {
    match e
    case Tick(later) => if t.clock <= later then t.(clock := later) else t
    case Ask(k) => if MemoryGet(t, k).Some? then t else DropExpired(t, k)
    case Answer(_) => t
    case Fill(q) => Remember(t, q.key, Some(q.value), MEMORY_TTL)
    case Begin(k, v, ttl) => Remember(t, k, v, MemoryLife(ttl))
    case Land(w) => RedisSet(t, w.key, w.value, w.ttl)
    case Lose(_) => t
    case Forget(gone) => t.(memory := t.memory - gone)
    case Sweep => Cleanup(t)
    case OtherWriter(redis) => t.(redis := redis)
  }

  function SourceOf(s: State, k: Key): Source {
    if k in s.sources then s.sources[k] else Written(0)
  }

  ghost function Apply(s: State, e: Event): State
    requires Enabled(s, e)
  {
    var t := s.(tiers := TierStep(s.tiers, e));
    match e
    case Ask(k) =>
      if MemoryGet(s.tiers, k).Some? then
        t.(served := s.served + {Served(k, MemoryGet(s.tiers, k).value, SourceOf(s, k), s.tiers.clock)})
      else t.(asked := s.asked + multiset{k})
    case Answer(k) =>
      if RedisGet(s.tiers, k).None? then t.(asked := s.asked - multiset{k})
      else t.(asked := s.asked - multiset{k}, replies := s.replies + multiset{Reply(k, RedisGet(s.tiers, k).value, s.tiers.clock)})
    case Fill(q) =>
      var source := Filled(q.answeredAt, s.tiers.clock);
      t.(replies := s.replies - multiset{q},
         sources := s.sources[q.key := source],
         served := s.served + {Served(q.key, q.value, source, s.tiers.clock)})
    case Begin(k, v, ttl) =>
      t.(sources := s.sources[k := Written(s.tiers.clock)], writes := s.writes + multiset{Pending(k, v, ttl, s.tiers.clock)})
    case Land(w) => t.(writes := s.writes - multiset{w})
    case Lose(w) => t.(writes := s.writes - multiset{w})
    case _ => t
  }

  ghost predicate Idle(s: State) {
    s.tiers.memory == map[] && s.asked == multiset{} && s.replies == multiset{} && s.writes == multiset{} && s.sources == map[] && s.served == {}
  }

  ghost predicate Run(r: seq<State>, es: seq<Event>) {
    && |r| == |es| + 1
    && Idle(r[0])
    && forall i :: 0 <= i < |es| ==> Enabled(r[i], es[i]) && r[i+1] == Apply(r[i], es[i])
  }

  // ---------- staleness ----------

  // Redis answered v for k at the instant `at`, in some state up to r[i].
  ghost predicate RedisHad(r: seq<State>, i: nat, k: Key, v: Value, at: Millis)
    requires i < |r|
  {
    exists j :: 0 <= j <= i && r[j].tiers.clock == at && RedisGet(r[j].tiers, k) == Some(v)
  }

  // A set of v for k began at the instant `at`.
  ghost predicate SetBegan(r: seq<State>, es: seq<Event>, i: nat, k: Key, v: Value, at: Millis)
    requires i < |r| == |es| + 1
  {
    exists m :: 0 <= m < i && es[m].Begin? && es[m].key == k && es[m].value == Some(v) && r[m].tiers.clock == at
  }

  ghost predicate Backed(r: seq<State>, es: seq<Event>, i: nat, k: Key, v: Value, source: Source)
    requires i < |r| == |es| + 1
  {
    match source
    case Filled(answeredAt, filledAt) => answeredAt <= filledAt <= r[i].tiers.clock && RedisHad(r, i, k, v, answeredAt)
    case Written(writtenAt) => writtenAt <= r[i].tiers.clock && SetBegan(r, es, i, k, v, writtenAt)
  }

  function Since(source: Source): Millis {
    match source
    case Filled(_, filledAt) => filledAt
    case Written(writtenAt) => writtenAt
  }

  ghost predicate MemoryBacked(r: seq<State>, es: seq<Event>, i: nat)
    requires i < |r| == |es| + 1
  {
    var s := r[i];
    forall k :: k in s.tiers.memory ==>
      && k in s.sources
      && s.tiers.memory[k].expiresAt <= Since(s.sources[k]) + MEMORY_TTL * 1000
      && (s.tiers.memory[k].value.Some? ==> Backed(r, es, i, k, s.tiers.memory[k].value.value, s.sources[k]))
  }

  ghost predicate RepliesBacked(r: seq<State>, i: nat)
    requires i < |r|
  {
    forall q :: q in r[i].replies ==> q.answeredAt <= r[i].tiers.clock && RedisHad(r, i, q.key, q.value, q.answeredAt)
  }

  ghost predicate ServedBacked(r: seq<State>, es: seq<Event>, i: nat)
    requires i < |r| == |es| + 1
  {
    forall v :: v in r[i].served ==>
      Backed(r, es, i, v.key, v.value, v.source) && Since(v.source) <= v.at < Since(v.source) + MEMORY_TTL * 1000
  }

  lemma HadLater(r: seq<State>, i: nat, k: Key, v: Value, at: Millis)
    requires 0 < i < |r| && RedisHad(r, i - 1, k, v, at)
    ensures RedisHad(r, i, k, v, at)
  {
    var j :| 0 <= j <= i - 1 && r[j].tiers.clock == at && RedisGet(r[j].tiers, k) == Some(v);
  }

  lemma BackedLater(r: seq<State>, es: seq<Event>, i: nat, k: Key, v: Value, source: Source)
    requires |r| == |es| + 1 && 0 < i < |r| && Backed(r, es, i - 1, k, v, source) && r[i-1].tiers.clock <= r[i].tiers.clock
    ensures Backed(r, es, i, k, v, source)
  {
    match source
    case Filled(answeredAt, _) => HadLater(r, i, k, v, answeredAt);
    case Written(at) =>
      var m :| 0 <= m < i - 1 && es[m].Begin? && es[m].key == k && es[m].value == Some(v) && r[m].tiers.clock == at;
  }

  ghost predicate Stepped(r: seq<State>, es: seq<Event>, i: nat) {
    && |r| == |es| + 1 && 0 < i < |r|
    && Enabled(r[i-1], es[i-1]) && r[i] == Apply(r[i-1], es[i-1])
  }

  lemma ClockStep(s: State, e: Event)
    requires Enabled(s, e)
    ensures s.tiers.clock <= Apply(s, e).tiers.clock
  {
  }

  lemma NewReply(s: State, e: Event, q: Reply)
    requires Enabled(s, e) && q in Apply(s, e).replies && q !in s.replies
    ensures e.Answer? && RedisGet(s.tiers, q.key) == Some(q.value) && s.tiers.clock == q.answeredAt && Apply(s, e).tiers == s.tiers
  {
  }

  lemma RunStep(r: seq<State>, es: seq<Event>, i: nat)
    requires Run(r, es) && 0 < i < |r|
    ensures Stepped(r, es, i) && r[i-1].tiers.clock <= r[i].tiers.clock
  {
    assert r[i-1+1] == Apply(r[i-1], es[i-1]);
    ClockStep(r[i-1], es[i-1]);
  }

  lemma RepliesStep(r: seq<State>, es: seq<Event>, i: nat)
    requires Stepped(r, es, i) && RepliesBacked(r, i - 1) && r[i-1].tiers.clock <= r[i].tiers.clock
    ensures RepliesBacked(r, i)
  {
    forall q | q in r[i].replies ensures q.answeredAt <= r[i].tiers.clock && RedisHad(r, i, q.key, q.value, q.answeredAt) {
      if q in r[i-1].replies {
        HadLater(r, i, q.key, q.value, q.answeredAt);
      } else {
        NewReply(r[i-1], es[i-1], q);
      }
    }
  }

  ghost predicate SameEntry(s: State, t: State, k: Key) {
    k in s.tiers.memory && k in t.tiers.memory && t.tiers.memory[k] == s.tiers.memory[k]
    && (k in s.sources ==> k in t.sources && t.sources[k] == s.sources[k])
  }

  // An entry a step leaves in memory was there before, or a fill or a set put it there.
  ghost predicate PutByStep(s: State, e: Event, k: Key)
    requires Enabled(s, e) && k in Apply(s, e).tiers.memory
  {
    var t := Apply(s, e);
    var entry := t.tiers.memory[k];
    && k in t.sources && t.tiers.clock == s.tiers.clock && entry.expiresAt <= s.tiers.clock + MEMORY_TTL * 1000
    && ((e.Fill? && e.reply.key == k && entry.value == Some(e.reply.value) && t.sources[k] == Filled(e.reply.answeredAt, s.tiers.clock)) ||
        (e.Begin? && e.key == k && entry.value == e.value && t.sources[k] == Written(s.tiers.clock)))
  }

  lemma NewEntry(s: State, e: Event, k: Key)
    requires Enabled(s, e) && ((e.Fill? && e.reply.key == k) || (e.Begin? && e.key == k))
    ensures k in Apply(s, e).tiers.memory && PutByStep(s, e, k)
  {
  }

  lemma OldEntry(s: State, e: Event, k: Key)
    requires Enabled(s, e) && !(e.Fill? && e.reply.key == k) && !(e.Begin? && e.key == k)
    requires k in Apply(s, e).tiers.memory
    ensures SameEntry(s, Apply(s, e), k)
  {
    assert k in TierStep(s.tiers, e).memory;
  }

  lemma EntryOrigin(s: State, e: Event, k: Key)
    requires Enabled(s, e) && k in Apply(s, e).tiers.memory
    ensures if (e.Fill? && e.reply.key == k) || (e.Begin? && e.key == k) then PutByStep(s, e, k) else SameEntry(s, Apply(s, e), k)
  {
    if (e.Fill? && e.reply.key == k) || (e.Begin? && e.key == k) {
      NewEntry(s, e, k);
    } else {
      OldEntry(s, e, k);
    }
  }

  lemma MemoryStep(r: seq<State>, es: seq<Event>, i: nat)
    requires Stepped(r, es, i) && RepliesBacked(r, i - 1) && MemoryBacked(r, es, i - 1) && r[i-1].tiers.clock <= r[i].tiers.clock
    ensures MemoryBacked(r, es, i)
  {
    var s, t, e := r[i-1], r[i], es[i-1];
    forall k | k in t.tiers.memory
      ensures k in t.sources && t.tiers.memory[k].expiresAt <= Since(t.sources[k]) + MEMORY_TTL * 1000
      ensures t.tiers.memory[k].value.Some? ==> Backed(r, es, i, k, t.tiers.memory[k].value.value, t.sources[k])
    {
      EntryOrigin(s, e, k);
      if !((e.Fill? && e.reply.key == k) || (e.Begin? && e.key == k)) {
        if t.tiers.memory[k].value.Some? {
          BackedLater(r, es, i, k, t.tiers.memory[k].value.value, t.sources[k]);
        }
      } else if e.Fill? {
        HadLater(r, i, k, e.reply.value, e.reply.answeredAt);
      }
    }
  }

  lemma NewServed(s: State, e: Event, v: Served)
    requires Enabled(s, e) && v in Apply(s, e).served && v !in s.served
    ensures v.at == s.tiers.clock == Apply(s, e).tiers.clock
    ensures (LiveInMemory(s.tiers, v.key) && s.tiers.memory[v.key].value == Some(v.value) && v.source == SourceOf(s, v.key)) ||
            (e.Fill? && e.reply.key == v.key && e.reply.value == v.value && v.source == Filled(e.reply.answeredAt, s.tiers.clock))
  {
  }

  lemma ServedStep(r: seq<State>, es: seq<Event>, i: nat)
    requires Stepped(r, es, i) && RepliesBacked(r, i - 1) && MemoryBacked(r, es, i - 1) && ServedBacked(r, es, i - 1)
    requires r[i-1].tiers.clock <= r[i].tiers.clock
    ensures ServedBacked(r, es, i)
  {
    var s, e := r[i-1], es[i-1];
    forall v | v in r[i].served
      ensures Backed(r, es, i, v.key, v.value, v.source) && Since(v.source) <= v.at < Since(v.source) + MEMORY_TTL * 1000
    {
      if v in s.served {
        BackedLater(r, es, i, v.key, v.value, v.source);
      } else {
        NewServed(s, e, v);
        if e.Fill? && e.reply.key == v.key && e.reply.value == v.value && v.source == Filled(e.reply.answeredAt, s.tiers.clock) {
          HadLater(r, i, v.key, v.value, e.reply.answeredAt);
        } else {
          BackedLater(r, es, i, v.key, v.value, v.source);
        }
      }
    }
  }

  lemma {:induction false} BackedOverRuns(r: seq<State>, es: seq<Event>, i: nat)
    requires Run(r, es) && i < |r|
    ensures RepliesBacked(r, i) && MemoryBacked(r, es, i) && ServedBacked(r, es, i)
  {
    if i > 0 {
      BackedOverRuns(r, es, i - 1);
      RunStep(r, es, i);
      RepliesStep(r, es, i);
      MemoryStep(r, es, i);
      ServedStep(r, es, i);
    }
  }

  // A value answered was Redis's within the last 60 s, plus the gap between the answer and the
  // fill of the read that brought it into memory; or this process set it within the last 60 s.
  lemma BoundedStaleness(r: seq<State>, es: seq<Event>, i: nat)
    requires Run(r, es) && i < |r|
    ensures forall v :: v in r[i].served ==>
              match v.source
              case Filled(answeredAt, filledAt) =>
                RedisHad(r, i, v.key, v.value, answeredAt) && v.at - answeredAt < 60_000 + (filledAt - answeredAt)
              case Written(writtenAt) =>
                SetBegan(r, es, i, v.key, v.value, writtenAt) && v.at - writtenAt < 60_000
  {
    BackedOverRuns(r, es, i);
  }

  // A batch read takes what memory has at one instant, and Redis's replies for the rest.
  lemma BoundedStalenessOfBatch(r: seq<State>, es: seq<Event>, i: nat, keys: seq<Key>)
    requires Run(r, es) && i < |r|
    ensures forall k :: k in keys && MemoryGet(r[i].tiers, k).Some? ==>
              && Backed(r, es, i, k, MemoryGet(r[i].tiers, k).value, SourceOf(r[i], k))
              && r[i].tiers.clock < Since(SourceOf(r[i], k)) + MEMORY_TTL * 1000
    ensures forall q :: q in r[i].replies && q.key in keys ==>
              q.answeredAt <= r[i].tiers.clock && RedisHad(r, i, q.key, q.value, q.answeredAt)
  {
    BackedOverRuns(r, es, i);
  }

  ghost predicate TimeFlows(r: seq<State>) {
    forall i :: 0 < i < |r| ==> r[i-1].tiers.clock <= r[i].tiers.clock
  }

  lemma RunFlows(r: seq<State>, es: seq<Event>)
    requires Run(r, es)
    ensures TimeFlows(r)
  {
    forall i | 0 < i < |r| ensures r[i-1].tiers.clock <= r[i].tiers.clock {
      RunStep(r, es, i);
    }
  }

  lemma {:induction false} ClockGrows(r: seq<State>, i: nat, j: nat)
    requires TimeFlows(r) && i <= j < |r|
    ensures r[i].tiers.clock <= r[j].tiers.clock
    decreases j
  {
    if i < j {
      ClockGrows(r, i, j - 1);
    }
  }

  // Once Redis has taken a set, its value too has been Redis's since the set began.
  lemma LandedIsHad(r: seq<State>, es: seq<Event>, m: nat, n: nat, i: nat)
    requires Run(r, es) && m < n < i < |r|
    requires es[m].Begin? && es[m].value.Some? && es[n] == Land(Pending(es[m].key, es[m].value, es[m].ttl, r[m].tiers.clock))
    ensures exists at :: r[m].tiers.clock <= at <= r[i].tiers.clock && RedisHad(r, i, es[m].key, es[m].value.value, at)
  {
    RunFlows(r, es);
    ClockGrows(r, m, n + 1);
    ClockGrows(r, n + 1, i);
    assert r[n+1] == Apply(r[n], es[n]);
    assert RedisGet(r[n+1].tiers, es[m].key) == es[m].value;
    assert RedisHad(r, i, es[m].key, es[m].value.value, r[n+1].tiers.clock);
  }

  // ---------- reading one's own writes ----------

  ghost predicate Possible(s: State, es: seq<Event>)
    decreases |es|
  {
    es == [] || (Enabled(s, es[0]) && Possible(Apply(s, es[0]), es[1..]))
  }

  ghost function After(s: State, es: seq<Event>): State
    requires Possible(s, es)
    decreases |es|
  {
    if es == [] then s else After(Apply(s, es[0]), es[1..])
  }

  // No set, delete or count of k by this process.
  ghost predicate Quiet(es: seq<Event>, k: Key) {
    forall i :: 0 <= i < |es| ==> !(es[i].Begin? && es[i].key == k) && !(es[i].Forget? && k in es[i].gone)
  }

  lemma QuietTail(es: seq<Event>, k: Key)
    requires Quiet(es, k) && es != []
    ensures Quiet(es[1..], k) && !(es[0].Begin? && es[0].key == k) && !(es[0].Forget? && k in es[0].gone)
  {
    forall i | 0 <= i < |es[1..]| ensures !(es[1..][i].Begin? && es[1..][i].key == k) && !(es[1..][i].Forget? && k in es[1..][i].gone) {
      assert es[1..][i] == es[i+1];
    }
  }

  lemma {:induction false} AfterIsLater(s: State, es: seq<Event>)
    requires Possible(s, es)
    ensures s.tiers.clock <= After(s, es).tiers.clock
    decreases |es|
  {
    if es != [] {
      ClockStep(s, es[0]);
      AfterIsLater(Apply(s, es[0]), es[1..]);
    }
  }

  // No read of k on its way can bring anything but v.
  ghost predicate NoOtherOnTheWay(s: State, k: Key, v: Value) {
    k !in s.asked && forall q :: q in s.replies && q.key == k ==> q.value == v
  }

  ghost predicate Holds(s: State, k: Key, v: Value, until: int) {
    && k in s.tiers.memory && s.tiers.memory[k].value == Some(v)
    && until <= s.tiers.memory[k].expiresAt && until <= s.tiers.clock + MEMORY_TTL * 1000
    && NoOtherOnTheWay(s, k, v)
  }

  lemma EntryStays(s: State, e: Event, k: Key)
    requires Enabled(s, e) && LiveInMemory(s.tiers, k) && !(e.Forget? && k in e.gone)
    ensures k in Apply(s, e).tiers.memory
  {
    match e
    case Ask(_) =>
    case Sweep =>
    case _ =>
  }

  lemma WayStaysClear(s: State, e: Event, k: Key, v: Value)
    requires Enabled(s, e) && NoOtherOnTheWay(s, k, v) && MemoryGet(s.tiers, k).Some?
    ensures NoOtherOnTheWay(Apply(s, e), k, v)
  {
    var t := Apply(s, e);
    forall q | q in t.replies && q.key == k ensures q.value == v {
      if q !in s.replies { NewReply(s, e, q); }
    }
  }

  lemma HoldsStep(s: State, e: Event, k: Key, v: Value, until: int)
    requires Enabled(s, e) && Holds(s, k, v, until) && s.tiers.clock < until
    requires !(e.Begin? && e.key == k) && !(e.Forget? && k in e.gone)
    ensures Holds(Apply(s, e), k, v, until)
  {
    ClockStep(s, e);
    EntryStays(s, e, k);
    EntryOrigin(s, e, k);
    WayStaysClear(s, e, k, v);
  }

  lemma {:induction false} HoldsAfter(s: State, es: seq<Event>, k: Key, v: Value, until: int)
    requires Possible(s, es) && Quiet(es, k) && Holds(s, k, v, until) && After(s, es).tiers.clock < until
    ensures Holds(After(s, es), k, v, until)
    decreases |es|
  {
    if es != [] {
      AfterIsLater(s, es);
      QuietTail(es, k);
      HoldsStep(s, es[0], k, v, until);
      HoldsAfter(Apply(s, es[0]), es[1..], k, v, until);
    }
  }

  // However things go on, short of another set, delete or count of k here, memory answers v for
  // k as long as the entry of the set lives.
  ghost predicate AlwaysSeen(s: State, k: Key, v: Value, until: int) {
    forall es :: Possible(s, es) && Quiet(es, k) && After(s, es).tiers.clock < until ==> MemoryGet(After(s, es).tiers, k) == Some(v)
  }

  lemma OneStep(s: State, e: Event)
    requires Enabled(s, e)
    ensures Possible(s, [e]) && After(s, [e]) == Apply(s, e)
  {
    assert [e][1..] == [];
  }

  // A read that Redis has answered with another value can overwrite what was set.
  lemma ReplyOverwrites(s: State, k: Key, v: Value, q: Reply, until: int)
    requires q in s.replies && q.key == k && q.value != v && s.tiers.clock < until
    ensures !AlwaysSeen(s, k, v, until)
  {
    OneStep(s, Fill(q));
    assert Quiet([Fill(q)], k);
    assert MemoryGet(After(s, [Fill(q)]).tiers, k) == Some(q.value);
  }

  lemma ThreeSteps(s: State, d: Event, e: Event, f: Event)
    requires Enabled(s, d) && Enabled(Apply(s, d), e) && Enabled(Apply(Apply(s, d), e), f)
    ensures Possible(s, [d, e, f]) && After(s, [d, e, f]) == Apply(Apply(Apply(s, d), e), f)
  {
    var es, s1, s2 := [d, e, f], Apply(s, d), Apply(Apply(s, d), e);
    OneStep(s2, f);
    assert es[1..] == [e, f] && [e, f][1..] == [f];
    assert Possible(s1, [e, f]) && After(s1, [e, f]) == Apply(s2, f);
  }

  lemma AnswerBrings(s: State, k: Key, x: Value)
    requires k in s.asked && RedisGet(s.tiers, k) == Some(x)
    ensures Reply(k, x, s.tiers.clock) in Apply(s, Answer(k)).replies && Apply(s, Answer(k)).tiers == s.tiers
  {
  }

  lemma FillShows(s: State, q: Reply)
    requires q in s.replies
    ensures Apply(s, Fill(q)).tiers.clock == s.tiers.clock && MemoryGet(Apply(s, Fill(q)).tiers, q.key) == Some(q.value)
  {
  }

  // So can one that Redis has yet to answer, if another writer gets there first.
  lemma ReadOverwrites(s: State, k: Key, v: Value, until: int)
    requires k in s.asked && s.tiers.clock < until
    ensures !AlwaysSeen(s, k, v, until)
  {
    var x := if v == Number(0) then Number(1) else Number(0);
    var d, e, q := OtherWriter(s.tiers.redis[k := RedisEntry(Some(x), None)]), Answer(k), Reply(k, x, s.tiers.clock);
    var s1 := Apply(s, d);
    AnswerBrings(s1, k, x);
    var s2 := Apply(s1, e);
    FillShows(s2, q);
    ThreeSteps(s, d, e, Fill(q));
    QuietThree(d, e, Fill(q), k);
  }

  lemma QuietThree(d: Event, e: Event, f: Event, k: Key)
    requires !d.Begin? && !d.Forget? && !e.Begin? && !e.Forget? && !f.Begin? && !f.Forget?
    ensures Quiet([d, e, f], k)
  {
  }

  // A set is seen for as long as its memory entry lives, whatever goes on meanwhile, exactly when
  // no read of the key was under way that could bring another value.
  lemma OwnWritesAreSeen(s: State, k: Key, v: Value, ttl: Option<int>)
    requires MemoryLife(ttl) > 0
    ensures AlwaysSeen(Apply(s, Begin(k, Some(v), ttl)), k, v, s.tiers.clock + MemoryLife(ttl) * 1000) <==> NoOtherOnTheWay(s, k, v)
  {
    var t, until := Apply(s, Begin(k, Some(v), ttl)), s.tiers.clock + MemoryLife(ttl) * 1000;
    if NoOtherOnTheWay(s, k, v) {
      assert Holds(t, k, v, until);
      forall es | Possible(t, es) && Quiet(es, k) && After(t, es).tiers.clock < until
        ensures MemoryGet(After(t, es).tiers, k) == Some(v)
      {
        HoldsAfter(t, es, k, v, until);
      }
    } else if k in s.asked {
      ReadOverwrites(t, k, v, until);
    } else {
      var q :| q in s.replies && q.key == k && q.value != v;
      ReplyOverwrites(t, k, v, q, until);
    }
  }

  // ---------- the operations as steps ----------

  // A get with nothing in between.
  function ReadSteps(t: T.State, k: Key): seq<Event> {
    if MemoryGet(t, k).Some? then [Ask(k)]
    else if RedisGet(t, k).None? then [Ask(k), Answer(k)]
    else [Ask(k), Answer(k), Fill(Reply(k, RedisGet(t, k).value, t.clock))]
  }

  lemma ReadIsItsSteps(s: State, k: Key)
    ensures Possible(s, ReadSteps(s.tiers, k)) && After(s, ReadSteps(s.tiers, k)).tiers == ReadOne(s.tiers, k).1
    ensures ReadOne(s.tiers, k).0.Some? ==> exists source ::
              Served(k, ReadOne(s.tiers, k).0.value, source, s.tiers.clock) in After(s, ReadSteps(s.tiers, k)).served
  {
    var es := ReadSteps(s.tiers, k);
    var s1 := Apply(s, Ask(k));
    if MemoryGet(s.tiers, k).Some? {
      OneStep(s, Ask(k));
    } else {
      var s2 := Apply(s1, Answer(k));
      assert RedisGet(s1.tiers, k) == RedisGet(s.tiers, k);
      assert es[1..][0] == Answer(k);
      if RedisGet(s.tiers, k).None? {
        OneStep(s1, Answer(k));
        assert es[1..] == [Answer(k)];
      } else {
        var q := Reply(k, RedisGet(s.tiers, k).value, s.tiers.clock);
        assert q in s2.replies;
        OneStep(s2, Fill(q));
        assert es[1..][1..] == [Fill(q)];
        assert Possible(s1, es[1..]) && After(s1, es[1..]) == Apply(s2, Fill(q));
        assert Served(k, q.value, Filled(q.answeredAt, s2.tiers.clock), s2.tiers.clock) in Apply(s2, Fill(q)).served;
      }
    }
  }

  lemma WriteIsItsSteps(s: State, k: Key, v: Option<Value>, ttl: Option<int>)
    ensures var es := [Begin(k, v, ttl), Land(Pending(k, v, ttl, s.tiers.clock))];
            Possible(s, es) && After(s, es).tiers == WriteOne(s.tiers, k, v, ttl)
  {
    var w := Pending(k, v, ttl, s.tiers.clock);
    var s1 := Apply(s, Begin(k, v, ttl));
    assert w in s1.writes;
    OneStep(s1, Land(w));
    assert [Begin(k, v, ttl), Land(w)][1..] == [Land(w)];
  }

  // ---------- expiry cleanup is unobservable ----------

  ghost predicate AlikeTiers(s: T.State, t: T.State) {
    && s.redis == t.redis && s.clock == t.clock && s.defaultTtl == t.defaultTtl
    && forall k :: (LiveInMemory(s, k) <==> LiveInMemory(t, k)) && (LiveInMemory(s, k) ==> s.memory[k] == t.memory[k])
  }

  // The same but for expired memory entries.
  ghost predicate Alike(s: State, t: State) {
    && AlikeTiers(s.tiers, t.tiers)
    && s.asked == t.asked && s.replies == t.replies && s.writes == t.writes && s.sources == t.sources && s.served == t.served
  }

  lemma RememberAlike(s: T.State, t: T.State, k: Key, v: Option<Value>, ttl: int)
    requires AlikeTiers(s, t)
    ensures AlikeTiers(Remember(s, k, v, ttl), Remember(t, k, v, ttl))
  {
  }

  lemma DropAlike(s: T.State, t: T.State, k: Key)
    requires AlikeTiers(s, t)
    ensures AlikeTiers(DropExpired(s, k), DropExpired(t, k))
  {
  }

  lemma ForgetAlike(s: T.State, t: T.State, gone: set<Key>)
    requires AlikeTiers(s, t)
    ensures AlikeTiers(s.(memory := s.memory - gone), t.(memory := t.memory - gone))
  {
  }

  lemma LaterAlike(s: T.State, t: T.State, later: Millis)
    requires AlikeTiers(s, t) && s.clock <= later
    ensures AlikeTiers(s.(clock := later), t.(clock := later))
  {
    forall k ensures LiveInMemory(s.(clock := later), k) ==> LiveInMemory(s, k)
      ensures LiveInMemory(t.(clock := later), k) ==> LiveInMemory(t, k)
    {
    }
  }

  lemma CleanupAlike(s: T.State, t: T.State)
    requires AlikeTiers(s, t)
    ensures AlikeTiers(Cleanup(s), t) && AlikeTiers(Cleanup(s), Cleanup(t))
  {
  }

  lemma TiersStepAlike(s: T.State, t: T.State, e: Event)
    requires AlikeTiers(s, t)
    ensures AlikeTiers(TierStep(s, e), TierStep(t, e))
  {
    match e
    case Tick(later) => if s.clock <= later { LaterAlike(s, t, later); }
    case Ask(k) => DropAlike(s, t, k);
    case Fill(q) => RememberAlike(s, t, q.key, Some(q.value), MEMORY_TTL);
    case Begin(k, v, ttl) => RememberAlike(s, t, k, v, MemoryLife(ttl));
    case Forget(gone) => ForgetAlike(s, t, gone);
    case Sweep => CleanupAlike(s, t);
    case _ =>
  }

  lemma RestStepAlike(s: State, t: State, e: Event)
    requires Alike(s, t) && Enabled(s, e)
    ensures Enabled(t, e)
    ensures var s1, t1 := Apply(s, e), Apply(t, e);
            s1.asked == t1.asked && s1.replies == t1.replies && s1.writes == t1.writes && s1.sources == t1.sources && s1.served == t1.served
  {
    match e
    case Ask(k) => assert MemoryGet(s.tiers, k) == MemoryGet(t.tiers, k);
    case Answer(k) => assert RedisGet(s.tiers, k) == RedisGet(t.tiers, k);
    case _ =>
  }

  lemma StepAlike(s: State, t: State, e: Event)
    requires Alike(s, t) && Enabled(s, e)
    ensures Enabled(t, e) && Alike(Apply(s, e), Apply(t, e))
  {
    TiersStepAlike(s.tiers, t.tiers, e);
    RestStepAlike(s, t, e);
  }

  lemma SweepAlike(s: State, t: State)
    requires Alike(s, t)
    ensures Alike(Apply(s, Sweep), t)
  {
    CleanupAlike(s.tiers, t.tiers);
  }

  ghost function WithoutSweeps(es: seq<Event>): seq<Event> {
    if es == [] then [] else (if es[0].Sweep? then [] else [es[0]]) + WithoutSweeps(es[1..])
  }

  // Sweeping expired entries, at any times and as often as one likes, changes no answer.
  lemma {:induction false} SweepsAreInvisible(s: State, t: State, es: seq<Event>)
    requires Alike(s, t) && Possible(s, es)
    ensures Possible(t, WithoutSweeps(es)) && After(s, es).served == After(t, WithoutSweeps(es)).served
    decreases |es|
  {
    if es != [] {
      var e := es[0];
      if e.Sweep? {
        SweepAlike(s, t);
        SweepsAreInvisible(Apply(s, e), t, es[1..]);
        assert WithoutSweeps(es) == WithoutSweeps(es[1..]);
      } else {
        StepAlike(s, t, e);
        SweepsAreInvisible(Apply(s, e), Apply(t, e), es[1..]);
        assert WithoutSweeps(es)[1..] == WithoutSweeps(es[1..]);
      }
    }
  }
}
