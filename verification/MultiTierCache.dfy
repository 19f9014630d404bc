/**
 MultiTierCacheService: a memory tier with its own expiry in front of Redis. Values are
 Option<Value>, None being JSON's null, which either tier may hold and which reads as a miss.
 Here nothing else runs between the two halves of an operation; MultiTierRuns lets anything.
 */
module MultiTierCache {
  import opened Common

  type Key = string

  const MEMORY_TTL: int := 60

  // JSON values: integers, which Redis can count, and everything else but null.
  datatype Value = Number(n: int) | Other(json: string)

  datatype MemoryEntry = MemoryEntry(value: Option<Value>, expiresAt: int)

  // expiresAt of None is a key stored without expiry.
  datatype RedisEntry = RedisEntry(value: Option<Value>, expiresAt: Option<int>)

  datatype State = State(memory: map<Key, MemoryEntry>, redis: map<Key, RedisEntry>, clock: Millis, defaultTtl: int)

  // ---------- single reads and writes ----------

  predicate LiveInMemory(s: State, k: Key) {
    k in s.memory && s.memory[k].expiresAt > s.clock
  }

  predicate LiveInRedis(s: State, k: Key) {
    k in s.redis && (s.redis[k].expiresAt.None? || s.clock < s.redis[k].expiresAt.value)
  }

  function RedisGet(s: State, k: Key): Option<Value> {
    if LiveInRedis(s, k) then s.redis[k].value else None
  }

  function DropExpired(s: State, k: Key): State {
    if k in s.memory && !LiveInMemory(s, k) then s.(memory := s.memory - {k}) else s
  }

  function MemoryGet(s: State, k: Key): Option<Value> {
    if LiveInMemory(s, k) then s.memory[k].value else None
  }

  function Remember(s: State, k: Key, v: Option<Value>, ttlSeconds: int): State {
    s.(memory := s.memory[k := MemoryEntry(v, s.clock + ttlSeconds * 1000)])
  }

  // Memory first, then Redis, remembering what Redis had.
  function ReadOne(s: State, k: Key): (Option<Value>, State) {
    if MemoryGet(s, k).Some? then (MemoryGet(s, k), s)
    else
      var s1, v := DropExpired(s, k), RedisGet(s, k);
      (v, if v.Some? then Remember(s1, k, v, MEMORY_TTL) else s1)
  }

  // `ttl || d`: an absent or zero time to live is replaced.
  function Or(ttl: Option<int>, d: int): int {
    if ttl.None? || ttl.value == 0 then d else ttl.value
  }

  function Min(a: int, b: int): int {
    if b < a then b else a
  }

  function RedisSet(s: State, k: Key, v: Option<Value>, ttl: Option<int>): State {
    var seconds := Or(ttl, s.defaultTtl);
    s.(redis := s.redis[k := RedisEntry(v, if seconds > 0 then Some(s.clock + seconds * 1000) else None)])
  }

  function WriteOne(s: State, k: Key, v: Option<Value>, ttl: Option<int>): State {
    RedisSet(Remember(s, k, v, Min(Or(ttl, MEMORY_TTL), MEMORY_TTL)), k, v, ttl)
  }

  function WriteEach(s: State, entries: seq<(Key, Option<Value>)>, ttl: Option<int>): State
    decreases |entries|
  {
    if entries == [] then s
    else
      var n := |entries| - 1;
      WriteOne(WriteEach(s, entries[..n], ttl), entries[n].0, entries[n].1, ttl)
  }

  // The two tiers of a batch write do not interact.
  function RememberEach(s: State, entries: seq<(Key, Option<Value>)>, ttlSeconds: int): State
    decreases |entries|
  {
    if entries == [] then s
    else var n := |entries| - 1; Remember(RememberEach(s, entries[..n], ttlSeconds), entries[n].0, entries[n].1, ttlSeconds)
  }

  function RedisSetEach(s: State, entries: seq<(Key, Option<Value>)>, ttl: Option<int>): State
    decreases |entries|
  {
    if entries == [] then s
    else var n := |entries| - 1; RedisSet(RedisSetEach(s, entries[..n], ttl), entries[n].0, entries[n].1, ttl)
  }

  const MIN_COUNT: int := -0x8000_0000_0000_0000
  const MAX_COUNT: int := 0x7fff_ffff_ffff_ffff

  // INCR: a missing counter becomes 1 and never expires, a number goes up and keeps its expiry,
  // and anything else, null and the largest number included, is an error.
  function RedisIncr(s: State, k: Key): (Option<int>, State) {
    if !LiveInRedis(s, k) then (Some(1), s.(redis := s.redis[k := RedisEntry(Some(Number(1)), None)]))
    else match s.redis[k].value
      case Some(Number(n)) =>
        if MIN_COUNT <= n < MAX_COUNT then (Some(n + 1), s.(redis := s.redis[k := s.redis[k].(value := Some(Number(n + 1)))])) else (None, s)
      case _ => (None, s)
  }

  ghost predicate OnlyMemory(s: State, s1: State) {
    s1 == s.(memory := s1.memory)
  }

  ghost predicate OnlyRedis(s: State, s1: State) {
    s1 == s.(redis := s1.redis)
  }

  lemma {:induction false} WriteEachSplits(s: State, entries: seq<(Key, Option<Value>)>, ttl: Option<int>)
    ensures var m := RememberEach(s, entries, Min(Or(ttl, MEMORY_TTL), MEMORY_TTL));
            OnlyMemory(s, m) && OnlyRedis(m, RedisSetEach(m, entries, ttl)) &&
            WriteEach(s, entries, ttl) == RedisSetEach(m, entries, ttl)
    decreases |entries|
  {
    if entries != [] {
      var n, t := |entries| - 1, Min(Or(ttl, MEMORY_TTL), MEMORY_TTL);
      WriteEachSplits(s, entries[..n], ttl);
      RedisIgnoresMemory(RememberEach(s, entries[..n], t), RememberEach(s, entries, t), entries[..n], ttl);
    }
  }

  lemma {:induction false} RedisIgnoresMemory(s: State, s1: State, entries: seq<(Key, Option<Value>)>, ttl: Option<int>)
    requires OnlyMemory(s, s1)
    ensures RedisSetEach(s1, entries, ttl) == RedisSetEach(s, entries, ttl).(memory := s1.memory)
    decreases |entries|
  {
    if entries != [] {
      RedisIgnoresMemory(s, s1, entries[..|entries|-1], ttl);
      RedisSetEachFrame(s, entries[..|entries|-1], ttl);
    }
  }

  lemma {:induction false} RedisSetEachFrame(s: State, entries: seq<(Key, Option<Value>)>, ttl: Option<int>)
    ensures OnlyRedis(s, RedisSetEach(s, entries, ttl))
    decreases |entries|
  {
    if entries != [] {
      RedisSetEachFrame(s, entries[..|entries|-1], ttl);
    }
  }

  // Both tiers hold v for k from now on, with the lives of a set made now.
  ghost predicate Stored(s: State, k: Key, v: Option<Value>, ttl: Option<int>) {
    && k in s.redis && k in s.memory
    && s.redis[k] == RedisEntry(v,
         if ttl.Some? && ttl.value > 0 then Some(s.clock + ttl.value * 1000)
         else if (ttl.None? || ttl.value == 0) && s.defaultTtl > 0 then Some(s.clock + s.defaultTtl * 1000)
         else None)
    && s.memory[k] == MemoryEntry(v, s.clock + 1000 * if ttl.None? || ttl.value == 0 || ttl.value > 60 then 60 else ttl.value)
  }

  ghost predicate LastOfItsKey(entries: seq<(Key, Option<Value>)>, i: nat)
    requires i < |entries|
  {
    forall j :: i < j < |entries| ==> entries[j].0 != entries[i].0
  }

  // A key that no entry names is in either tier as it was.
  ghost predicate Untouched(s: State, t: State, entries: seq<(Key, Option<Value>)>, k: Key) {
    (forall i :: 0 <= i < |entries| ==> entries[i].0 != k) ==>
      && s.clock == t.clock && (k in s.memory <==> k in t.memory) && (k in s.memory ==> t.memory[k] == s.memory[k])
      && (k in s.redis <==> k in t.redis) && (k in s.redis ==> t.redis[k] == s.redis[k])
  }

  lemma {:induction false} WriteEachOthers(s: State, entries: seq<(Key, Option<Value>)>, ttl: Option<int>, k: Key)
    ensures WriteEach(s, entries, ttl).clock == s.clock && WriteEach(s, entries, ttl).defaultTtl == s.defaultTtl
    ensures Untouched(s, WriteEach(s, entries, ttl), entries, k)
    decreases |entries|
  {
    if entries != [] {
      WriteEachOthers(s, entries[..|entries|-1], ttl, k);
    }
  }

  lemma {:induction false} WriteEachEntry(s: State, entries: seq<(Key, Option<Value>)>, ttl: Option<int>, i: nat)
    requires i < |entries| && LastOfItsKey(entries, i)
    ensures Stored(WriteEach(s, entries, ttl), entries[i].0, entries[i].1, ttl)
    decreases |entries|
  {
    var front := entries[..|entries|-1];
    WriteEachOthers(s, front, ttl, entries[i].0);
    if i < |entries| - 1 {
      WriteEachEntry(s, front, ttl, i);
    }
  }

  lemma BatchMeans(s: State, entries: seq<(Key, Option<Value>)>, ttl: Option<int>)
    ensures forall k :: Untouched(s, WriteEach(s, entries, ttl), entries, k)
    ensures forall i :: 0 <= i < |entries| && LastOfItsKey(entries, i) ==> Stored(WriteEach(s, entries, ttl), entries[i].0, entries[i].1, ttl)
  {
    forall k ensures Untouched(s, WriteEach(s, entries, ttl), entries, k) {
      WriteEachOthers(s, entries, ttl, k);
    }
    forall i | 0 <= i < |entries| && LastOfItsKey(entries, i) ensures Stored(WriteEach(s, entries, ttl), entries[i].0, entries[i].1, ttl) {
      WriteEachEntry(s, entries, ttl, i);
    }
  }

  function Cleanup(s: State): State {
    s.(memory := map k | k in s.memory && LiveInMemory(s, k) :: s.memory[k])
  }

  // ---------- batch reads ----------

  // Successive single reads at one instant.
  function ReadEach(s: State, keys: seq<Key>): (r: (seq<Option<Value>>, State))
    ensures |r.0| == |keys|
    decreases |keys|
  {
    if keys == [] then ([], s)
    else
      var n := |keys| - 1;
      var (front, s1) := ReadEach(s, keys[..n]);
      var (v, s2) := ReadOne(s1, keys[n]);
      (front + [v], s2)
  }

  // What a read of k finds, and the memory entry it leaves behind.
  function Look(s: State, k: Key): Option<Value> {
    if MemoryGet(s, k).Some? then MemoryGet(s, k) else RedisGet(s, k)
  }

  function EntryAfter(s: State, k: Key): Option<MemoryEntry> {
    if MemoryGet(s, k).None? && RedisGet(s, k).Some? then Some(MemoryEntry(RedisGet(s, k), s.clock + MEMORY_TTL * 1000))
    else if LiveInMemory(s, k) then Some(s.memory[k])
    else None
  }

  // The memory tier after reads of every key of ks.
  ghost function MemoryAfter(s: State, ks: set<Key>): map<Key, MemoryEntry> {
    map k | k in s.memory.Keys + ks && (k in ks ==> EntryAfter(s, k).Some?) ::
      if k in ks then EntryAfter(s, k).value else s.memory[k]
  }

  lemma ReadOneForm(s: State, k: Key)
    ensures ReadOne(s, k) == (Look(s, k), s.(memory := MemoryAfter(s, {k})))
  {
    assert ReadOne(s, k).1.memory == MemoryAfter(s, {k});
  }

  // A key read before reads the same again, and leaves the same entry.
  lemma ReadAgain(s: State, ks: set<Key>, k: Key)
    ensures var s1 := s.(memory := MemoryAfter(s, ks));
            ReadOne(s1, k) == (Look(s, k), s.(memory := MemoryAfter(s, ks + {k})))
  {
    var s1 := s.(memory := MemoryAfter(s, ks));
    assert Look(s1, k) == Look(s, k) && EntryAfter(s1, k) == EntryAfter(s, k);
    ReadOneForm(s1, k);
    assert MemoryAfter(s1, {k}) == MemoryAfter(s, ks + {k});
  }

  lemma {:induction false} ReadEachClosedForm(s: State, keys: seq<Key>)
    ensures ReadEach(s, keys).1 == s.(memory := MemoryAfter(s, Elems(keys)))
    ensures forall i :: 0 <= i < |keys| ==> ReadEach(s, keys).0[i] == Look(s, keys[i])
    decreases |keys|
  {
    if keys == [] {
      assert MemoryAfter(s, Elems(keys)) == s.memory;
    } else {
      var n := |keys| - 1;
      ReadEachClosedForm(s, keys[..n]);
      ReadAgain(s, Elems(keys[..n]), keys[n]);
      assert keys == keys[..n] + [keys[n]];
      assert Elems(keys) == Elems(keys[..n]) + {keys[n]};
    }
  }

  // The memory tier part-way through a batch read of `all`: expired entries of `all` are
  // gone, and the Redis values of `done` are remembered.
  ghost function MemoryDuring(s: State, all: set<Key>, done: set<Key>): map<Key, MemoryEntry> {
    map k | k in s.memory.Keys + done && (k in done ==> EntryAfter(s, k).Some?) && (k !in done && k in all ==> LiveInMemory(s, k)) ::
      if k in done then EntryAfter(s, k).value else s.memory[k]
  }

  lemma DuringStep(s: State, all: set<Key>, done: set<Key>, key: Key)
    requires key in all && MemoryGet(s, key).None?
    ensures var s1 := s.(memory := MemoryDuring(s, all, done));
            (if RedisGet(s, key).Some? then Remember(s1, key, RedisGet(s, key), MEMORY_TTL) else s1)
            == s.(memory := MemoryDuring(s, all, done + {key}))
  {
  }

  lemma DuringDone(s: State, all: set<Key>, done: set<Key>)
    requires done <= all && forall k :: k in all && MemoryGet(s, k).None? ==> k in done
    ensures MemoryDuring(s, all, done) == MemoryAfter(s, all)
  {
  }

  // The keys that memory has nothing for, with their positions.
  ghost predicate Misses(s: State, keys: seq<Key>, missingKeys: seq<Key>, missingIndices: seq<nat>) {
    && |missingKeys| == |missingIndices|
    && forall j :: 0 <= j < |missingKeys| ==>
         missingIndices[j] < |keys| && keys[missingIndices[j]] == missingKeys[j] && MemoryGet(s, missingKeys[j]).None?
  }

  // The answers part-way through the second pass: Redis's where `filled` says so.
  ghost predicate Merged(s: State, keys: seq<Key>, results: seq<Option<Value>>, filled: seq<nat>) {
    && |results| == |keys|
    && forall i :: 0 <= i < |keys| ==> results[i] == if i in filled then RedisGet(s, keys[i]) else MemoryGet(s, keys[i])
  }

  lemma MergedStep(s: State, keys: seq<Key>, results: seq<Option<Value>>, filled: seq<nat>, i: nat, v: Option<Value>)
    requires Merged(s, keys, results, filled) && i < |keys| && v == RedisGet(s, keys[i])
    ensures Merged(s, keys, results[i := v], filled + [i])
  {
  }

  // ---------- how long a set lasts ----------

  // Gets of k, each at the next of these instants.
  function ReadsAt(s: State, k: Key, times: seq<Millis>): State
    decreases |times|
  {
    if times == [] then s else ReadsAt(ReadOne(s.(clock := times[0]), k).1, k, times[1..])
  }

  ghost predicate EndsBy(s: State, k: Key, end: int) {
    && k in s.redis && s.redis[k].expiresAt == Some(end)
    && (k in s.memory ==> s.memory[k].expiresAt <= end + 60_000)
  }

  lemma {:induction false} ReadsEndBy(s: State, k: Key, times: seq<Millis>, end: int)
    requires EndsBy(s, k, end)
    ensures EndsBy(ReadsAt(s, k, times), k, end)
    decreases |times|
  {
    if times != [] {
      ReadsEndBy(ReadOne(s.(clock := times[0]), k).1, k, times[1..], end);
    }
  }

  // With no read of the key in between, what a set wrote is read until both lives are over.
  // Reads can keep a value in memory past its life in Redis, but not by more than 60 s.
  lemma SetLifetime(s: State, k: Key, v: Option<Value>, ttl: Option<int>, times: seq<Millis>, later: Millis)
    requires s.clock <= later
    ensures var memoryEnd := s.clock + 1000 * if ttl.None? || ttl.value == 0 || ttl.value > 60 then 60 else ttl.value;
            var seconds := if ttl.None? || ttl.value == 0 then s.defaultTtl else ttl.value;
            Look(WriteOne(s, k, v, ttl).(clock := later), k) ==
              if later < memoryEnd || seconds <= 0 || later < s.clock + seconds * 1000 then v else None
    ensures ttl.Some? && ttl.value > 0 && s.clock + ttl.value * 1000 + 60_000 <= later ==>
              Look(ReadsAt(WriteOne(s, k, v, ttl), k, times).(clock := later), k) == None
  {
    if ttl.Some? && ttl.value > 0 {
      ReadsEndBy(WriteOne(s, k, v, ttl), k, times, s.clock + ttl.value * 1000);
    }
  }

  // ---------- the service ----------

  class MultiTierCacheService {
    var memory: map<Key, MemoryEntry>
    var redis: map<Key, RedisEntry>
    var clock: Millis
    const defaultTtl: int

    ghost function Now(): State
      reads this
    {
      State(memory, redis, clock, defaultTtl)
    }

    constructor (redis: map<Key, RedisEntry>, clock: Millis, defaultTtl: int)
      ensures Now() == State(map[], redis, clock, defaultTtl)
    {
      memory, this.redis, this.clock, this.defaultTtl := map[], redis, clock, defaultTtl;
    }

    method GetFromMemory(key: Key) returns (v: Option<Value>)
      modifies this`memory
      ensures v == MemoryGet(old(Now()), key)
      ensures Now() == DropExpired(old(Now()), key)
      ensures v.Some? ==> key in old(memory) && old(memory)[key].value == v && clock < old(memory)[key].expiresAt
      ensures key in old(memory) && clock < old(memory)[key].expiresAt ==> v == old(memory)[key].value
      ensures key in old(memory) && old(memory)[key].expiresAt <= clock ==> memory == old(memory) - {key}
    {
      if key !in memory {
        return None;
      }
      var entry := memory[key];
      if entry.expiresAt <= clock {
        memory := memory - {key};
        return None;
      }
      v := entry.value;
    }

    method SetInMemory(key: Key, v: Option<Value>, ttlSeconds: int)
      modifies this`memory
      ensures Now() == Remember(old(Now()), key, v, ttlSeconds)
    {
      memory := memory[key := MemoryEntry(v, clock + ttlSeconds * 1000)];
    }

    method RedisRead(key: Key) returns (v: Option<Value>)
      ensures v == RedisGet(Now(), key)
      ensures key in redis && (redis[key].expiresAt.None? || clock < redis[key].expiresAt.value) ==> v == redis[key].value
      ensures key !in redis || (redis[key].expiresAt.Some? && redis[key].expiresAt.value <= clock) ==> v.None?
    {
      v := if key in redis && (redis[key].expiresAt.None? || clock < redis[key].expiresAt.value) then redis[key].value else None;
    }

    // The part of get after Redis has answered.
    method AfterRedis(key: Key, answer: Option<Value>)
      modifies this`memory
      ensures Now() == if answer.Some? then Remember(old(Now()), key, answer, MEMORY_TTL) else old(Now())
    {
      if answer.Some? {
        SetInMemory(key, answer, MEMORY_TTL);
      }
    }

    // With nothing else between its steps, a get leaves every other key as it was, and the key
    // answering as it just did.
    method Get(key: Key) returns (v: Option<Value>)
      modifies this`memory
      ensures (v, Now()) == ReadOne(old(Now()), key)
      ensures v == Look(old(Now()), key) && Look(Now(), key) == v && (v.Some? ==> MemoryGet(Now(), key) == v)
      ensures forall k :: k != key ==> Look(Now(), k) == Look(old(Now()), k)
      ensures key in old(memory) && clock < old(memory)[key].expiresAt && old(memory)[key].value.Some? ==> v == old(memory)[key].value
      ensures !(key in old(memory) && clock < old(memory)[key].expiresAt && old(memory)[key].value.Some?) ==>
                v == if key in redis && (redis[key].expiresAt.None? || clock < redis[key].expiresAt.value) then redis[key].value else None
      ensures v.Some? && MemoryGet(old(Now()), key).None? ==> memory == old(memory)[key := MemoryEntry(v, clock + 60_000)]
      ensures v == MemoryGet(old(Now()), key) && v.Some? ==> memory == old(memory)
    {
      v := GetFromMemory(key);
      if v.Some? {
        return;
      }
      v := RedisRead(key);
      AfterRedis(key, v);
    }

    // The value is read back whatever the two lives are, and no other key reads differently.
    // Redis keeps it for the life given, or for the default one, or for good if that is not
    // positive either. Memory forgets it within 60 s, and not after Redis does unless the default
    // life, taken when none is given, is the shorter one.
    method Set(key: Key, v: Option<Value>, ttl: Option<int>)
      modifies this`memory, this`redis
      ensures Now() == WriteOne(old(Now()), key, v, ttl)
      ensures Look(Now(), key) == v && RedisGet(Now(), key) == v
      ensures forall k :: k != key ==> Look(Now(), k) == Look(old(Now()), k)
      ensures key in redis && key in memory && redis[key].value == v && memory[key].value == v
      ensures ttl.Some? && ttl.value > 0 ==> redis[key].expiresAt == Some(clock + ttl.value * 1000)
      ensures ttl.None? || ttl.value == 0 ==> redis[key].expiresAt == if defaultTtl > 0 then Some(clock + defaultTtl * 1000) else None
      ensures ttl.Some? && ttl.value < 0 ==> redis[key].expiresAt == None
      ensures memory[key].expiresAt == clock + 1000 * if ttl.None? || ttl.value == 0 || ttl.value > 60 then 60 else ttl.value
      ensures key in redis && redis[key].expiresAt.Some? ==>
                (memory[key].expiresAt <= redis[key].expiresAt.value <==> (ttl.Some? && ttl.value != 0) || defaultTtl >= MEMORY_TTL)
    {
      SetInMemory(key, v, Min(Or(ttl, MEMORY_TTL), MEMORY_TTL));
      var seconds := Or(ttl, defaultTtl);
      redis := redis[key := RedisEntry(v, if seconds > 0 then Some(clock + seconds * 1000) else None)];
    }

    // The first pass of mget: what memory has, and where it has nothing.
    method MemoryPass(keys: seq<Key>) returns (results: seq<Option<Value>>, missingKeys: seq<Key>, missingIndices: seq<nat>)
      modifies this`memory
      ensures Now() == old(Now()).(memory := MemoryDuring(old(Now()), Elems(keys), {}))
      ensures |results| == |keys| && forall i :: 0 <= i < |keys| ==> results[i] == MemoryGet(old(Now()), keys[i])
      ensures Misses(old(Now()), keys, missingKeys, missingIndices)
      ensures forall i :: 0 <= i < |keys| && MemoryGet(old(Now()), keys[i]).None? ==> i in missingIndices
    {
      results, missingKeys, missingIndices := [], [], [];
      ghost var s := Now();
      assert MemoryDuring(s, Elems(keys[..0]), {}) == s.memory;
      for i := 0 to |keys|
        invariant Now() == s.(memory := MemoryDuring(s, Elems(keys[..i]), {}))
        invariant |results| == i && forall h :: 0 <= h < i ==> results[h] == MemoryGet(s, keys[h])
        invariant |missingKeys| == |missingIndices|
        invariant forall j :: 0 <= j < |missingKeys| ==>
                missingIndices[j] < i && keys[missingIndices[j]] == missingKeys[j] && MemoryGet(s, missingKeys[j]).None?
        invariant forall h :: 0 <= h < i && MemoryGet(s, keys[h]).None? ==> h in missingIndices
      {
        var key := keys[i];
        ElemsStep(keys, i);
        assert MemoryGet(Now(), key) == MemoryGet(s, key);
        var v := GetFromMemory(key);
        assert memory == MemoryDuring(s, Elems(keys[..i+1]), {});
        results := results + [v];
        if v.None? {
          missingKeys, missingIndices := missingKeys + [key], missingIndices + [i];
        }
      }
      assert keys[..|keys|] == keys;
    }

    method RedisReadAll(keys: seq<Key>) returns (values: seq<Option<Value>>)
      ensures |values| == |keys| && forall i :: 0 <= i < |keys| ==> values[i] == RedisGet(Now(), keys[i])
    {
      values := [];
      for i := 0 to |keys|
        invariant |values| == i && forall h :: 0 <= h < i ==> values[h] == RedisGet(Now(), keys[h])
      {
        var v := RedisRead(keys[i]);
        values := values + [v];
      }
    }

    // One key of the second pass.
    method FillOne(ghost s: State, ghost all: set<Key>, ghost done: set<Key>, key: Key, answer: Option<Value>)
      requires Now() == s.(memory := MemoryDuring(s, all, done))
      requires key in all && MemoryGet(s, key).None? && answer == RedisGet(s, key)
      modifies this`memory
      ensures Now() == s.(memory := MemoryDuring(s, all, done + {key}))
    {
      DuringStep(s, all, done, key);
      AfterRedis(key, answer);
    }

    // The second pass of mget: Redis's answers go where memory had nothing.
    method RedisPass(ghost s: State, keys: seq<Key>, first: seq<Option<Value>>, missingKeys: seq<Key>, missingIndices: seq<nat>)
      returns (results: seq<Option<Value>>)
      requires Now() == s.(memory := MemoryDuring(s, Elems(keys), {}))
      requires |first| == |keys| && forall i :: 0 <= i < |keys| ==> first[i] == MemoryGet(s, keys[i])
      requires Misses(s, keys, missingKeys, missingIndices)
      modifies this`memory
      ensures Now() == s.(memory := MemoryDuring(s, Elems(keys), Elems(missingKeys)))
      ensures Merged(s, keys, results, missingIndices)
    {
      var values := RedisReadAll(missingKeys);
      results := first;
      for j := 0 to |values|
        invariant Now() == s.(memory := MemoryDuring(s, Elems(keys), Elems(missingKeys[..j])))
        invariant Merged(s, keys, results, missingIndices[..j])
      {
        var key, i := missingKeys[j], missingIndices[j];
        MergedStep(s, keys, results, missingIndices[..j], i, values[j]);
        ElemsStep(missingIndices, j);
        ElemsStep(missingKeys, j);
        results := results[i := values[j]];
        FillOne(s, Elems(keys), Elems(missingKeys[..j]), key, values[j]);
      }
      assert missingIndices[..|values|] == missingIndices && missingKeys[..|values|] == missingKeys;
    }

    // One batch read gives the answers, and leaves the memory tier, of as many single reads.
    method MGet(keys: seq<Key>) returns (results: seq<Option<Value>>)
      modifies this`memory
      ensures (results, Now()) == ReadEach(old(Now()), keys)
      ensures |results| == |keys| && forall i :: 0 <= i < |keys| ==> results[i] == Look(old(Now()), keys[i])
    {
      ghost var s := Now();
      var missingKeys, missingIndices;
      results, missingKeys, missingIndices := MemoryPass(keys);
      results := RedisPass(s, keys, results, missingKeys, missingIndices);
      ReadEachClosedForm(s, keys);
      assert results == ReadEach(s, keys).0;
      DuringDone(s, Elems(keys), Elems(missingKeys));
    }

    // Memory for every entry, then Redis for every entry: the effect of as many single sets. The
    // last entry that names a key decides, with the lives of a single set; other keys read as before.
    method MSet(entries: seq<(Key, Option<Value>)>, ttl: Option<int>)
      modifies this`memory, this`redis
      ensures Now() == WriteEach(old(Now()), entries, ttl)
      ensures forall k :: Untouched(old(Now()), Now(), entries, k)
      ensures forall i :: 0 <= i < |entries| && LastOfItsKey(entries, i) ==> Stored(Now(), entries[i].0, entries[i].1, ttl)
    {
      ghost var s := Now();
      var memoryTtl := Min(Or(ttl, MEMORY_TTL), MEMORY_TTL);
      for i := 0 to |entries|
        invariant Now() == RememberEach(s, entries[..i], memoryTtl)
      {
        assert entries[..i+1][..i] == entries[..i];
        SetInMemory(entries[i].0, entries[i].1, memoryTtl);
      }
      assert entries[..|entries|] == entries;
      ghost var m := Now();
      for i := 0 to |entries|
        invariant Now() == RedisSetEach(m, entries[..i], ttl)
      {
        assert entries[..i+1][..i] == entries[..i];
        var seconds := Or(ttl, defaultTtl);
        redis := redis[entries[i].0 := RedisEntry(entries[i].1, if seconds > 0 then Some(clock + seconds * 1000) else None)];
      }
      assert entries[..|entries|] == entries;
      WriteEachSplits(s, entries, ttl);
      BatchMeans(s, entries, ttl);
    }

    // Neither tier answers for the key any more; no other key reads differently.
    method Del(key: Key)
      modifies this`memory, this`redis
      ensures Look(Now(), key).None? && !LiveInMemory(Now(), key) && !LiveInRedis(Now(), key)
      ensures forall k :: k != key ==> Look(Now(), k) == Look(old(Now()), k)
      ensures Now() == old(Now()).(memory := old(memory) - {key}, redis := old(redis) - {key})
    {
      memory := memory - {key};
      redis := redis - {key};
    }

    method RedisIncrement(key: Key) returns (r: Option<int>)
      modifies this`redis
      ensures (r, Now()) == RedisIncr(old(Now()), key)
    {
      if key !in redis || (redis[key].expiresAt.Some? && redis[key].expiresAt.value <= clock) {
        redis := redis[key := RedisEntry(Some(Number(1)), None)];
        return Some(1);
      }
      var entry := redis[key];
      if entry.value.Some? && entry.value.value.Number? && MIN_COUNT <= entry.value.value.n < MAX_COUNT {
        r := Some(entry.value.value.n + 1);
        redis := redis[key := entry.(value := Some(Number(r.value)))];
      } else {
        r := None;
      }
    }

    // The count goes up by one from what Redis had, whatever memory remembered, and is what the
    // next read sees; None is Redis's error, with the memory entry gone all the same.
    method Incr(key: Key) returns (r: Option<int>)
      modifies this`memory, this`redis
      ensures Now() == RedisIncr(old(Now()), key).1.(memory := old(memory) - {key})
      ensures r.Some? ==> Look(Now(), key) == Some(Number(r.value))
      ensures r.Some? && RedisGet(old(Now()), key).Some? ==> RedisGet(old(Now()), key) == Some(Number(r.value - 1))
      ensures !LiveInRedis(old(Now()), key) ==> r == Some(1)
      ensures LiveInRedis(old(Now()), key) ==>
                (r.Some? <==> old(redis)[key].value.Some? && old(redis)[key].value.value.Number?
                              && -0x8000_0000_0000_0000 <= old(redis)[key].value.value.n < 0x7fff_ffff_ffff_ffff)
      ensures r.Some? ==> key in redis && redis[key].expiresAt == if LiveInRedis(old(Now()), key) then old(redis)[key].expiresAt else None
      ensures key !in memory
      ensures r.None? ==> redis == old(redis) && Look(Now(), key) == RedisGet(old(Now()), key)
      ensures forall k :: k != key ==> Look(Now(), k) == Look(old(Now()), k)
    {
      memory := memory - {key};
      r := RedisIncrement(key);
    }

    method CleanupExpired()
      modifies this`memory
      ensures Now() == Cleanup(old(Now()))
      ensures forall k :: k in memory <==> k in old(memory) && clock < old(memory)[k].expiresAt
      ensures forall k :: k in memory ==> memory[k] == old(memory)[k]
    {
      ghost var s := Now();
      var rest := memory.Keys;
      while rest != {}
        invariant rest <= s.memory.Keys
        invariant memory.Keys <= s.memory.Keys
        invariant forall k :: k in s.memory ==> (k in memory <==> k in rest || LiveInMemory(s, k))
        invariant forall k :: k in memory ==> memory[k] == s.memory[k]
        decreases rest
      {
        var k :| k in rest;
        rest := rest - {k};
        if memory[k].expiresAt <= clock {
          memory := memory - {k};
        }
      }
    }
  }
}
