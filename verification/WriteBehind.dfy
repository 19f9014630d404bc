/**
 WriteBehindStrategy.set and its coalescing timers. A persister runs to its end, or fails,
 when its timer fires; no persister is still at work when its key is set again.
 */
module WriteBehind {
  import opened Common

  type Key = string

  datatype Event<V> = Set(key: Key, value: V, persist: bool) | Fired(timer: Key, succeeds: bool)

  // The value a pending timer will write.
  datatype State<V> = State(cache: map<Key, V>, writeQueue: map<Key, V>, database: map<Key, V>)

  ghost predicate Enabled<V>(s: State<V>, e: Event<V>) {
    e.Fired? ==> e.timer in s.writeQueue
  }

  // A failed persister is logged and forgotten.
  function Apply<V>(s: State<V>, e: Event<V>): State<V> {
    match e
    case Set(k, v, persist) => s.(cache := s.cache[k := v], writeQueue := if persist then s.writeQueue[k := v] else s.writeQueue)
    case Fired(k, succeeds) =>
      if k !in s.writeQueue then s
      else s.(writeQueue := s.writeQueue - {k}, database := if succeeds then s.database[k := s.writeQueue[k]] else s.database)
  }

  // ---------- runs ----------

  function After<V>(es: seq<Event<V>>): State<V>
    decreases |es|
  {
    if es == [] then State(map[], map[], map[]) else Apply(After(es[..|es|-1]), es[|es|-1])
  }

  ghost predicate Run<V>(es: seq<Event<V>>)
    decreases |es|
  {
    es == [] || (Run(es[..|es|-1]) && Enabled(After(es[..|es|-1]), es[|es|-1]))
  }

  // The value last set for persistence.
  function LastSet<V>(es: seq<Event<V>>, k: Key): Option<V>
    decreases |es|
  {
    if es == [] then None
    else
      var e := es[|es|-1];
      if e.Set? && e.persist && e.key == k then Some(e.value) else LastSet(es[..|es|-1], k)
  }

  // Whether the timer of that last set has fired and its persister failed.
  function LastLost<V>(es: seq<Event<V>>, k: Key): bool
    decreases |es|
  {
    if es == [] then false
    else
      var e := es[|es|-1];
      if e.Set? && e.persist && e.key == k then false
      else if e.Fired? && e.timer == k then !e.succeeds
      else LastLost(es[..|es|-1], k)
  }

  // However sets and timers interleave: a pending timer holds the value last set, and once
  // it has fired the database holds that value unless its persister failed.
  lemma {:induction false} PendingOrStored<V>(es: seq<Event<V>>, k: Key)
    requires Run(es)
    ensures var s := After(es);
            (k in s.writeQueue ==> LastSet(es, k) == Some(s.writeQueue[k]) && !LastLost(es, k)) &&
            (k !in s.writeQueue && LastSet(es, k).Some? && !LastLost(es, k) ==> k in s.database && s.database[k] == LastSet(es, k).value) &&
            (LastSet(es, k).None? ==> k !in s.writeQueue && k !in s.database)
    decreases |es|
  {
    if es != [] {
      PendingOrStored(es[..|es|-1], k);
    }
  }

  // At quiescence the database holds the last set value of every key whose last persister
  // did not fail.
  lemma QuiescentDatabase<V>(es: seq<Event<V>>, k: Key)
    requires Run(es) && After(es).writeQueue == map[] && LastSet(es, k).Some? && !LastLost(es, k)
    ensures k in After(es).database && After(es).database[k] == LastSet(es, k).value
  {
    PendingOrStored(es, k);
  }

  lemma Extends<V>(es: seq<Event<V>>, e: Event<V>)
    requires Run(es) && Enabled(After(es), e)
    ensures Run(es + [e]) && After(es + [e]) == Apply(After(es), e)
  {
    assert (es + [e])[..|es|] == es;
  }

  // ---------- the strategy ----------

  class WriteBehindStrategy<V> {
    var cache: map<Key, V>
    var writeQueue: map<Key, V>
    var database: map<Key, V>
    ghost var history: seq<Event<V>>

    ghost function Now(): State<V>
      reads this
    {
      State(cache, writeQueue, database)
    }

    // The sets and timers so far explain the three stores.
    ghost predicate Valid()
      reads this
    {
      Run(history) && After(history) == Now()
    }

    constructor ()
      ensures Valid() && history == []
    {
      cache, writeQueue, database, history := map[], map[], map[], [];
    }

    // The existing timer of the key, if any, is cancelled and a new one takes its place: however
    // often a key is set, one write is pending, of the value set last; nothing else moves.
    method Set(key: Key, value: V, persister: bool)
      requires Valid()
      modifies this
      ensures Valid() && history == old(history) + [Event.Set(key, value, persister)]
      ensures cache == old(cache)[key := value] && database == old(database)
      ensures writeQueue == if persister then old(writeQueue)[key := value] else old(writeQueue)
      ensures persister ==> LastSet(history, key) == Some(value)
    {
      Extends(history, Event.Set(key, value, persister));
      history := history + [Event.Set(key, value, persister)];
      cache := cache[key := value];
      if persister {
        if key in writeQueue {
          writeQueue := writeQueue - {key};
        }
        writeQueue := writeQueue[key := value];
      }
    }

    // A timer that fires stores the value last set for its key, not an earlier one, unless its
    // persister fails; then the write is lost and the database keeps what it had.
    method TimerFired(key: Key, succeeds: bool)
      requires Valid() && key in writeQueue
      modifies this
      ensures Valid() && history == old(history) + [Fired(key, succeeds)]
      ensures writeQueue == old(writeQueue) - {key} && cache == old(cache)
      ensures succeeds ==> key in database && LastSet(history, key) == Some(database[key])
      ensures forall k :: k != key || !succeeds ==> (k in database <==> k in old(database)) && (k in database ==> database[k] == old(database)[k])
      ensures !succeeds <==> LastLost(history, key)
    {
      PendingOrStored(history, key);
      Extends(history, Fired(key, succeeds));
      history := history + [Fired(key, succeeds)];
      if succeeds {
        database := database[key := writeQueue[key]];
      }
      writeQueue := writeQueue - {key};
    }
  }
}
