/**
 The strings that PermissionCacheService and TokenService hash into a permission
 fingerprint. SHA-256 is a function, so what matters is which records share a string.
 A record is the list of its entries in insertion order, one per module.
 */
module Fingerprint {
  import opened Common
  import opened Ordering

  datatype Entry = Entry(name: string, actions: seq<string>)

  type Record = seq<Entry>

  function Names(r: Record): seq<string> {
    if r == [] then [] else [r[0].name] + Names(r[1..])
  }

  // permissions[name] || []
  function ActionsFor(r: Record, name: string): seq<string> {
    if r == [] then [] else if r[0].name == name then r[0].actions else ActionsFor(r[1..], name)
  }

  ghost predicate Distinct<T>(s: seq<T>) {
    forall i, j :: 0 <= i < j < |s| ==> s[i] != s[j]
  }

  // What a record means: which modules, and how often each action.
  ghost function Meaning(r: Record): map<string, multiset<string>> {
    map n | n in Names(r) :: multiset(ActionsFor(r, n))
  }

  // The entries for the given names, actions sorted.
  function Listing(r: Record, names: seq<string>): seq<Entry> {
    if names == [] then []
    else [Entry(names[0], SortedFor(r, names[0]))] + Listing(r, names[1..])
  }

  lemma ConsEqual<T>(a: T, x: seq<T>, b: T, y: seq<T>)
    ensures [a] + x == [b] + y <==> a == b && x == y
  {
    if [a] + x == [b] + y {
      assert ([a] + x)[0] == ([b] + y)[0];
      assert x == ([a] + x)[1..] && y == ([b] + y)[1..];
    }
  }

  function SortedFor(r: Record, n: string): seq<string> {
    SortStrings(ActionsFor(r, n))
  }

  ghost predicate SameActions(p: Record, q: Record, ns: seq<string>) {
    forall n :: n in ns ==> SortedFor(p, n) == SortedFor(q, n)
  }

  lemma SameActionsCons(p: Record, q: Record, n: string, ns: seq<string>)
    ensures SameActions(p, q, [n] + ns) <==> SortedFor(p, n) == SortedFor(q, n) && SameActions(p, q, ns)
  {
    assert n in [n] + ns && forall m :: m in ns ==> m in [n] + ns;
  }

  lemma ListingCons(r: Record, n: string, ns: seq<string>)
    ensures Listing(r, [n] + ns) == [Entry(n, SortedFor(r, n))] + Listing(r, ns)
  {
    assert ([n] + ns)[1..] == ns;
  }

  lemma ListingIffCons(p: Record, q: Record, n: string, ns: seq<string>, m: string, ms: seq<string>)
    requires Listing(p, ns) == Listing(q, ms) <==> ns == ms && SameActions(p, q, ns)
    ensures Listing(p, [n] + ns) == Listing(q, [m] + ms) <==> [n] + ns == [m] + ms && SameActions(p, q, [n] + ns)
  {
    var d, e := Entry(n, SortedFor(p, n)), Entry(m, SortedFor(q, m));
    ListingCons(p, n, ns);
    ListingCons(q, m, ms);
    SameActionsCons(p, q, n, ns);
    assert Listing(p, [n] + ns) == Listing(q, [m] + ms) <==> d == e && Listing(p, ns) == Listing(q, ms) by {
      ConsEqual(d, Listing(p, ns), e, Listing(q, ms));
    }
    assert [n] + ns == [m] + ms <==> n == m && ns == ms by {
      ConsEqual(n, ns, m, ms);
    }
  }

  lemma {:induction false} ListingIff(p: Record, q: Record, ns: seq<string>, ms: seq<string>)
    ensures Listing(p, ns) == Listing(q, ms) <==> ns == ms && SameActions(p, q, ns)
  {
    if ns != [] && ms != [] {
      ListingIff(p, q, ns[1..], ms[1..]);
      ListingIffCons(p, q, ns[0], ns[1..], ms[0], ms[1..]);
      assert ns == [ns[0]] + ns[1..] && ms == [ms[0]] + ms[1..];
    }
  }

  lemma {:induction false} DistinctCounts(s: seq<string>, x: string)
    requires Distinct(s)
    ensures multiset(s)[x] == if x in s then 1 else 0
  {
    if s != [] {
      assert s == [s[0]] + s[1..];
      DistinctCounts(s[1..], x);
      assert multiset(s) == multiset{s[0]} + multiset(s[1..]);
      if x == s[0] {
        assert x !in s[1..];
      }
    }
  }

  lemma SameMembers(a: seq<string>, b: seq<string>)
    requires Distinct(a) && Distinct(b)
    ensures multiset(a) == multiset(b) <==> forall x :: x in a <==> x in b
  {
    forall x ensures multiset(a)[x] == (if x in a then 1 else 0) && multiset(b)[x] == (if x in b then 1 else 0) {
      DistinctCounts(a, x);
      DistinctCounts(b, x);
    }
    if multiset(a) == multiset(b) {
      forall x ensures x in a <==> x in b {
        assert multiset(a)[x] == multiset(b)[x];
      }
    }
  }

  ghost predicate SameNames(p: Record, q: Record) {
    forall n :: n in Names(p) <==> n in Names(q)
  }

  lemma MeaningIff(p: Record, q: Record)
    ensures Meaning(p) == Meaning(q) <==> SameNames(p, q) && SameActions(p, q, Names(p))
  {
    forall n ensures SortedFor(p, n) == SortedFor(q, n) <==> multiset(ActionsFor(p, n)) == multiset(ActionsFor(q, n)) {
      SortCanonical(ActionsFor(p, n), ActionsFor(q, n));
    }
    if Meaning(p) == Meaning(q) {
      forall n ensures n in Names(p) <==> n in Names(q) {
        assert n in Meaning(p) <==> n in Meaning(q);
      }
      forall n | n in Names(p) ensures SortedFor(p, n) == SortedFor(q, n) {
        assert Meaning(p)[n] == Meaning(q)[n];
      }
    }
  }

  lemma SameElements(a: seq<string>, b: seq<string>)
    requires multiset(a) == multiset(b)
    ensures forall x :: x in a <==> x in b
  {
    forall x ensures x in a <==> x in b {
      assert x in a <==> x in multiset(a);
    }
  }

  // Listings in any order that depends on the sorted names alone are canonical.
  lemma ListingCanonical(p: Record, q: Record, ns: seq<string>, ms: seq<string>)
    requires Distinct(Names(p)) && Distinct(Names(q))
    requires multiset(ns) == multiset(Names(p)) && multiset(ms) == multiset(Names(q))
    requires SortStrings(Names(p)) == SortStrings(Names(q)) ==> ns == ms
    ensures Listing(p, ns) == Listing(q, ms) <==> Meaning(p) == Meaning(q)
  {
    ListingIff(p, q, ns, ms);
    MeaningIff(p, q);
    assert ns == ms <==> SameNames(p, q) by {
      SortCanonical(Names(p), Names(q));
      SameMembers(Names(p), Names(q));
    }
    assert SameActions(p, q, ns) <==> SameActions(p, q, Names(p)) by {
      SameElements(ns, Names(p));
    }
  }

  // ---------- PermissionCacheService: module:action,action|module:... ----------

  function Join(parts: seq<string>, sep: char): string {
    if parts == [] then ""
    else if |parts| == 1 then parts[0]
    else parts[0] + [sep] + Join(parts[1..], sep)
  }

  function Segment(e: Entry): string {
    e.name + [':'] + Join(e.actions, ',')
  }

  function Segments(es: seq<Entry>): seq<string> {
    if es == [] then [] else [Segment(es[0])] + Segments(es[1..])
  }

  function PreHash(r: Record): string {
    Join(Segments(Listing(r, SortStrings(Names(r)))), '|')
  }

  function IndexOf(s: string, c: char): nat {
    if s == [] || s[0] == c then 0 else 1 + IndexOf(s[1..], c)
  }

  lemma {:induction false} CutIndex(x: string, u: string, sep: char)
    requires sep !in x
    ensures IndexOf(x + [sep] + u, sep) == |x|
  {
    if x != [] {
      CutIndex(x[1..], u, sep);
      assert (x + [sep] + u)[1..] == x[1..] + [sep] + u;
    }
  }

  // Two strings cut at their first separator.
  lemma CutUnique(x: string, u: string, y: string, v: string, sep: char)
    requires sep !in x && sep !in y
    requires x + [sep] + u == y + [sep] + v
    ensures x == y && u == v
  {
    CutIndex(x, u, sep);
    CutIndex(y, v, sep);
    var s := x + [sep] + u;
    assert x == s[..|x|] && y == s[..|y|];
    assert u == s[|x|+1..] && v == s[|y|+1..];
  }

  ghost predicate Parts(ps: seq<string>, sep: char) {
    forall p :: p in ps ==> p != "" && sep !in p
  }

  lemma PartsTail(ps: seq<string>, sep: char)
    requires Parts(ps, sep) && ps != []
    ensures Parts(ps[1..], sep)
  {
    assert forall p :: p in ps[1..] ==> p in ps;
  }

  lemma JoinHead(ps: seq<string>, sep: char)
    requires ps != []
    ensures |ps| > 1 ==> Join(ps, sep) == ps[0] + [sep] + Join(ps[1..], sep)
    ensures Parts(ps, sep) ==> Join(ps, sep) != ""
    ensures Parts(ps, sep) ==> (sep in Join(ps, sep) <==> |ps| > 1)
  {
    assert ps[0] in ps;
    if |ps| > 1 {
      assert Join(ps, sep)[|ps[0]|] == sep;
    }
  }

  lemma {:induction false} JoinInjective(ps: seq<string>, qs: seq<string>, sep: char)
    requires Parts(ps, sep) && Parts(qs, sep) && Join(ps, sep) == Join(qs, sep)
    ensures ps == qs
  {
    if ps != [] { JoinHead(ps, sep); }
    if qs != [] { JoinHead(qs, sep); }
    if |ps| > 1 {
      CutUnique(ps[0], Join(ps[1..], sep), qs[0], Join(qs[1..], sep), sep);
      PartsTail(ps, sep);
      PartsTail(qs, sep);
      JoinInjective(ps[1..], qs[1..], sep);
      assert ps == [ps[0]] + ps[1..] && qs == [qs[0]] + qs[1..];
    }
  }

  ghost predicate Clean(s: string) {
    ':' !in s && ',' !in s && '|' !in s
  }

  // Names without the separators, and no empty action name.
  ghost predicate WellNamed(r: Record) {
    && (forall n :: n in Names(r) ==> Clean(n))
    && (forall n, a :: n in Names(r) && a in ActionsFor(r, n) ==> Clean(a) && a != "")
  }

  ghost predicate CleanEntry(e: Entry) {
    Clean(e.name) && forall a :: a in e.actions ==> Clean(a) && a != ""
  }

  lemma SegmentInjective(d: Entry, e: Entry)
    requires CleanEntry(d) && CleanEntry(e) && Segment(d) == Segment(e)
    ensures d == e
  {
    CutUnique(d.name, Join(d.actions, ','), e.name, Join(e.actions, ','), ':');
    JoinInjective(d.actions, e.actions, ',');
  }

  lemma {:induction false} JoinAvoids(ps: seq<string>, sep: char, c: char)
    requires c != sep && forall p :: p in ps ==> c !in p
    ensures c !in Join(ps, sep)
  {
    if |ps| == 1 {
      assert ps[0] in ps;
    } else if |ps| > 1 {
      JoinAvoids(ps[1..], sep, c);
      assert ps[0] in ps;
    }
  }

  lemma {:induction false} SegmentsAreParts(es: seq<Entry>)
    requires forall e :: e in es ==> CleanEntry(e)
    ensures Parts(Segments(es), '|')
  {
    if es != [] {
      SegmentsAreParts(es[1..]);
      assert es[0] in es;
      JoinAvoids(es[0].actions, ',', '|');
      assert Segments(es)[1..] == Segments(es[1..]);
    }
  }

  lemma {:induction false} SegmentsInjective(ds: seq<Entry>, es: seq<Entry>)
    requires (forall e :: e in ds ==> CleanEntry(e)) && (forall e :: e in es ==> CleanEntry(e))
    requires Segments(ds) == Segments(es)
    ensures ds == es
  {
    if ds != [] && es != [] {
      assert ds[0] in ds && es[0] in es;
      assert Segments(ds)[0] == Segment(ds[0]) && Segments(es)[0] == Segment(es[0]);
      SegmentInjective(ds[0], es[0]);
      assert Segments(ds)[1..] == Segments(ds[1..]) && Segments(es)[1..] == Segments(es[1..]);
      SegmentsInjective(ds[1..], es[1..]);
      assert ds == [ds[0]] + ds[1..] && es == [es[0]] + es[1..];
    }
  }

  lemma {:induction false} ListingIsClean(r: Record, ns: seq<string>)
    requires WellNamed(r) && forall n :: n in ns ==> n in Names(r)
    ensures forall e :: e in Listing(r, ns) ==> CleanEntry(e)
  {
    if ns != [] {
      assert ns[0] in ns;
      ListingIsClean(r, ns[1..]);
      SortMembers(ActionsFor(r, ns[0]));
    }
  }

  // Two well-named records hash the same string exactly when they grant the same actions,
  // equally often, on the same modules, in whatever order rows and actions come.
  lemma PreHashCanonical(p: Record, q: Record)
    requires Distinct(Names(p)) && Distinct(Names(q)) && WellNamed(p) && WellNamed(q)
    ensures PreHash(p) == PreHash(q) <==> Meaning(p) == Meaning(q)
  {
    var ns, ms := SortStrings(Names(p)), SortStrings(Names(q));
    SortMembers(Names(p));
    SortMembers(Names(q));
    ListingCanonical(p, q, ns, ms);
    ListingIsClean(p, ns);
    ListingIsClean(q, ms);
    if PreHash(p) == PreHash(q) {
      SegmentsAreParts(Listing(p, ns));
      SegmentsAreParts(Listing(q, ms));
      JoinInjective(Segments(Listing(p, ns)), Segments(Listing(q, ms)), '|');
      SegmentsInjective(Listing(p, ns), Listing(q, ms));
    }
  }

  lemma PreHashOfOne(name: string, actions: seq<string>)
    ensures var r := [Entry(name, actions)];
            Names(r) == [name] && ActionsFor(r, name) == actions && PreHash(r) == name + [':'] + Join(SortStrings(actions), ',')
  {
    var r := [Entry(name, actions)];
    assert r[1..] == [] && Names(r) == [name];
    assert [name][1..] == [] && SortStrings([name]) == Insert(name, SortStrings([]));
    ListingCons(r, name, []);
    assert Listing(r, [name]) == [Entry(name, SortStrings(actions))];
    assert Segments(Listing(r, [name])) == [Segment(Entry(name, SortStrings(actions)))] + Segments([]);
  }

  lemma SortedOne(a: string)
    ensures SortStrings([a]) == [a]
  {
    assert [a][1..] == [];
  }

  lemma SortedTwo(a: string, b: string)
    requires Leq(a, b)
    ensures SortStrings([a, b]) == [a, b]
  {
    SortedOne(b);
    assert [a, b][1..] == [b];
  }

  lemma TwoEntries(d: Entry, e: Entry)
    requires d.name != e.name
    ensures var r := [d, e];
            Names(r) == [d.name, e.name] && ActionsFor(r, d.name) == d.actions && ActionsFor(r, e.name) == e.actions
  {
    var r := [d, e];
    assert r[1..] == [e] && [e][1..] == [];
    PreHashOfOne(e.name, e.actions);
    assert e == Entry(e.name, e.actions);
    assert Names(r) == [d.name] + Names([e]);
  }

  lemma SegmentsOfTwo(d: Entry, e: Entry)
    ensures Join(Segments([d, e]), '|') == Segment(d) + ['|'] + Segment(e)
  {
    assert [d, e][1..] == [e] && [e][1..] == [];
    assert Segments([e]) == [Segment(e)];
    assert Segments([d, e]) == [Segment(d)] + [Segment(e)];
    assert ([Segment(d)] + [Segment(e)])[1..] == [Segment(e)];
  }

  lemma PreHashOfTwo(m: string, a: string, n: string, b: string)
    requires m != n && Leq(m, n)
    ensures PreHash([Entry(m, [a]), Entry(n, [b])]) == (m + [':'] + a) + ['|'] + (n + [':'] + b)
  {
    var d, e := Entry(m, [a]), Entry(n, [b]);
    var r := [d, e];
    TwoEntries(d, e);
    SortedTwo(m, n);
    SortedOne(a);
    SortedOne(b);
    ListingCons(r, n, []);
    ListingCons(r, m, [n]);
    assert [m] + [n] == [m, n] && [n] + [] == [n];
    assert Listing(r, [m, n]) == [d, e];
    SegmentsOfTwo(d, e);
  }

  // ---------- which characters the names may use ----------

  ghost predicate OverString(chars: set<char>, s: string) {
    s != "" && forall c :: c in s ==> c in chars
  }

  ghost predicate OverStrings(chars: set<char>, ss: seq<string>) {
    forall s :: s in ss ==> OverString(chars, s)
  }

  // Non-empty names and actions over these characters.
  ghost predicate Over(chars: set<char>, r: Record) {
    OverStrings(chars, Names(r)) && forall n :: n in Names(r) ==> OverStrings(chars, ActionsFor(r, n))
  }

  lemma OverIsWellNamed(chars: set<char>, r: Record)
    requires Over(chars, r) && ':' !in chars && ',' !in chars && '|' !in chars
    ensures WellNamed(r)
  {
    forall n, a | n in Names(r) && a in ActionsFor(r, n) ensures Clean(a) && a != "" {
      assert OverStrings(chars, ActionsFor(r, n)) && OverString(chars, a);
    }
    forall n | n in Names(r) ensures Clean(n) {
      assert OverString(chars, n);
    }
  }

  lemma OverWider(some: set<char>, chars: set<char>, r: Record)
    requires Over(some, r) && some <= chars
    ensures Over(chars, r)
  {
    forall n | n in Names(r) ensures OverStrings(chars, ActionsFor(r, n)) && OverString(chars, n) {
      assert OverStrings(some, ActionsFor(r, n)) && OverString(some, n);
    }
  }

  lemma OverOne(chars: set<char>, n: string, actions: seq<string>)
    requires OverString(chars, n) && OverStrings(chars, actions)
    ensures Over(chars, [Entry(n, actions)])
  {
    PreHashOfOne(n, actions);
  }

  lemma OverTwo(chars: set<char>, d: Entry, e: Entry)
    requires d.name != e.name
    requires OverString(chars, d.name) && OverString(chars, e.name) && OverStrings(chars, d.actions) && OverStrings(chars, e.actions)
    ensures Over(chars, [d, e])
  {
    TwoEntries(d, e);
  }

  ghost predicate Collide(p: Record, q: Record) {
    Distinct(Names(p)) && Distinct(Names(q)) && Meaning(p) != Meaning(q) && PreHash(p) == PreHash(q)
  }

  // p and q, over these characters, cannot be told apart.
  ghost predicate Collision(chars: set<char>, p: Record, q: Record) {
    Over(chars, p) && Over(chars, q) && Collide(p, q)
  }

  lemma OneModuleCollides(m: string, xs: seq<string>, n: string, ys: seq<string>)
    requires m + [':'] + Join(SortStrings(xs), ',') == n + [':'] + Join(SortStrings(ys), ',')
    requires m != n || |xs| != |ys|
    ensures Collide([Entry(m, xs)], [Entry(n, ys)])
  {
    PreHashOfOne(m, xs);
    PreHashOfOne(n, ys);
    var p, q := [Entry(m, xs)], [Entry(n, ys)];
    assert m in Meaning(p) && Meaning(p)[m] == multiset(xs) && (m in Meaning(q) <==> m == n);
    assert m == n ==> Meaning(q)[m] == multiset(ys);
    assert |multiset(xs)| == |xs| && |multiset(ys)| == |ys|;
  }

  // n times the same character.
  function Times(c: char, n: nat): (s: string)
    ensures |s| == n && forall i :: 0 <= i < n ==> s[i] == c
  {
    seq(n, _ => c)
  }

  lemma TimesOver(c: char, n: nat)
    requires n > 0
    ensures OverString({c}, Times(c, n)) && OverStrings({c}, [Times(c, n)])
  {
  }

  lemma ColonCollides(one: string, two: string)
    requires one == Times(':', 1) && two == Times(':', 2)
    ensures Collision({':'}, [Entry(two, [one])], [Entry(one, [two])])
  {
    TimesOver(':', 1);
    TimesOver(':', 2);
    SortedOne(one);
    SortedOne(two);
    assert two + [':'] + one == one + [':'] + two;
    OneModuleCollides(two, [one], one, [two]);
    OverOne({':'}, two, [one]);
    OverOne({':'}, one, [two]);
  }

  lemma JoinOfTwo(x: string, y: string, sep: char)
    ensures Join([x, y], sep) == x + [sep] + y
  {
    assert [x, y][1..] == [y];
  }

  lemma CommaCollides(one: string, three: string)
    requires one == Times(',', 1) && three == Times(',', 3)
    ensures Collision({','}, [Entry(one, [three])], [Entry(one, [one, one])])
  {
    TimesOver(',', 1);
    TimesOver(',', 3);
    OverOne({','}, one, [three]);
    OverOne({','}, one, [one, one]);
    assert Collide([Entry(one, [three])], [Entry(one, [one, one])]) by {
      SortedOne(three);
      LeqTotal(one, one);
      SortedTwo(one, one);
      JoinOfTwo(one, one, ',');
      assert three == one + [','] + one;
      OneModuleCollides(one, [three], one, [one, one]);
    }
  }

  lemma SameModules(d: Entry, e: Entry)
    requires d.name != e.name
    ensures Distinct(Names([d, e])) && Meaning([d, e]).Keys == {d.name, e.name}
  {
    TwoEntries(d, e);
  }

  // Two records of two modules that share the first and differ in the second.
  lemma TwoModulesCollide(m: string, a: string, n: string, b: string, c: string, o: string, d: string)
    requires m != n && m != o && n != o && Leq(m, n) && Leq(m, o)
    requires (m + [':'] + a) + ['|'] + (n + [':'] + b) == (m + [':'] + c) + ['|'] + (o + [':'] + d)
    ensures Collide([Entry(m, [a]), Entry(n, [b])], [Entry(m, [c]), Entry(o, [d])])
  {
    var p, q := [Entry(m, [a]), Entry(n, [b])], [Entry(m, [c]), Entry(o, [d])];
    assert PreHash(p) == PreHash(q) by {
      PreHashOfTwo(m, a, n, b);
      PreHashOfTwo(m, c, o, d);
    }
    SameModules(Entry(m, [a]), Entry(n, [b]));
    SameModules(Entry(m, [c]), Entry(o, [d]));
    assert Meaning(p) != Meaning(q) by {
      assert n in Meaning(p).Keys && n !in Meaning(q).Keys;
    }
  }

  lemma {:induction false} LeqOfTimes(c: char, m: nat, n: nat)
    requires m <= n
    ensures Leq(Times(c, m), Times(c, n))
    decreases m
  {
    if m > 0 {
      assert Times(c, m)[1..] == Times(c, m - 1) && Times(c, n)[1..] == Times(c, n - 1);
      LeqOfTimes(c, m - 1, n - 1);
    }
  }

  lemma BarStrings(one: string, two: string, three: string)
    requires one + ['|'] + three == two + ['|'] + two
    ensures (one + [':'] + one) + ['|'] + (three + [':'] + one) == (one + [':'] + two) + ['|'] + (two + [':'] + one)
  {
    var colon := [':'];
    assert (one + colon + one) + ['|'] + (three + colon + one) == (one + colon) + (one + ['|'] + three) + (colon + one);
    assert (one + colon + two) + ['|'] + (two + colon + one) == (one + colon) + (two + ['|'] + two) + (colon + one);
  }

  lemma BarOver(one: string, two: string, three: string)
    requires one == Times('|', 1) && two == Times('|', 2) && three == Times('|', 3)
    ensures Over({'|'}, [Entry(one, [one]), Entry(three, [one])]) && Over({'|'}, [Entry(one, [two]), Entry(two, [one])])
  {
    TimesOver('|', 1);
    TimesOver('|', 2);
    TimesOver('|', 3);
    OverTwo({'|'}, Entry(one, [one]), Entry(three, [one]));
    OverTwo({'|'}, Entry(one, [two]), Entry(two, [one]));
  }

  lemma BarCollides(one: string, two: string, three: string)
    requires one == Times('|', 1) && two == Times('|', 2) && three == Times('|', 3)
    ensures Collide([Entry(one, [one]), Entry(three, [one])], [Entry(one, [two]), Entry(two, [one])])
  {
    LeqOfTimes('|', 1, 2);
    LeqOfTimes('|', 1, 3);
    assert one + ['|'] + three == two + ['|'] + two;
    BarStrings(one, two, three);
    TwoModulesCollide(one, one, three, one, two, two, one);
  }

  lemma WithColons() returns (p: Record, q: Record)
    ensures Collision({':'}, p, q)
  {
    var one, two := Times(':', 1), Times(':', 2);
    p, q := [Entry(two, [one])], [Entry(one, [two])];
    ColonCollides(one, two);
  }

  lemma WithCommas() returns (p: Record, q: Record)
    ensures Collision({','}, p, q)
  {
    var one, three := Times(',', 1), Times(',', 3);
    p, q := [Entry(one, [three])], [Entry(one, [one, one])];
    CommaCollides(one, three);
  }

  lemma WithBars() returns (p: Record, q: Record)
    ensures Collision({'|'}, p, q)
  {
    var one, two, three := Times('|', 1), Times('|', 2), Times('|', 3);
    p, q := [Entry(one, [one]), Entry(three, [one])], [Entry(one, [two]), Entry(two, [one])];
    BarOver(one, two, three);
    BarCollides(one, two, three);
  }

  // Each separator makes for a collision even on its own.
  lemma PreHashCollides(c: char)
    requires c == ':' || c == ',' || c == '|'
    ensures exists p, q :: Collision({c}, p, q)
  {
    if c == ':' {
      var p, q := WithColons();
    } else if c == ',' {
      var p, q := WithCommas();
    } else {
      var p, q := WithBars();
    }
  }

  lemma CollisionWider(some: set<char>, chars: set<char>, p: Record, q: Record)
    requires some <= chars
    ensures Collision(some, p, q) ==> Collision(chars, p, q)
  {
    if Collision(some, p, q) {
      OverWider(some, chars, p);
      OverWider(some, chars, q);
    }
  }

  lemma CleanNeverCollides(chars: set<char>, p: Record, q: Record)
    requires ':' !in chars && ',' !in chars && '|' !in chars
    ensures !Collision(chars, p, q)
  {
    if Over(chars, p) && Over(chars, q) && Distinct(Names(p)) && Distinct(Names(q)) {
      OverIsWellNamed(chars, p);
      OverIsWellNamed(chars, q);
      PreHashCanonical(p, q);
    }
  }

  // All records with non-empty names and actions over some characters are told apart exactly
  // when none of the three separators is among those characters.
  lemma PreHashTellsApartIff(chars: set<char>)
    ensures (forall p, q :: !Collision(chars, p, q)) <==> ':' !in chars && ',' !in chars && '|' !in chars
  {
    if c :| c in chars && (c == ':' || c == ',' || c == '|') {
      PreHashCollides(c);
      var p, q :| Collision({c}, p, q);
      CollisionWider({c}, chars, p, q);
    } else {
      forall p, q ensures !Collision(chars, p, q) {
        CleanNeverCollides(chars, p, q);
      }
    }
  }

  // ---------- TokenService: JSON ----------

  function HexDigit(n: nat): char
    requires n < 16
  {
    "0123456789abcdef"[n]
  }

  // How JSON.stringify writes one character of a string.
  function JsonChar(c: char): string {
    var n := c as int;
    if c == '"' then "\\\""
    else if c == '\\' then "\\\\"
    else if n == 8 then "\\b"
    else if n == 9 then "\\t"
    else if n == 10 then "\\n"
    else if n == 12 then "\\f"
    else if n == 13 then "\\r"
    else if n < 32 then "\\u00" + [HexDigit(n / 16), HexDigit(n % 16)]
    else [c]
  }

  function JsonChars(s: string): string {
    if s == [] then [] else JsonChar(s[0]) + JsonChars(s[1..])
  }

  function Quote(s: string): string {
    ['"'] + JsonChars(s) + ['"']
  }

  // The elements of an array and its closing bracket.
  function ArrayTail(xs: seq<string>): string {
    if xs == [] then "]"
    else if |xs| == 1 then Quote(xs[0]) + "]"
    else Quote(xs[0]) + "," + ArrayTail(xs[1..])
  }

  function Property(e: Entry): string {
    Quote(e.name) + ":[" + ArrayTail(e.actions)
  }

  // The properties of an object and its closing brace.
  function ObjectTail(es: seq<Entry>): string {
    if es == [] then "}"
    else if |es| == 1 then Property(es[0]) + "}"
    else Property(es[0]) + "," + ObjectTail(es[1..])
  }

  // `order` is the order in which an object enumerates keys inserted in sorted order.
  function PreHashJson(r: Record, order: seq<string> -> seq<string>): string {
    "{" + ObjectTail(Listing(r, order(SortStrings(Names(r)))))
  }

  // Each encoding below tells where it ends: whatever follows, it can be read back.

  lemma HexDigitInjective(m: nat, n: nat)
    requires m < 16 && n < 16 && HexDigit(m) == HexDigit(n)
    ensures m == n
  {
  }

  // The character a two-character escape stands for.
  function Unescape(c: char): char {
    match c
    case '"' => '"'
    case 'b' => 8 as char
    case 't' => 9 as char
    case 'n' => 10 as char
    case 'f' => 12 as char
    case 'r' => 13 as char
    case _ => '\\'
  }

  lemma JsonCharShape(c: char)
    ensures JsonChar(c) != [] && JsonChar(c)[0] != '"'
    ensures |JsonChar(c)| in {1, 2, 6} && (JsonChar(c)[0] == '\\' <==> |JsonChar(c)| > 1)
    ensures |JsonChar(c)| == 1 ==> JsonChar(c) == [c]
    ensures |JsonChar(c)| == 2 ==> JsonChar(c)[1] != 'u' && c == Unescape(JsonChar(c)[1])
    ensures |JsonChar(c)| == 6 ==> JsonChar(c)[1] == 'u' && c as int < 32
    ensures |JsonChar(c)| == 6 ==> JsonChar(c)[4] == HexDigit(c as int / 16) && JsonChar(c)[5] == HexDigit(c as int % 16)
  {
  }

  lemma JsonCharUnique(c: char, u: string, d: char, v: string)
    requires JsonChar(c) + u == JsonChar(d) + v
    ensures c == d && u == v
  {
    var j, k, s := JsonChar(c), JsonChar(d), JsonChar(c) + u;
    JsonCharShape(c);
    JsonCharShape(d);
    assert s[0] == j[0] && s[0] == k[0];
    if |j| > 1 {
      assert s[1] == j[1] && s[1] == k[1];
      if |j| == 6 {
        assert s[4] == j[4] && s[4] == k[4] && s[5] == j[5] && s[5] == k[5];
        HexDigitInjective(c as int / 16, d as int / 16);
        HexDigitInjective(c as int % 16, d as int % 16);
      }
    }
    assert c == d;
    assert u == s[|j|..] && v == s[|k|..];
  }

  lemma Regroup(a: string, b: string, c: string, d: string)
    ensures a + b + c + d == a + (b + (c + d))
    ensures a + b + c + d == a + (b + c + d)
  {
  }

  lemma JsonCharsHead(x: string, u: string)
    requires x != []
    ensures JsonChars(x) + ['"'] + u == JsonChar(x[0]) + (JsonChars(x[1..]) + ['"'] + u)
  {
    Regroup(JsonChar(x[0]), JsonChars(x[1..]), ['"'], u);
  }

  lemma JsonCharsStart(x: string, u: string)
    ensures (JsonChars(x) + ['"'] + u)[0] == '"' <==> x == []
  {
    if x != [] {
      JsonCharShape(x[0]);
      JsonCharsHead(x, u);
    }
  }

  lemma {:induction false} JsonCharsUnique(x: string, u: string, y: string, v: string)
    requires JsonChars(x) + ['"'] + u == JsonChars(y) + ['"'] + v
    ensures x == y && u == v
  {
    JsonCharsStart(x, u);
    JsonCharsStart(y, v);
    if x == [] {
      var s := JsonChars(x) + ['"'] + u;
      assert u == s[1..] && v == s[1..];
    } else {
      JsonCharsHead(x, u);
      JsonCharsHead(y, v);
      JsonCharUnique(x[0], JsonChars(x[1..]) + ['"'] + u, y[0], JsonChars(y[1..]) + ['"'] + v);
      JsonCharsUnique(x[1..], u, y[1..], v);
      assert x == [x[0]] + x[1..] && y == [y[0]] + y[1..];
    }
  }

  lemma DropFirst(c: char, a: string, d: char, b: string)
    requires [c] + a == [d] + b
    ensures c == d && a == b
  {
    assert ([c] + a)[0] == c && ([d] + b)[0] == d;
    assert a == ([c] + a)[1..] && b == ([d] + b)[1..];
  }

  lemma QuoteUnique(x: string, u: string, y: string, v: string)
    requires Quote(x) + u == Quote(y) + v
    ensures x == y && u == v
  {
    var a, b := JsonChars(x) + ['"'] + u, JsonChars(y) + ['"'] + v;
    assert Quote(x) + u == ['"'] + a && Quote(y) + v == ['"'] + b;
    DropFirst('"', a, '"', b);
    JsonCharsUnique(x, u, y, v);
  }

  // An array from its first element on, as the element and what follows it.
  ghost function AfterFirst(xs: seq<string>, u: string): string
    requires xs != []
  {
    if |xs| == 1 then [']'] + u else [','] + (ArrayTail(xs[1..]) + u)
  }

  lemma ArrayTailHead(xs: seq<string>, u: string)
    requires xs != []
    ensures ArrayTail(xs) + u == Quote(xs[0]) + AfterFirst(xs, u)
  {
    if |xs| > 1 {
      Regroup(Quote(xs[0]), ",", ArrayTail(xs[1..]), u);
    } else {
      Regroup(Quote(xs[0]), "]", "", u);
      assert Quote(xs[0]) + "]" + "" == Quote(xs[0]) + "]" && "" + u == u;
    }
  }

  lemma AfterFirstUnique(xs: seq<string>, u: string, ys: seq<string>, v: string)
    requires xs != [] && ys != [] && AfterFirst(xs, u) == AfterFirst(ys, v)
    ensures |xs| == 1 <==> |ys| == 1
    ensures if |xs| == 1 then u == v else ArrayTail(xs[1..]) + u == ArrayTail(ys[1..]) + v
  {
    var a := if |xs| == 1 then u else ArrayTail(xs[1..]) + u;
    var b := if |ys| == 1 then v else ArrayTail(ys[1..]) + v;
    DropFirst(if |xs| == 1 then ']' else ',', a, if |ys| == 1 then ']' else ',', b);
  }

  lemma ArrayTailStart(xs: seq<string>)
    ensures ArrayTail(xs) != [] && (xs == [] <==> ArrayTail(xs)[0] == ']')
  {
  }

  lemma ArrayTailBoth(xs: seq<string>, u: string, ys: seq<string>, v: string)
    requires ArrayTail(xs) + u == ArrayTail(ys) + v
    ensures xs == [] <==> ys == []
    ensures xs == [] ==> u == v
  {
    ArrayTailStart(xs);
    ArrayTailStart(ys);
    assert (ArrayTail(xs) + u)[0] == ArrayTail(xs)[0] && (ArrayTail(ys) + v)[0] == ArrayTail(ys)[0];
    if xs == [] && ys == [] {
      DropFirst(']', u, ']', v);
    }
  }

  lemma ArrayHeadUnique(xs: seq<string>, u: string, ys: seq<string>, v: string)
    requires xs != [] && ys != [] && ArrayTail(xs) + u == ArrayTail(ys) + v
    ensures xs[0] == ys[0] && AfterFirst(xs, u) == AfterFirst(ys, v)
  {
    ArrayTailHead(xs, u);
    ArrayTailHead(ys, v);
    QuoteUnique(xs[0], AfterFirst(xs, u), ys[0], AfterFirst(ys, v));
  }

  lemma {:induction false} ArrayTailUnique(xs: seq<string>, u: string, ys: seq<string>, v: string)
    requires ArrayTail(xs) + u == ArrayTail(ys) + v
    ensures xs == ys && u == v
  {
    ArrayTailBoth(xs, u, ys, v);
    if xs != [] {
      ArrayHeadUnique(xs, u, ys, v);
      AfterFirstUnique(xs, u, ys, v);
      if |xs| > 1 {
        ArrayTailUnique(xs[1..], u, ys[1..], v);
      }
      assert xs == [xs[0]] + xs[1..] && ys == [ys[0]] + ys[1..];
    }
  }

  lemma PropertySplit(e: Entry, u: string)
    ensures Property(e) + u == Quote(e.name) + (":[" + (ArrayTail(e.actions) + u))
  {
    var q, t := Quote(e.name), ArrayTail(e.actions);
    assert q + ":[" + t + u == q + (":[" + (t + u));
  }

  lemma PropertyUnique(d: Entry, u: string, e: Entry, v: string)
    requires Property(d) + u == Property(e) + v
    ensures d == e && u == v
  {
    var x, y := ArrayTail(d.actions) + u, ArrayTail(e.actions) + v;
    PropertySplit(d, u);
    PropertySplit(e, v);
    QuoteUnique(d.name, ":[" + x, e.name, ":[" + y);
    assert x == (":[" + x)[2..] && y == (":[" + y)[2..];
    ArrayTailUnique(d.actions, u, e.actions, v);
  }

  ghost function AfterProperty(es: seq<Entry>): string
    requires es != []
  {
    if |es| == 1 then ['}'] else [','] + ObjectTail(es[1..])
  }

  lemma ObjectTailHead(es: seq<Entry>)
    ensures es != [] ==> ObjectTail(es) == Property(es[0]) + AfterProperty(es) && ObjectTail(es)[0] == '"'
  {
    if |es| > 1 {
      var q, t := Property(es[0]), ObjectTail(es[1..]);
      assert q + "," + t == q + ([','] + t);
    }
  }

  lemma {:induction false} ObjectTailUnique(ds: seq<Entry>, es: seq<Entry>)
    requires ObjectTail(ds) == ObjectTail(es)
    ensures ds == es
  {
    ObjectTailHead(ds);
    ObjectTailHead(es);
    if ds != [] {
      var a, b := AfterProperty(ds), AfterProperty(es);
      PropertyUnique(ds[0], a, es[0], b);
      if |ds| > 1 {
        assert ObjectTail(ds[1..]) == a[1..] && ObjectTail(es[1..]) == b[1..];
        ObjectTailUnique(ds[1..], es[1..]);
      }
      assert ds == [ds[0]] + ds[1..] && es == [es[0]] + es[1..];
    }
  }

  // The JSON that TokenService hashes is canonical for any names whatever.
  lemma PreHashJsonCanonical(p: Record, q: Record, order: seq<string> -> seq<string>)
    requires Distinct(Names(p)) && Distinct(Names(q))
    requires forall s :: multiset(order(s)) == multiset(s)
    ensures PreHashJson(p, order) == PreHashJson(q, order) <==> Meaning(p) == Meaning(q)
  {
    var ns, ms := order(SortStrings(Names(p))), order(SortStrings(Names(q)));
    ListingCanonical(p, q, ns, ms);
    if PreHashJson(p, order) == PreHashJson(q, order) {
      assert ObjectTail(Listing(p, ns)) == PreHashJson(p, order)[1..];
      assert ObjectTail(Listing(q, ms)) == PreHashJson(q, order)[1..];
      ObjectTailUnique(Listing(p, ns), Listing(q, ms));
    }
  }

  // The two services tell the same well-named records apart.
  lemma FingerprintsAgree(p: Record, q: Record, order: seq<string> -> seq<string>)
    requires Distinct(Names(p)) && Distinct(Names(q)) && WellNamed(p) && WellNamed(q)
    requires forall s :: multiset(order(s)) == multiset(s)
    ensures PreHash(p) == PreHash(q) <==> PreHashJson(p, order) == PreHashJson(q, order)
  {
    PreHashCanonical(p, q);
    PreHashJsonCanonical(p, q, order);
  }
}
