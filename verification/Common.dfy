/** Values shared by every part of the model. */
module Common {

  datatype Option<+T> = None | Some(value: T)

  // HierarchyLevel, and its order.
  datatype Level = OWNER | MANAGER | WORKER

  function Rank(l: Level): nat {
    match l
    case OWNER => 3
    case MANAGER => 2
    case WORKER => 1
  }

  // Milliseconds on the server clock, as Date.now() reports them.
  type Millis = nat

  function Elems<T>(s: seq<T>): set<T> {
    set x | x in s
  }

  lemma ElemsStep<T>(s: seq<T>, j: nat)
    requires j < |s|
    ensures s[..j+1] == s[..j] + [s[j]] && Elems(s[..j+1]) == Elems(s[..j]) + {s[j]} && s[j] in Elems(s)
  {
    assert s[..j+1] == s[..j] + [s[j]];
  }

  // The order in which the database returns rows is not specified.
  method AnyOrder<T(==)>(s: set<T>) returns (r: seq<T>)
    ensures forall x :: x in r <==> x in s
  {
    r := [];
    var rest := s;
    while rest != {}
      invariant rest <= s
      invariant forall x :: x in r <==> x in s - rest
      decreases rest
    {
      var x :| x in rest;
      rest := rest - {x};
      r := r + [x];
    }
  }
}
