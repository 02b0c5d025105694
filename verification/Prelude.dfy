/** Value types and small finite-set facts shared by every module. */
module Prelude {

  datatype Option<+T> = None | Some(value: T)

  datatype Result<+T, +E> = Ok(value: T) | Err(error: E)

  /** The indices below `n`. */
  function Below(n: nat): (r: set<nat>)
    ensures forall i: nat :: i in r <==> i < n
  {
    if n == 0 then {} else Below(n - 1) + {n - 1}
  }

  lemma {:induction false} SubsetSize<T>(a: set<T>, b: set<T>)
    requires a <= b
    ensures |a| <= |b|
    decreases a
  {
    if a != {} {
      var x :| x in a;
      SubsetSize(a - {x}, b - {x});
    }
  }

  ghost function Image<T, U>(m: map<T, U>, s: set<T>): set<U>
    requires s <= m.Keys
  {
    set x | x in s :: m[x]
  }

  /** An injective map keeps the size of every set it is applied to. */
  lemma {:induction false} ImageSize<T, U>(m: map<T, U>, s: set<T>)
    requires s <= m.Keys
    requires forall x, y :: x in s && y in s && m[x] == m[y] ==> x == y
    ensures |Image(m, s)| == |s|
    decreases s
  {
    if s == {} {
      assert Image(m, s) == {};
    } else {
      var a :| a in s;
      ImageSize(m, s - {a});
      assert Image(m, s) == Image(m, s - {a}) + {m[a]};
    }
  }

  /** A key not in use yet, as the database would generate. */
  method FreshId(used: set<nat>) returns (id: nat)
    ensures id !in used
  {
    id := 0;
    var rest := used;
    while rest != {}
      invariant forall k :: k in used && k !in rest ==> k < id
      decreases rest
    {
      var k :| k in rest;
      rest := rest - {k};
      id := if k < id then id else k + 1;
    }
  }
}
