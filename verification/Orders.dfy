// Lists without repetition against sets: the order in which a Go map is walked, and the
// sizes of sets inside sets.

module Orders {

  ghost predicate Distinct<T(!new)>(xs: seq<T>) {
    forall i, j :: 0 <= i < j < |xs| ==> xs[i] != xs[j]
  }

  ghost function Members<T(!new)>(xs: seq<T>): set<T> {
    set x | x in xs
  }

  /** xs lists the members of s in some order. */
  ghost predicate Enumerates<T(!new)>(xs: seq<T>, s: set<T>) {
    Distinct(xs) && Members(xs) == s
  }

  lemma MembersGrow<T(!new)>(xs: seq<T>, x: T)
    ensures Members(xs + [x]) == Members(xs) + {x}
  {
  }

  lemma MembersOfFront<T(!new)>(xs: seq<T>)
    requires xs != [] && Distinct(xs)
    ensures Members(xs) == Members(xs[..|xs| - 1]) + {xs[|xs| - 1]}
    ensures xs[|xs| - 1] !in Members(xs[..|xs| - 1])
  {
    assert xs == xs[..|xs| - 1] + [xs[|xs| - 1]];
    MembersGrow(xs[..|xs| - 1], xs[|xs| - 1]);
  }

  lemma {:induction false} EnumeratedLength<T(!new)>(xs: seq<T>, s: set<T>)
    requires Enumerates(xs, s)
    ensures |xs| == |s|
  {
    if xs != [] {
      MembersOfFront(xs);
      var front := xs[..|xs| - 1];
      EnumeratedLength(front, Members(front));
    }
  }

  /** Some order of a set. Nothing that uses it depends on which. */
  method OrderOf<T(!new, ==)>(s: set<T>) returns (xs: seq<T>)
    ensures Enumerates(xs, s)
  {
    xs := [];
    var left := s;
    while left != {}
      invariant left <= s && Enumerates(xs, s - left)
      decreases left
    {
      var x :| x in left;
      assert x !in Members(xs);
      MembersGrow(xs, x);
      xs, left := xs + [x], left - {x};
    }
  }

  lemma {:induction false} SubsetSize<T>(a: set<T>, b: set<T>)
    requires a <= b
    ensures |a| <= |b|
  {
    if a != {} {
      var x :| x in a;
      SubsetSize(a - {x}, b - {x});
    }
  }

  lemma FullSubset<T>(a: set<T>, b: set<T>)
    requires a <= b && |a| == |b|
    ensures a == b
  {
    if a != b {
      var x :| x in b && x !in a;
      SubsetSize(a, b - {x});
    }
  }
}
