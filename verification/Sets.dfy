/** Sizes of finite sets. */
module Sets {

  lemma {:induction false} SubsetSize<T(!new)>(a: set<T>, b: set<T>)
    requires a <= b
    ensures |a| <= |b|
    decreases a
  {
    if a != {} {
      var x :| x in a;
      SubsetSize(a - {x}, b - {x});
    }
  }

  /** A list has at least as many entries as there are different ones. */
  lemma {:induction false} ElementsSize<T(!new)>(s: seq<T>, all: set<T>)
    requires all == set x | x in s
    ensures |all| <= |s|
  {
    if s == [] {
      assert all == {};
    } else {
      var rest := set x | x in s[1..];
      ElementsSize(s[1..], rest);
      assert all == rest + {s[0]};
    }
  }
}
