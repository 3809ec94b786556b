/** Bounded lists of the most recently used items, most recent first. */
module Recency {

  ghost predicate Distinct<T>(s: seq<T>) {
    forall i, j :: 0 <= i < j < |s| ==> s[i] != s[j]
  }

  function Remove<T(==, !new)>(s: seq<T>, x: T): (r: seq<T>)
    ensures forall y :: y in r <==> y in s && y != x
    ensures |r| <= |s| && (x in s ==> |r| < |s|) && (x !in s ==> r == s)
  {
    if s == [] then [] else if s[0] == x then Remove(s[1..], x) else [s[0]] + Remove(s[1..], x)
  }

  lemma {:induction false} RemoveKeepsDistinct<T(!new)>(s: seq<T>, x: T)
    requires Distinct(s)
    ensures Distinct(Remove(s, x)) && (x in s ==> |Remove(s, x)| == |s| - 1)
  {
    if s != [] {
      RemoveKeepsDistinct(s[1..], x);
      assert s[0] !in s[1..];
    }
  }

  function First<T(!new)>(s: seq<T>, n: nat): (r: seq<T>)
    ensures |r| <= n && (forall x :: x in r ==> x in s)
  {
    if |s| <= n then s else s[..n]
  }

  /** Using an item puts it in front; when there is no room for a new one, the least recently used item goes. */
  function Use<T(==, !new)>(s: seq<T>, capacity: nat, x: T): seq<T>
    requires capacity > 0
  {
    if x in s then [x] + Remove(s, x) else [x] + First(s, capacity - 1)
  }

  /** The distinct items of a history, the most recently used first: the reference for the list. */
  function LatestFirst<T(==, !new)>(history: seq<T>): seq<T> {
    if history == [] then [] else
      var x := history[|history| - 1];
      [x] + Remove(LatestFirst(history[..|history| - 1]), x)
  }

  lemma {:induction false} LatestFirstDistinct<T(!new)>(history: seq<T>)
    ensures Distinct(LatestFirst(history)) && forall x :: x in LatestFirst(history) <==> x in history
  {
    if history != [] {
      var init, x := history[..|history| - 1], history[|history| - 1];
      LatestFirstDistinct(init);
      RemoveKeepsDistinct(LatestFirst(init), x);
      assert history == init + [x];
    }
  }

  /** The last position of a history at which an item was used; -1 for one that was not. */
  function LastUse<T(==)>(history: seq<T>, x: T): int {
    if history == [] then -1
    else if history[|history| - 1] == x then |history| - 1
    else LastUse(history[..|history| - 1], x)
  }

  /** Items used later come first. */
  ghost predicate ByLastUse<T>(history: seq<T>, s: seq<T>) {
    forall i, j :: 0 <= i < j < |s| ==> LastUse(history, s[i]) > LastUse(history, s[j])
  }

  lemma {:induction false} RemoveKeepsOrder<T(!new)>(history: seq<T>, s: seq<T>, x: T)
    requires ByLastUse(history, s)
    ensures ByLastUse(history, Remove(s, x))
  {
    if s != [] {
      var t := s[1..];
      RemoveKeepsOrder(history, t, x);
      forall y | y in Remove(t, x) ensures LastUse(history, s[0]) > LastUse(history, y) {
        var j :| 0 <= j < |t| && t[j] == y;
        assert s[j + 1] == y;
      }
    }
  }

  lemma {:induction false} LastUseBounds<T>(history: seq<T>, x: T)
    ensures -1 <= LastUse(history, x) < |history| && (x in history <==> LastUse(history, x) >= 0)
  {
    if history != [] {
      LastUseBounds(history[..|history| - 1], x);
      assert history == history[..|history| - 1] + [history[|history| - 1]];
    }
  }

  /** The reference lists every item once, by when it was last used, the latest first. */
  lemma {:induction false} LatestFirstByUse<T(!new)>(history: seq<T>)
    ensures ByLastUse(history, LatestFirst(history)) && forall x :: x in LatestFirst(history) <==> LastUse(history, x) >= 0
  {
    LatestFirstDistinct(history);
    forall x ensures x in history <==> LastUse(history, x) >= 0 { LastUseBounds(history, x); }
    if history != [] {
      var init, x := history[..|history| - 1], history[|history| - 1];
      LatestFirstByUse(init);
      var rest := Remove(LatestFirst(init), x);
      RemoveKeepsOrder(init, LatestFirst(init), x);
      forall y | y in rest ensures LastUse(history, y) == LastUse(init, y) < |init| { LastUseBounds(init, y); }
      assert LatestFirst(history) == [x] + rest && LastUse(history, x) == |init|;
    }
  }

  lemma FirstOfCons<T(!new)>(x: T, s: seq<T>, n: nat)
    requires n > 0
    ensures First([x] + s, n) == [x] + First(s, n - 1)
  {
  }

  /** Removing an item of the front part leaves the rest of the front part and makes room for one more. */
  lemma {:induction false} RemoveInFirst<T(!new)>(s: seq<T>, n: nat, x: T)
    requires Distinct(s) && x in First(s, n)
    ensures n > 0 && Remove(First(s, n), x) == First(Remove(s, x), n - 1)
  {
    var t := s[1..];
    assert s == [s[0]] + t;
    FirstOfCons(s[0], t, n);
    if s[0] == x {
      assert x !in t;
      assert First(s, n)[1..] == First(t, n - 1);
    } else {
      RemoveInFirst(t, n - 1, x);
      assert First(s, n)[1..] == First(t, n - 1);
      FirstOfCons(s[0], Remove(t, x), n - 1);
    }
  }

  /** Removing an item behind the front part leaves the front part alone. */
  lemma {:induction false} RemoveBehindFirst<T(!new)>(s: seq<T>, n: nat, x: T)
    requires n > 0 && x !in First(s, n)
    ensures First(First(s, n), n - 1) == First(Remove(s, x), n - 1)
  {
    if s != [] && n > 1 {
      var t := s[1..];
      assert s == [s[0]] + t;
      FirstOfCons(s[0], t, n);
      RemoveBehindFirst(t, n - 1, x);
      FirstOfCons(s[0], Remove(t, x), n - 1);
      FirstOfCons(s[0], First(t, n - 1), n - 1);
    }
  }

  /** Using items one after the other keeps exactly the `capacity` most recently used ones. */
  lemma {:induction false} UseKeepsMostRecent<T(!new)>(history: seq<T>, capacity: nat, x: T)
    requires capacity > 0
    ensures Use(First(LatestFirst(history), capacity), capacity, x) == First(LatestFirst(history + [x]), capacity)
  {
    var s := LatestFirst(history);
    LatestFirstDistinct(history);
    assert (history + [x])[..|history|] == history;
    FirstOfCons(x, Remove(s, x), capacity);
    if x in First(s, capacity) {
      RemoveInFirst(s, capacity, x);
    } else {
      RemoveBehindFirst(s, capacity, x);
    }
  }

  lemma UseKeepsDistinct<T(!new)>(s: seq<T>, capacity: nat, x: T)
    requires capacity > 0 && Distinct(s) && |s| <= capacity
    ensures Distinct(Use(s, capacity, x)) && |Use(s, capacity, x)| <= capacity
  {
    RemoveKeepsDistinct(s, x);
  }

  /** Only the least recently used item goes, and only when a new one finds no room. */
  lemma UseMembers<T(!new)>(s: seq<T>, capacity: nat, x: T)
    requires capacity > 0 && Distinct(s) && |s| <= capacity
    ensures forall d :: d in s && d != x ==> (d in Use(s, capacity, x) <==> !(x !in s && |s| == capacity && d == s[capacity - 1]))
    ensures x in Use(s, capacity, x)
  {
    if x !in s && |s| == capacity {
      assert s == First(s, capacity - 1) + [s[capacity - 1]];
    }
  }
}
