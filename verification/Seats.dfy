/**
 The seats of a committee: the members sorted by their account ID, numbered in that order with 8 bits.
 */
module Seats {
  import opened Accounts

  // ----- The order of account IDs -----

  /** Byte-wise comparison of two IDs of the same length, from the first byte on. */
  predicate Less(a: seq<Byte>, b: seq<Byte>)
    requires |a| == |b|
  {
    a != [] && (a[0] < b[0] || (a[0] == b[0] && Less(a[1..], b[1..])))
  }

  /** The first byte in which two IDs differ decides. */
  lemma {:induction false} LessIff(a: seq<Byte>, b: seq<Byte>)
    requires |a| == |b|
    ensures Less(a, b) <==> exists i :: DifferFirstAt(a, b, i) && a[i] < b[i]
  {
    if a != [] {
      LessIff(a[1..], b[1..]);
      if a[0] < b[0] {
        assert DifferFirstAt(a, b, 0);
      } else if a[0] == b[0] {
        if i :| DifferFirstAt(a[1..], b[1..], i) && a[1..][i] < b[1..][i] {
          assert a[..i + 1] == [a[0]] + a[1..][..i] && b[..i + 1] == [b[0]] + b[1..][..i];
          assert DifferFirstAt(a, b, i + 1);
        }
        if i :| DifferFirstAt(a, b, i) && a[i] < b[i] {
          assert a[1..][..i - 1] == a[..i][1..] && b[1..][..i - 1] == b[..i][1..];
          assert DifferFirstAt(a[1..], b[1..], i - 1) && a[1..][i - 1] < b[1..][i - 1];
        }
      }
    }
  }

  ghost predicate DifferFirstAt(a: seq<Byte>, b: seq<Byte>, i: int)
    requires |a| == |b|
  {
    0 <= i < |a| && a[..i] == b[..i] && a[i] != b[i]
  }

  predicate AtMost(a: AccountId, b: AccountId) {
    a == b || Less(a, b)
  }

  lemma {:induction false} LessTotal(a: seq<Byte>, b: seq<Byte>)
    requires |a| == |b|
    ensures Less(a, b) || a == b || Less(b, a)
    ensures !(Less(a, b) && Less(b, a)) && !Less(a, a)
  {
    if a != [] {
      LessTotal(a[1..], b[1..]);
      LessTotal(a[1..], a[1..]);
      if a[0] == b[0] && a[1..] == b[1..] {
        assert a == [a[0]] + a[1..] && b == [b[0]] + b[1..];
      }
    }
  }

  lemma {:induction false} LessTransitive(a: seq<Byte>, b: seq<Byte>, c: seq<Byte>)
    requires |a| == |b| == |c| && Less(a, b) && Less(b, c)
    ensures Less(a, c)
  {
    if a[0] == b[0] == c[0] {
      LessTransitive(a[1..], b[1..], c[1..]);
    }
  }

  lemma AtMostTransitive(a: AccountId, b: AccountId, c: AccountId)
    requires AtMost(a, b) && AtMost(b, c)
    ensures AtMost(a, c)
  {
    if a != b && b != c {
      LessTransitive(a, b, c);
    }
  }

  // ----- Sorting -----

  ghost predicate Sorted(s: seq<AccountId>) {
    forall i, j :: 0 <= i < j < |s| ==> AtMost(s[i], s[j])
  }

  function Insert(s: seq<AccountId>, x: AccountId): (r: seq<AccountId>)
    ensures multiset(r) == multiset(s) + multiset{x} && |r| == |s| + 1
  {
    if s == [] then [x]
    else if AtMost(x, s[0]) then [x] + s
    else
      assert s == [s[0]] + s[1..];
      [s[0]] + Insert(s[1..], x)
  }

  function Sort(s: seq<AccountId>): (r: seq<AccountId>)
    ensures multiset(r) == multiset(s) && |r| == |s|
  {
    if s == [] then [] else
      assert s == [s[0]] + s[1..];
      Insert(Sort(s[1..]), s[0])
  }

  lemma {:induction false} InsertKeepsSorted(s: seq<AccountId>, x: AccountId)
    requires Sorted(s)
    ensures Sorted(Insert(s, x))
  {
    if s != [] {
      var rest := s[1..];
      LessTotal(x, s[0]);
      if AtMost(x, s[0]) {
        forall j | 0 <= j < |s| ensures AtMost(x, s[j]) {
          if j > 0 { AtMostTransitive(x, s[0], s[j]); }
        }
      } else {
        InsertKeepsSorted(rest, x);
        var r := Insert(rest, x);
        forall j | 0 <= j < |r| ensures AtMost(s[0], r[j]) {
          assert r[j] in multiset(r);
          assert r[j] in multiset(rest) || r[j] == x;
        }
      }
    }
  }

  lemma {:induction false} SortSorts(s: seq<AccountId>)
    ensures Sorted(Sort(s))
  {
    if s != [] {
      SortSorts(s[1..]);
      InsertKeepsSorted(Sort(s[1..]), s[0]);
    }
  }

  // ----- Ranks -----

  /** How many entries of a list are not above an account. */
  function Rank(s: seq<AccountId>, m: AccountId): (n: nat)
    ensures n <= |s|
  {
    if s == [] then 0 else (if AtMost(s[0], m) then 1 else 0) + Rank(s[1..], m)
  }

  lemma {:induction false} RankSplit(s: seq<AccountId>, t: seq<AccountId>, m: AccountId)
    ensures Rank(s + t, m) == Rank(s, m) + Rank(t, m)
  {
    if s == [] {
      assert s + t == t;
    } else {
      assert (s + t)[1..] == s[1..] + t;
      RankSplit(s[1..], t, m);
    }
  }

  /** The rank does not depend on the order of the list. */
  lemma {:induction false} RankOrder(s: seq<AccountId>, t: seq<AccountId>, m: AccountId)
    requires multiset(s) == multiset(t)
    ensures Rank(s, m) == Rank(t, m)
    decreases |s|
  {
    if s == [] {
      assert |multiset(t)| == 0;
      assert |t| == 0;
    } else {
      assert s[0] in multiset(t);
      var i :| 0 <= i < |t| && t[i] == s[0];
      var rest, u := s[1..], t[..i] + t[i + 1..];
      assert multiset(rest) == multiset(s) - multiset{s[0]} && Rank(s, m) == Rank(rest, m) + if AtMost(s[0], m) then 1 else 0 by {
        TakeOut(s, 0, m);
        assert s[..0] + s[1..] == rest;
      }
      assert multiset(u) == multiset(t) - multiset{t[i]} && Rank(t, m) == Rank(u, m) + if AtMost(t[i], m) then 1 else 0 by {
        TakeOut(t, i, m);
      }
      RankOrder(rest, u, m);
    }
  }

  /** A list without one of its entries. */
  lemma {:induction false} TakeOut(t: seq<AccountId>, i: nat, m: AccountId)
    requires i < |t|
    ensures multiset(t[..i] + t[i + 1..]) == multiset(t) - multiset{t[i]}
    ensures Rank(t, m) == Rank(t[..i] + t[i + 1..], m) + if AtMost(t[i], m) then 1 else 0
  {
    assert t == (t[..i] + [t[i]]) + t[i + 1..];
    RankSplit(t[..i], t[i + 1..], m);
    RankSplit(t[..i] + [t[i]], t[i + 1..], m);
    RankSplit(t[..i], [t[i]], m);
  }

  // ----- Assigning seats -----

  type SeatMap = map<AccountId, nat>

  /** Every member of a list, and nobody else, has the seat of its rank, cut to 8 bits. */
  ghost predicate SeatedByRank(seats: SeatMap, s: seq<AccountId>) {
    && (forall m :: m in seats <==> m in s)
    && (forall m :: m in seats ==> seats[m] == (Rank(s, m) - 1) % 256)
  }

  /** Members get the seats of their places in the sorted list; of equal members the last place counts. */
  method NewSeatedAccounts(optMembers: seq<AccountId>) returns (seatsByAccount: SeatMap)
    ensures SeatedByRank(seatsByAccount, optMembers)
  {
    var members := Sort(optMembers);
    SortSorts(optMembers);
    seatsByAccount := map[];
    hide SeatedByRank, Sorted;
    assert SeatedByRank(map[], members[..0]) by { NobodySeated(); }
    for i := 0 to |members|
      invariant SeatedByRank(seatsByAccount, members[..i])
    {
      SeatNext(seatsByAccount, members, i);
      seatsByAccount := seatsByAccount[members[i] := i % 256];
    }
    assert members[..|members|] == members;
    SeatsOrder(seatsByAccount, members, optMembers);
  }

  lemma NobodySeated()
    ensures SeatedByRank(map[], [])
  {
  }

  lemma SeatNext(seats: SeatMap, s: seq<AccountId>, i: nat)
    requires Sorted(s) && i < |s| && SeatedByRank(seats, s[..i])
    ensures SeatedByRank(seats[s[i] := i % 256], s[..i + 1])
  {
    NextPlace(s, i);
    hide Rank, Sorted;
  }

  /** Seats do not depend on the order of the members. */
  lemma SeatsOrder(seats: SeatMap, s: seq<AccountId>, t: seq<AccountId>)
    requires multiset(s) == multiset(t) && SeatedByRank(seats, s)
    ensures SeatedByRank(seats, t)
  {
    hide Rank;
    forall m ensures m in s <==> m in t {
      assert m in multiset(s) <==> m in multiset(t);
    }
    forall m ensures Rank(s, m) == Rank(t, m) { RankOrder(s, t, m); }
  }

  /** The next member of a sorted list has all earlier ones below it and changes the rank of none of the others. */
  lemma NextPlace(s: seq<AccountId>, i: nat)
    requires Sorted(s) && i < |s|
    ensures forall m :: m in s[..i + 1] <==> m in s[..i] || m == s[i]
    ensures Rank(s[..i + 1], s[i]) == i + 1
    ensures forall m :: m in s[..i] && m != s[i] ==> Rank(s[..i + 1], m) == Rank(s[..i], m)
  {
    assert s[..i + 1] == s[..i] + [s[i]];
    AllBelow(s[..i], s[i]);
    RankSplit(s[..i], [s[i]], s[i]);
    forall m | m in s[..i] && m != s[i] ensures Rank(s[..i + 1], m) == Rank(s[..i], m) {
      RankSplit(s[..i], [s[i]], m);
      LessTotal(m, s[i]);
    }
  }

  lemma {:induction false} AllBelow(s: seq<AccountId>, m: AccountId)
    requires forall x :: x in s ==> AtMost(x, m)
    ensures Rank(s, m) == |s|
  {
    if s != [] {
      AllBelow(s[1..], m);
    }
  }

  // ----- What the seats are -----

  /** The same members in any order get the same seats. */
  lemma SeatsDoNotDependOnOrder(a: SeatMap, s: seq<AccountId>, b: SeatMap, t: seq<AccountId>)
    requires SeatedByRank(a, s) && SeatedByRank(b, t) && multiset(s) == multiset(t)
    ensures a == b
  {
    SeatsOrder(a, s, t);
  }

  ghost predicate AllDifferent(s: seq<AccountId>) {
    forall i, j :: 0 <= i < j < |s| ==> s[i] != s[j]
  }

  /** Sorting different members gives different members. */
  lemma {:induction false} SortKeepsDifferent(s: seq<AccountId>)
    requires AllDifferent(s)
    ensures AllDifferent(Sort(s)) && forall m :: m in Sort(s) <==> m in s
  {
    var t := Sort(s);
    forall m ensures m in t <==> m in s {
      assert m in multiset(t) <==> m in multiset(s);
    }
    forall i, j | 0 <= i < j < |t| ensures t[i] != t[j] {
      if t[i] == t[j] {
        TwiceInMultiset(t, i, j);
        OnceInMultiset(s, t[i]);
      }
    }
  }

  lemma TwiceInMultiset(t: seq<AccountId>, i: nat, j: nat)
    requires i < j < |t| && t[i] == t[j]
    ensures multiset(t)[t[i]] >= 2
  {
    assert t == t[..j] + t[j..];
    assert t[..j][i] in multiset(t[..j]) && t[j..][0] in multiset(t[j..]);
  }

  lemma {:induction false} OnceInMultiset(s: seq<AccountId>, m: AccountId)
    requires AllDifferent(s)
    ensures multiset(s)[m] <= 1
  {
    if s != [] {
      OnceInMultiset(s[1..], m);
      assert s == [s[0]] + s[1..];
      assert s[0] !in s[1..];
      assert s[0] !in multiset(s[1..]);
    }
  }

  /** In a sorted list of different members, the rank tells the place. */
  lemma {:induction false} RankOfPlace(t: seq<AccountId>, i: nat)
    requires Sorted(t) && AllDifferent(t) && i < |t|
    ensures Rank(t, t[i]) == i + 1
  {
    assert t == t[..i + 1] + t[i + 1..];
    RankSplit(t[..i + 1], t[i + 1..], t[i]);
    AllBelow(t[..i + 1], t[i]);
    forall x | x in t[i + 1..] ensures !AtMost(x, t[i]) {
      var j :| i + 1 <= j < |t| && t[j] == x;
      assert AtMost(t[i], t[j]) && t[i] != t[j];
      LessTotal(x, t[i]);
    }
    AllAbove(t[i + 1..], t[i]);
  }

  lemma {:induction false} AllAbove(s: seq<AccountId>, m: AccountId)
    requires forall x :: x in s ==> !AtMost(x, m)
    ensures Rank(s, m) == 0
  {
    if s != [] {
      AllAbove(s[1..], m);
    }
  }

  ghost predicate Injective(seats: SeatMap) {
    forall a, b :: a in seats && b in seats && seats[a] == seats[b] ==> a == b
  }

  ghost predicate Taken(seats: SeatMap, k: nat) {
    exists m :: m in seats && seats[m] == k
  }

  /** The member at a place of the sorted list has the seat with that number. */
  lemma {:induction false} SeatOfPlace(seats: SeatMap, s: seq<AccountId>, i: nat)
    requires AllDifferent(s) && SeatedByRank(seats, s) && i < |s|
    ensures Sort(s)[i] in seats && seats[Sort(s)[i]] == i % 256
  {
    hide Sort, AllDifferent, Sorted, Rank;
    var t := Sort(s);
    SortSorts(s);
    SortKeepsDifferent(s);
    RankOfPlace(t, i);
    RankOrder(t, s, t[i]);
  }

  /** Up to 256 different members have the seats from 0 on, each exactly once. */
  lemma SeatsAreBijection(seats: SeatMap, s: seq<AccountId>)
    requires AllDifferent(s) && SeatedByRank(seats, s) && |s| <= 256
    ensures Injective(seats)
    ensures forall k: nat :: Taken(seats, k) <==> k < |s|
  {
    hide SeatedByRank, Sort, AllDifferent, Injective, Taken;
    var t := Sort(s);
    SortedMembers(seats, s);
    forall i | 0 <= i < |t| ensures seats[t[i]] == i { SeatOfPlace(seats, s, i); }
    PlacesAreBijection(seats, t);
  }

  lemma {:induction false} SortedMembers(seats: SeatMap, s: seq<AccountId>)
    requires AllDifferent(s) && SeatedByRank(seats, s)
    ensures |Sort(s)| == |s| && forall m :: m in seats <==> m in Sort(s)
  {
    SortKeepsDifferent(s);
  }

  lemma PlacesAreBijection(seats: SeatMap, t: seq<AccountId>)
    requires (forall m :: m in seats <==> m in t) && forall i :: 0 <= i < |t| ==> seats[t[i]] == i
    ensures Injective(seats)
    ensures forall k: nat :: Taken(seats, k) <==> k < |t|
  {
    forall k: nat ensures Taken(seats, k) <==> k < |t| {
      if k < |t| {
        assert t[k] in seats && seats[t[k]] == k;
      }
    }
  }

  /** Different members have different seats exactly when there are at most 256 of them. */
  lemma DifferentSeatsIff(seats: SeatMap, s: seq<AccountId>)
    requires AllDifferent(s) && SeatedByRank(seats, s)
    ensures Injective(seats) <==> |s| <= 256
  {
    if |s| <= 256 {
      SeatsAreBijection(seats, s);
    } else {
      SeatOfPlace(seats, s, 0);
      SeatOfPlace(seats, s, 256);
      SortKeepsDifferent(s);
      assert Sort(s)[0] != Sort(s)[256];
    }
  }

  /** How many entries of a list lie above one account and not above another. */
  function Between(s: seq<AccountId>, a: AccountId, b: AccountId): (n: nat)
    ensures n <= |s|
  {
    if s == [] then 0 else (if !AtMost(s[0], a) && AtMost(s[0], b) then 1 else 0) + Between(s[1..], a, b)
  }

  lemma {:induction false} RankBetween(s: seq<AccountId>, a: AccountId, b: AccountId)
    requires Less(a, b)
    ensures Rank(s, b) == Rank(s, a) + Between(s, a, b)
    ensures b in s ==> Between(s, a, b) > 0
    ensures a in s ==> Rank(s, a) > 0
  {
    if s != [] {
      RankBetween(s[1..], a, b);
      LessTotal(a, b);
      assert AtMost(s[0], a) ==> AtMost(s[0], b) by {
        if AtMost(s[0], a) { AtMostTransitive(s[0], a, b); }
      }
    }
  }

  /** Whatever the list, also with repeats: two members share a seat exactly when the number of entries from the one up to
      the other is a multiple of 256. */
  lemma {:induction false} SeatsUniqueIff(seats: SeatMap, s: seq<AccountId>)
    requires SeatedByRank(seats, s)
    ensures Injective(seats) <==> forall a, b :: a in s && b in s && Less(a, b) ==> Between(s, a, b) % 256 != 0
  {
    assert forall m :: m in seats <==> m in s;
    hide SeatedByRank, Less, Between;
    forall a, b | a in s && b in s && Less(a, b) ensures a != b && (seats[a] == seats[b] <==> Between(s, a, b) % 256 == 0) {
      SeatsOfTwo(seats, s, a, b);
    }
    forall a, b | a in seats && b in seats && a != b ensures Less(a, b) || Less(b, a) { LessTotal(a, b); }
  }

  lemma {:induction false} SeatsOfTwo(seats: SeatMap, s: seq<AccountId>, a: AccountId, b: AccountId)
    requires SeatedByRank(seats, s) && a in s && b in s && Less(a, b)
    ensures a != b && a in seats && b in seats && (seats[a] == seats[b] <==> Between(s, a, b) % 256 == 0)
  {
    RankBetween(s, a, b);
    SameRemainder(Rank(s, a) - 1, Between(s, a, b));
    LessTotal(a, b);
  }

  lemma SameRemainder(n: nat, d: nat)
    ensures n % 256 == (n + d) % 256 <==> d % 256 == 0
  {
  }

  /** Any list of at most 256 entries gives its members different seats. */
  lemma SmallCommitteesHaveUniqueSeats(seats: SeatMap, s: seq<AccountId>)
    requires SeatedByRank(seats, s) && |s| <= 256
    ensures Injective(seats)
  {
    forall a, b | a in s && b in s && Less(a, b) ensures Between(s, a, b) % 256 != 0 {
      RankBetween(s, a, b);
    }
    SeatsUniqueIff(seats, s);
  }

  /** In a committee of at most 256 entries the member with the lower ID has the lower seat. */
  lemma {:induction false} SeatsFollowOrder(seats: SeatMap, s: seq<AccountId>, a: AccountId, b: AccountId)
    requires SeatedByRank(seats, s) && |s| <= 256 && a in s && b in s
    ensures a in seats && b in seats && (seats[a] < seats[b] <==> Less(a, b))
  {
    hide Less, Between;
    LessTotal(a, b);
    if Less(a, b) {
      RankBetween(s, a, b);
    } else if Less(b, a) {
      RankBetween(s, b, a);
    }
  }

  // ----- A committee that is too big, and a seat that is taken -----

  /** Accounts that differ in their last two bytes. */
  function Member(i: nat): AccountId
    requires i < 0x1_0000
  {
    seq(32, k requires 0 <= k < 32 => if k == 30 then (i / 256) as Byte else if k == 31 then (i % 256) as Byte else 0)
  }

  function Members(n: nat): (s: seq<AccountId>)
    requires n <= 0x1_0000
    ensures |s| == n && forall i :: 0 <= i < n ==> s[i] == Member(i)
  {
    if n == 0 then [] else Members(n - 1) + [Member(n - 1)]
  }

  /** Of 257 different members, two share a seat. */
  lemma TooManyMembers(seats: SeatMap)
    requires SeatedByRank(seats, Members(257))
    ensures !Injective(seats)
  {
    var s := Members(257);
    forall i, j | 0 <= i < j < |s| ensures s[i] != s[j] {
      assert s[i][30] == (i / 256) as Byte && s[i][31] == (i % 256) as Byte;
      assert s[j][30] == (j / 256) as Byte && s[j][31] == (j % 256) as Byte;
    }
    DifferentSeatsIff(seats, s);
  }

  /** A seat that one account has can be given to another one. */
  lemma SeatGivenTwice()
    ensures var seats := map[Member(0) := 0]; Injective(seats) && !Injective(seats[Member(1) := 0])
  {
    var seats := map[Member(0) := 0];
    assert Member(0)[31] == 0 && Member(1)[31] == 1;
    var u := seats[Member(1) := 0];
    assert Member(0) in u && Member(1) in u && u[Member(0)] == u[Member(1)];
  }

  // ----- Changing seats -----

  class SeatedAccounts {
    const accounts: Accounts
    var seatsByAccount: SeatMap

    constructor (accounts: Accounts, optMembers: seq<AccountId>)
      ensures this.accounts == accounts && SeatedByRank(seatsByAccount, optMembers)
    {
      var seats := NewSeatedAccounts(optMembers);
      this.accounts, seatsByAccount := accounts, seats;
    }

    /** Only known accounts get a seat, and none moves to another one. */
    method Set(seat: nat, id: AccountId) returns (ok: bool)
      requires seat < 256
      modifies this
      ensures ok == (id in accounts.accountPools && (id in old(seatsByAccount) ==> old(seatsByAccount)[id] == seat))
      ensures seatsByAccount == if ok then old(seatsByAccount)[id := seat] else old(seatsByAccount)
    {
      if id !in accounts.accountPools {
        return false;
      }
      if id in seatsByAccount && seatsByAccount[id] != seat {
        return false;
      }
      seatsByAccount := seatsByAccount[id := seat];
      ok := true;
    }

    method Delete(id: AccountId) returns (deleted: bool)
      modifies this
      ensures deleted == (id in old(seatsByAccount)) && seatsByAccount == old(seatsByAccount) - {id}
    {
      deleted := id in seatsByAccount;
      seatsByAccount := seatsByAccount - {id};
    }

    /** The accounts that have a seat, with their pools and their totals. */
    method SeatedPools() returns (a: Accounts)
      requires forall id :: id in seatsByAccount ==> id in accounts.accountPools
      ensures a.Valid() && a.accountPools == map id | id in seatsByAccount :: accounts.accountPools[id]
    {
      a := new Accounts();
      var ids := seatsByAccount.Keys;
      while ids != {}
        invariant ids <= seatsByAccount.Keys && fresh(a) && a.Valid()
        invariant a.accountPools == map id | id in seatsByAccount && id !in ids :: accounts.accountPools[id]
        decreases ids
      {
        var id :| id in ids;
        a.Set(id, accounts.accountPools[id]);
        ids := ids - {id};
      }
    }
  }

  /** Giving a seat to an account keeps the seats unique exactly when nobody else has it. */
  lemma SetKeepsUniqueIff(seats: SeatMap, id: AccountId, seat: nat)
    requires Injective(seats) && (id in seats ==> seats[id] == seat)
    ensures Injective(seats[id := seat]) <==> forall m :: m in seats && m != id ==> seats[m] != seat
  {
    var u := seats[id := seat];
    assert forall m :: m in seats && m != id ==> m in u && u[m] == seats[m];
    assert id in u && u[id] == seat;
  }
}
