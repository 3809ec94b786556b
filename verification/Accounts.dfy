/**
 The accounts of a committee with their pools: running totals and the byte encoding.
 */
module Accounts {
  import opened Options

  type Byte = b: nat | b < 256
  type Uint64 = n: nat | n < 0x1_0000_0000_0000_0000 witness 0

  const UINT64: nat := 0x1_0000_0000_0000_0000
  const UINT32: nat := 0x1_0000_0000
  const ACCOUNT_ID_LENGTH: nat := 32
  const POOL_LENGTH: nat := 24

  type AccountId = id: seq<Byte> | |id| == ACCOUNT_ID_LENGTH witness seq(ACCOUNT_ID_LENGTH, i => 0)

  /** The stake of a pool with its delegators, the validator's own stake and its fixed cost. */
  datatype Pool = Pool(poolStake: Uint64, validatorStake: Uint64, fixedCost: Uint64)

  // ----- Little-endian numbers -----

  function Encode(n: nat, length: nat): (b: seq<Byte>)
    ensures |b| == length
  {
    if length == 0 then [] else [n % 256] + Encode(n / 256, length - 1)
  }

  function Decode(b: seq<Byte>): nat {
    if b == [] then 0 else b[0] + 256 * Decode(b[1..])
  }

  function Power(length: nat): nat {
    if length == 0 then 1 else 256 * Power(length - 1)
  }

  lemma {:induction false} DecodeEncode(n: nat, length: nat)
    requires n < Power(length)
    ensures Decode(Encode(n, length)) == n
  {
    if length > 0 {
      DecodeEncode(n / 256, length - 1);
      assert Encode(n, length)[1..] == Encode(n / 256, length - 1);
    }
  }

  /** The bytes of a number, the least significant one first. */
  lemma {:induction false} EncodeAt(n: nat, length: nat, i: nat)
    requires i < length
    ensures Power(i) > 0 && Encode(n, length)[i] == n / Power(i) % 256
    decreases i
  {
    if i > 0 {
      EncodeAt(n / 256, length - 1, i - 1);
      DivideTwice(n, Power(i - 1));
    }
  }

  lemma DivideTwice(n: nat, k: nat)
    requires k > 0
    ensures n / 256 / k == n / (256 * k)
  {
    var q, r := n / (256 * k), n % (256 * k);
    assert n == 256 * k * q + r;
    assert 256 * k * q == 256 * (k * q);
    var m := n / 256;
    assert k * q <= m < k * q + k;
    QuotientIs(m, k, q);
  }

  lemma QuotientIs(m: nat, k: nat, q: nat)
    requires k > 0 && k * q <= m < k * q + k
    ensures m / k == q
  {
    var d := m / k - q;
    assert m == k * (m / k) + m % k;
    assert k * (m / k) == k * q + k * d;
    assert 0 - k < k * d < k;
  }

  lemma Widths()
    ensures Power(4) == UINT32 && Power(8) == UINT64
  {
    assert Power(2) == 65536;
    assert Power(4) == 65536 * 65536;
    assert Power(6) == 65536 * Power(4);
  }

  // ----- Pools and accounts as bytes -----

  function PoolBytes(p: Pool): (b: seq<Byte>)
    ensures |b| == POOL_LENGTH
  {
    Encode(p.poolStake, 8) + Encode(p.validatorStake, 8) + Encode(p.fixedCost, 8)
  }

  lemma {:induction false} DecodeBounded(b: seq<Byte>)
    ensures Decode(b) < Power(|b|)
  {
    if b != [] {
      DecodeBounded(b[1..]);
    }
  }

  /** A pool from exactly as many bytes as it takes. */
  function PoolFromBytes(b: seq<Byte>): Pool
    requires |b| == POOL_LENGTH
  {
    DecodeBounded(b[..8]);
    DecodeBounded(b[8..16]);
    DecodeBounded(b[16..]);
    Widths();
    Pool(Decode(b[..8]), Decode(b[8..16]), Decode(b[16..]))
  }

  lemma PoolRoundTrip(p: Pool)
    ensures PoolFromBytes(PoolBytes(p)) == p
  {
    Widths();
    DecodeEncode(p.poolStake, 8);
    DecodeEncode(p.validatorStake, 8);
    DecodeEncode(p.fixedCost, 8);
    var b := PoolBytes(p);
    assert b[..8] == Encode(p.poolStake, 8) && b[8..16] == Encode(p.validatorStake, 8) && b[16..] == Encode(p.fixedCost, 8);
  }

  /** The pool's stake comes first, then the validator's own and then the fixed cost, each in eight bytes. */
  lemma PoolLayout(p: Pool, i: nat)
    requires i < 8
    ensures Power(i) > 0 && PoolBytes(p)[i] == p.poolStake / Power(i) % 256
    ensures PoolBytes(p)[8 + i] == p.validatorStake / Power(i) % 256 && PoolBytes(p)[16 + i] == p.fixedCost / Power(i) % 256
  {
    EncodeAt(p.poolStake, 8, i);
    EncodeAt(p.validatorStake, 8, i);
    EncodeAt(p.fixedCost, 8, i);
  }

  type Pools = map<AccountId, Pool>

  /** The encoded accounts of a list, in its order. */
  function EntriesBytes(order: seq<AccountId>, pools: Pools): seq<Byte>
    requires forall id :: id in order ==> id in pools
  {
    if order == [] then [] else order[0] + PoolBytes(pools[order[0]]) + EntriesBytes(order[1..], pools)
  }

  /** A list that walks a map: every account, and none twice. */
  ghost predicate Walks(order: seq<AccountId>, pools: Pools) {
    && (forall id :: id in order <==> id in pools)
    && (forall i, j :: 0 <= i < j < |order| ==> order[i] != order[j])
  }

  /** The whole encoding when the map is walked in the given order. The number of accounts is cut to 32 bits. */
  function AccountsBytes(order: seq<AccountId>, pools: Pools, reused: bool): seq<Byte>
    requires forall id :: id in order ==> id in pools
  {
    Encode(|pools| % 0x1_0000_0000, 4) + EntriesBytes(order, pools) + [if reused then 1 else 0]
  }

  lemma {:induction false} EntryBytesAt(order: seq<AccountId>, pools: Pools, i: nat)
    requires (forall id :: id in order ==> id in pools) && i < |order|
    ensures |EntriesBytes(order, pools)| == 56 * |order|
    ensures EntriesBytes(order, pools)[56 * i..56 * i + 32] == order[i]
    ensures EntriesBytes(order, pools)[56 * i + 32..56 * i + 56] == PoolBytes(pools[order[i]])
  {
    var first, rest := order[0] + PoolBytes(pools[order[0]]), EntriesBytes(order[1..], pools);
    var b := EntriesBytes(order, pools);
    assert b == first + rest && |first| == 56;
    if |order| > 1 {
      EntryBytesAt(order[1..], pools, if i == 0 then 0 else i - 1);
    } else {
      assert order[1..] == [];
    }
    if i == 0 {
      assert b[0..32] == order[0] && b[32..56] == PoolBytes(pools[order[0]]);
    } else {
      assert b[56 * i..56 * i + 32] == rest[56 * (i - 1)..56 * (i - 1) + 32];
      assert b[56 * i + 32..56 * i + 56] == rest[56 * (i - 1) + 32..56 * (i - 1) + 56];
    }
  }

  /** Four bytes for the number of accounts, then 56 bytes for each of them, its ID before its pool, and a last byte for the flag. */
  lemma {:induction false} AccountsLayout(order: seq<AccountId>, pools: Pools, reused: bool, i: nat)
    requires Walks(order, pools) && |pools| < UINT32
    ensures var b := AccountsBytes(order, pools, reused);
            && |b| == 5 + 56 * |order| && b[..4] == Encode(|order|, 4) && b[|b| - 1] == (if reused then 1 else 0)
            && (i < |order| ==> b[4 + 56 * i..36 + 56 * i] == order[i] && b[36 + 56 * i..60 + 56 * i] == PoolBytes(pools[order[i]]))
  {
    hide PoolBytes, Encode, EntriesBytes, AccountsBytes;
    WalkLength(order, pools);
    var count, entries, flag: seq<Byte> := Encode(|order|, 4), EntriesBytes(order, pools), [if reused then 1 else 0];
    ThreeParts(order, pools, reused);
    if order == [] {
      NoEntries(pools);
    } else {
      EntryBytesAt(order, pools, if i < |order| then i else 0);
    }
    assert |entries| == 56 * |order|;
    if i < |order| {
      Middle(count, entries, flag, 56 * i, 56 * i + 32);
      Middle(count, entries, flag, 56 * i + 32, 56 * i + 56);
    }
  }

  lemma {:induction false} ThreeParts(order: seq<AccountId>, pools: Pools, reused: bool)
    requires (forall id :: id in order ==> id in pools) && |pools| < UINT32 && |order| == |pools|
    ensures AccountsBytes(order, pools, reused) == Encode(|order|, 4) + EntriesBytes(order, pools) + [if reused then 1 else 0]
  {
    hide Encode, EntriesBytes;
  }

  lemma {:induction false} NoEntries(pools: Pools)
    ensures EntriesBytes([], pools) == []
  {
  }

  lemma Middle(a: seq<Byte>, b: seq<Byte>, c: seq<Byte>, i: nat, j: nat)
    requires i <= j <= |b|
    ensures (a + b + c)[|a| + i..|a| + j] == b[i..j]
  {
  }

  datatype Entries = Entries(pools: Pools, rest: seq<Byte>)

  /** Reads a number of accounts; a repeated account replaces the former one. */
  function ReadEntries(b: seq<Byte>, count: nat, pools: Pools): (r: Option<Entries>)
    ensures r.Some? ==> |r.value.rest| <= |b|
    decreases count
  {
    if count == 0 then Some(Entries(pools, b))
    else if |b| < ACCOUNT_ID_LENGTH + POOL_LENGTH then None
    else
      ReadEntries(b[ACCOUNT_ID_LENGTH + POOL_LENGTH..], count - 1,
                  pools[b[..ACCOUNT_ID_LENGTH] := PoolFromBytes(b[ACCOUNT_ID_LENGTH..ACCOUNT_ID_LENGTH + POOL_LENGTH])])
  }

  datatype Decoded = Decoded(pools: Pools, reused: bool, consumed: nat)

  /** The flag follows the entries. */
  function ReadFlag(length: nat, e: Option<Entries>): Option<Decoded>
    requires e.Some? ==> |e.value.rest| <= length
  {
    if e.None? || e.value.rest == [] then None
    else Some(Decoded(e.value.pools, e.value.rest[0] != 0, length - |e.value.rest| + 1))
  }

  function AccountsFromBytes(b: seq<Byte>): Option<Decoded> {
    if |b| < 4 then None else ReadFlag(|b|, ReadEntries(b[4..], Decode(b[..4]), map[]))
  }

  lemma {:induction false} ReadEntriesIff(b: seq<Byte>, count: nat, pools: Pools)
    ensures ReadEntries(b, count, pools).Some? <==> |b| >= 56 * count
    ensures ReadEntries(b, count, pools).Some? ==> ReadEntries(b, count, pools).value.rest == b[56 * count..]
    decreases count
  {
    if count > 0 && |b| >= 56 {
      var id, pool := b[..32], PoolFromBytes(b[32..56]);
      ReadEntriesIff(b[56..], count - 1, pools[id := pool]);
    }
  }

  /** Any bytes can be decoded exactly when they are as many as the number of accounts at their start calls for; the flag is set
      exactly when the byte after the accounts is not zero, and what follows that byte is not consumed. */
  lemma DecodesIff(b: seq<Byte>)
    ensures AccountsFromBytes(b).Some? <==> |b| >= 4 && |b| >= 5 + 56 * Decode(b[..4])
    ensures AccountsFromBytes(b).Some? ==>
              var d, count := AccountsFromBytes(b).value, Decode(b[..4]); d.consumed == 5 + 56 * count && (d.reused <==> b[4 + 56 * count] != 0)
  {
    if |b| >= 4 {
      ReadEntriesIff(b[4..], Decode(b[..4]), map[]);
    }
  }

  /** The account ID and the pool of an encoded entry. */
  function EntryId(b: seq<Byte>, i: nat): AccountId
    requires |b| >= 56 * i + 56
  {
    b[56 * i..56 * i + 32]
  }

  function EntryPool(b: seq<Byte>, i: nat): Pool
    requires |b| >= 56 * i + 56
  {
    PoolFromBytes(b[56 * i + 32..56 * i + 56])
  }

  /** The pool of the last of the first entries that is for the given account. */
  function LastEntry(b: seq<Byte>, count: nat, id: AccountId): Option<Pool>
    requires |b| >= 56 * count
  {
    if count == 0 then None
    else if EntryId(b, count - 1) == id then Some(EntryPool(b, count - 1))
    else LastEntry(b, count - 1, id)
  }

  lemma {:induction false} LastEntryFromFirst(b: seq<Byte>, count: nat, id: AccountId)
    requires count > 0 && |b| >= 56 * count
    ensures LastEntry(b, count, id) ==
            if LastEntry(b[56..], count - 1, id).Some? then LastEntry(b[56..], count - 1, id)
            else if EntryId(b, 0) == id then Some(EntryPool(b, 0)) else None
  {
    hide EntryId, EntryPool;
    if count > 1 {
      LastEntryFromFirst(b, count - 1, id);
      NextEntry(b, count - 2);
    }
  }

  lemma NextEntry(b: seq<Byte>, i: nat)
    requires |b| >= 56 * i + 112
    ensures EntryId(b[56..], i) == EntryId(b, i + 1) && EntryPool(b[56..], i) == EntryPool(b, i + 1)
  {
    hide PoolFromBytes;
    assert b[56..][56 * i + 32..56 * i + 56] == b[56 * (i + 1) + 32..56 * (i + 1) + 56];
  }

  /** Exactly the accounts with an entry are read, and of several entries for one account the last one is kept. */
  lemma {:induction false} LastEntryWins(b: seq<Byte>, count: nat, pools: Pools, id: AccountId)
    requires |b| >= 56 * count
    ensures var r, last := ReadEntries(b, count, pools), LastEntry(b, count, id);
            && r.Some? && (id in r.value.pools <==> last.Some? || id in pools)
            && (id in r.value.pools ==> r.value.pools[id] == if last.Some? then last.value else pools[id])
    decreases count
  {
    hide PoolFromBytes, LastEntry;
    if count > 0 {
      assert EntryId(b, 0) == b[..32] && EntryPool(b, 0) == PoolFromBytes(b[32..56]);
      LastEntryFromFirst(b, count, id);
      LastEntryWins(b[56..], count - 1, pools[b[..32] := PoolFromBytes(b[32..56])], id);
    } else {
      NoEntry(b, id);
    }
  }

  lemma {:induction false} NoEntry(b: seq<Byte>, id: AccountId)
    ensures LastEntry(b, 0, id) == None
  {
  }

  /** A map with the pools of a list of accounts added one by one. */
  function WithPools(before: Pools, order: seq<AccountId>, pools: Pools): (r: Pools)
    requires forall id :: id in order ==> id in pools
    ensures forall id :: id in r <==> id in before || id in order
    ensures forall id :: id in r ==> r[id] == if id in order then pools[id] else before[id]
    decreases |order|
  {
    if order == [] then before else WithPools(before[order[0] := pools[order[0]]], order[1..], pools)
  }

  /** Reading what was written for a list of accounts adds exactly these accounts. */
  lemma {:induction false} ReadWrittenEntries(order: seq<AccountId>, pools: Pools, rest: seq<Byte>, before: Pools)
    requires forall id :: id in order ==> id in pools
    ensures ReadEntries(EntriesBytes(order, pools) + rest, |order|, before) == Some(Entries(WithPools(before, order, pools), rest))
    decreases |order|
  {
    hide PoolBytes, PoolFromBytes;
    if order == [] {
      assert EntriesBytes(order, pools) + rest == rest;
    } else {
      var id, tail := order[0], order[1..];
      var p, more := PoolBytes(pools[id]), EntriesBytes(tail, pools) + rest;
      var b := EntriesBytes(order, pools) + rest;
      assert b == id + p + more;
      assert b[..ACCOUNT_ID_LENGTH] == id && b[ACCOUNT_ID_LENGTH..ACCOUNT_ID_LENGTH + POOL_LENGTH] == p;
      assert b[ACCOUNT_ID_LENGTH + POOL_LENGTH..] == more;
      PoolRoundTrip(pools[id]);
      ReadWrittenEntries(tail, pools, rest, before[id := pools[id]]);
    }
  }

  lemma Parts(count: seq<Byte>, entries: seq<Byte>, flag: Byte, rest: seq<Byte>)
    requires |count| == 4
    ensures var b := count + entries + [flag] + rest; b[..4] == count && b[4..] == entries + ([flag] + rest)
  {
  }

  /** For every order in which the map is walked, decoding gives back the pools and the flag and consumes exactly the encoding. */
  lemma AccountsRoundTrip(order: seq<AccountId>, pools: Pools, reused: bool, rest: seq<Byte>)
    requires Walks(order, pools) && |pools| < UINT32
    ensures var b := AccountsBytes(order, pools, reused);
            AccountsFromBytes(b + rest) == Some(Decoded(pools, reused, |b|))
  {
    hide Encode, Decode, ReadEntries, EntriesBytes;
    var count, entries, flag: Byte := Encode(|pools|, 4), EntriesBytes(order, pools), if reused then 1 else 0;
    var b := count + entries + [flag] + rest;
    assert b == AccountsBytes(order, pools, reused) + rest;
    assert Decode(count) == |pools| by {
      Widths();
      DecodeEncode(|pools|, 4);
    }
    assert ReadEntries(entries + ([flag] + rest), |pools|, map[]) == Some(Entries(pools, [flag] + rest)) by {
      ReadWalkedEntries(order, pools, [flag] + rest);
    }
    Parts(count, entries, flag, rest);
  }

  lemma {:induction false} ReadWalkedEntries(order: seq<AccountId>, pools: Pools, rest: seq<Byte>)
    requires Walks(order, pools)
    ensures ReadEntries(EntriesBytes(order, pools) + rest, |pools|, map[]) == Some(Entries(pools, rest))
  {
    hide ReadEntries, EntriesBytes;
    WalkLength(order, pools);
    ReadWrittenEntries(order, pools, rest, map[]);
    assert WithPools(map[], order, pools) == pools;
  }

  lemma {:induction false} WalkLength(order: seq<AccountId>, pools: Pools)
    requires Walks(order, pools)
    ensures |order| == |pools|
    decreases |order|
  {
    if order == [] {
      assert pools == map[];
    } else {
      var rest := pools - {order[0]};
      assert Walks(order[1..], rest) by {
        assert forall id :: id in order[1..] ==> id in order && id != order[0];
        forall id | id in rest ensures id in order[1..] {
          var i :| 0 <= i < |order| && order[i] == id;
          assert order[1..][i - 1] == id;
        }
      }
      WalkLength(order[1..], rest);
      assert rest.Keys == pools.Keys - {order[0]};
      assert |pools.Keys| == |pools| && |rest.Keys| == |rest|;
    }
  }

  // ----- Running totals -----

  /** The stake of a pool, or only the validator's own. */
  function Part(p: Pool, own: bool): nat {
    if own then p.validatorStake else p.poolStake
  }

  ghost function Pick(pools: Pools): (id: AccountId)
    requires pools != map[]
    ensures id in pools
  {
    var id :| id in pools;
    id
  }

  /** The sum over all pools. */
  ghost function Total(pools: Pools, own: bool): nat
    decreases |pools|
  {
    if pools == map[] then 0 else
      var id := Pick(pools);
      assert (pools - {id}).Keys == pools.Keys - {id} && |pools.Keys| == |pools| && |(pools - {id}).Keys| == |pools - {id}|;
      Part(pools[id], own) + Total(pools - {id}, own)
  }

  /** The sum does not depend on the order of the pools. */
  lemma {:induction false} TotalWithout(pools: Pools, own: bool, id: AccountId)
    requires id in pools
    ensures Total(pools, own) == Part(pools[id], own) + Total(pools - {id}, own)
    decreases |pools|
  {
    var x := Pick(pools);
    if x != id {
      var a, b := pools - {x}, pools - {id};
      assert |pools.Keys| == |pools| && |a.Keys| == |a| && |b.Keys| == |b|;
      assert a.Keys == pools.Keys - {x} && b.Keys == pools.Keys - {id};
      TotalWithout(a, own, id);
      TotalWithout(b, own, x);
      assert a - {id} == b - {x};
    }
  }

  /** Setting a pool exchanges its stake in the sum, or the validator's own stake. */
  lemma TotalUpdate(pools: Pools, own: bool, id: AccountId, pool: Pool)
    ensures var before := if id !in pools then 0 else if own then pools[id].validatorStake else pools[id].poolStake;
            Total(pools[id := pool], own) + before == Total(pools, own) + if own then pool.validatorStake else pool.poolStake
    ensures Total(map[], own) == 0
  {
    var u := pools[id := pool];
    TotalWithout(u, own, id);
    assert u - {id} == pools - {id};
    if id in pools {
      TotalWithout(pools, own, id);
    } else {
      assert pools - {id} == pools;
    }
  }

  /** Unsigned 64-bit numbers wrap around. */
  function Wrap(n: int): Uint64 {
    n % 0x1_0000_0000_0000_0000
  }

  lemma WrapAgain(n: int, k: int)
    ensures Wrap(Wrap(n) + k) == Wrap(n + k)
  {
  }

  class Accounts {
    var accountPools: Pools
    var totalStake: Uint64
    var totalValidatorStake: Uint64
    var reused: bool

    /** The running totals are the sums over the stored pools, as far as they fit. */
    ghost predicate Valid()
      reads this
    {
      totalStake == Wrap(Total(accountPools, false)) && totalValidatorStake == Wrap(Total(accountPools, true))
    }

    constructor ()
      ensures Valid() && accountPools == map[] && !reused
    {
      accountPools, totalStake, totalValidatorStake, reused := map[], 0, 0, false;
    }

    /** Inserts or replaces a pool. */
    method Set(id: AccountId, pool: Pool)
      requires Valid()
      modifies this`accountPools, this`totalStake, this`totalValidatorStake
      ensures Valid() && accountPools == old(accountPools)[id := pool]
    {
      TotalUpdate(accountPools, false, id, pool);
      TotalUpdate(accountPools, true, id, pool);
      hide Wrap, Total;
      ghost var t: int, v: int := Total(accountPools, false), Total(accountPools, true);
      if id in accountPools {
        var value := accountPools[id];
        WrapAgain(t, -(value.poolStake as int));
        WrapAgain(v, -(value.validatorStake as int));
        totalStake := Wrap(totalStake - value.poolStake);
        totalValidatorStake := Wrap(totalValidatorStake - value.validatorStake);
        t, v := t - value.poolStake, v - value.validatorStake;
      }
      accountPools := accountPools[id := pool];
      WrapAgain(t, pool.poolStake);
      WrapAgain(v, pool.validatorStake);
      totalStake := Wrap(totalStake + pool.poolStake);
      totalValidatorStake := Wrap(totalValidatorStake + pool.validatorStake);
    }

    /** The encoding, in the arbitrary order of a map. */
    method Bytes() returns (b: seq<Byte>)
      ensures exists order :: Walks(order, accountPools) && b == AccountsBytes(order, accountPools, reused)
    {
      var entries: seq<Byte> := [];
      ghost var order: seq<AccountId> := [];
      var ids := accountPools.Keys;
      while ids != {}
        invariant ids <= accountPools.Keys && (forall id :: id in order <==> id in accountPools && id !in ids)
        invariant forall i, j :: 0 <= i < j < |order| ==> order[i] != order[j]
        invariant entries == EntriesBytes(order, accountPools)
        decreases ids
      {
        var id :| id in ids;
        EntriesNext(order, accountPools, id);
        entries := entries + (id + PoolBytes(accountPools[id]));
        order := order + [id];
        ids := ids - {id};
      }
      b := Encode(|accountPools| % 0x1_0000_0000, 4) + entries + [if reused then 1 else 0];
      assert Walks(order, accountPools) && b == AccountsBytes(order, accountPools, reused);
    }
  }

  lemma {:induction false} EntriesNext(order: seq<AccountId>, pools: Pools, id: AccountId)
    requires (forall i :: i in order ==> i in pools) && id in pools
    ensures EntriesBytes(order + [id], pools) == EntriesBytes(order, pools) + (id + PoolBytes(pools[id]))
    decreases |order|
  {
    if order == [] {
      assert (order + [id])[1..] == [];
    } else {
      assert (order + [id])[1..] == order[1..] + [id];
      EntriesNext(order[1..], pools, id);
    }
  }

  /** Reads accounts from bytes; the totals are those of the accounts that were read. */
  method ReadAccounts(b: seq<Byte>) returns (ok: bool, a: Accounts, n: nat)
    ensures ok <==> AccountsFromBytes(b).Some?
    ensures ok ==> a.Valid() && Decoded(a.accountPools, a.reused, n) == AccountsFromBytes(b).value
    ensures fresh(a)
  {
    a := new Accounts();
    n, ok := 0, false;
    if |b| < 4 {
      return;
    }
    var count, rest := Decode(b[..4]), b[4..];
    var i := 0;
    while i < count
      invariant i <= count && a.Valid() && fresh(a) && |rest| <= |b| - 4
      invariant ReadEntries(b[4..], count, map[]) == ReadEntries(rest, count - i, a.accountPools)
    {
      if |rest| < ACCOUNT_ID_LENGTH + POOL_LENGTH {
        return;
      }
      var pool := PoolFromBytes(rest[ACCOUNT_ID_LENGTH..ACCOUNT_ID_LENGTH + POOL_LENGTH]);
      a.Set(rest[..ACCOUNT_ID_LENGTH], pool);
      rest := rest[ACCOUNT_ID_LENGTH + POOL_LENGTH..];
      i := i + 1;
    }
    if rest == [] {
      return;
    }
    a.reused := rest[0] != 0;
    n := |b| - |rest| + 1;
    ok := true;
  }
}
