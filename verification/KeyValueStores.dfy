/**
 Realm views over one replaceable database instance, and batched mutations made through a view.
 */
module KeyValueStores {

  type Key = seq<bv8>
  type Value = seq<bv8>
  type Contents = map<Key, Value>

  /** The part of a database below a prefix, with the prefix removed from its keys. */
  ghost function Sub(data: Contents, prefix: Key): Contents {
    map k | k in Suffixes(data, prefix) :: data[prefix + k]
  }

  /** The keys of that part. */
  ghost function Suffixes(data: Contents, prefix: Key): (ks: set<Key>)
    ensures forall k :: k in ks <==> prefix + k in data
  {
    var ks := set q | q in data && prefix <= q :: q[|prefix|..];
    assert forall q :: prefix <= q ==> prefix + q[|prefix|..] == q;
    assert forall k :: k in ks ==> exists q :: q in data && prefix <= q && q[|prefix|..] == k;
    assert forall k :: prefix + k in data ==> (prefix + k)[|prefix|..] == k;
    ks
  }

  lemma SubAt(data: Contents, prefix: Key, k: Key)
    ensures k in Sub(data, prefix) <==> prefix + k in data
    ensures k in Sub(data, prefix) ==> Sub(data, prefix)[k] == data[prefix + k]
  {
  }

  /** A view of a view is the view of the extended realm. */
  lemma SubOfSub(data: Contents, prefix: Key, realm: Key)
    ensures Sub(Sub(data, prefix), realm) == Sub(data, prefix + realm)
  {
    assert forall k :: prefix + (realm + k) == (prefix + realm) + k;
  }

  /** Nothing outside a prefix differs. */
  ghost predicate SameOutside(data: Contents, prefix: Key, other: Contents) {
    forall q: Key :: !(prefix <= q) ==> (q in data <==> q in other) && (q in data ==> data[q] == other[q])
  }

  // ----- Mutations -----

  datatype Mutation = Set(key: Key, value: Value) | Delete(key: Key)

  function Apply(data: Contents, m: Mutation): Contents {
    match m
    case Set(key, value) => data[key := value]
    case Delete(key) => data - {key}
  }

  /** Mutations applied one by one, in the order they were issued. */
  function ApplyAll(data: Contents, ms: seq<Mutation>): Contents {
    if ms == [] then data else Apply(ApplyAll(data, ms[..|ms| - 1]), ms[|ms| - 1])
  }

  function WithPrefix(m: Mutation, prefix: Key): Mutation {
    match m
    case Set(key, value) => Set(prefix + key, value)
    case Delete(key) => Delete(prefix + key)
  }

  function AllWithPrefix(ms: seq<Mutation>, prefix: Key): (r: seq<Mutation>)
    ensures |r| == |ms|
  {
    if ms == [] then [] else AllWithPrefix(ms[..|ms| - 1], prefix) + [WithPrefix(ms[|ms| - 1], prefix)]
  }

  /** Two keys of a view are the same when they are the same below the prefix. */
  lemma SameSuffix(prefix: Key, k: Key, l: Key)
    ensures prefix + k == prefix + l <==> k == l
  {
    assert (prefix + k)[|prefix|..] == k && (prefix + l)[|prefix|..] == l;
  }

  /** A mutation through a view changes the view like the mutation itself, and nothing else. */
  lemma ApplyThroughView(data: Contents, prefix: Key, m: Mutation)
    ensures Sub(Apply(data, WithPrefix(m, prefix)), prefix) == Apply(Sub(data, prefix), m)
    ensures SameOutside(data, prefix, Apply(data, WithPrefix(m, prefix)))
  {
    hide Sub;
    var w := Apply(data, WithPrefix(m, prefix));
    var u, v := Sub(w, prefix), Apply(Sub(data, prefix), m);
    forall k ensures (k in u <==> k in v) && (k in u ==> u[k] == v[k]) {
      SubAt(data, prefix, k);
      SubAt(w, prefix, k);
      SameSuffix(prefix, k, m.key);
    }
    assert u.Keys == v.Keys;
  }

  function DropPrefix(data: Contents, prefix: Key): Contents {
    map q | q in data && !(prefix <= q) :: data[q]
  }

  lemma PrefixOfSuffix(p: Key, prefix: Key, k: Key)
    ensures p + prefix <= p + k <==> prefix <= k
  {
    if prefix <= k {
      assert p + k == (p + prefix) + k[|prefix|..];
    }
    if p + prefix <= p + k {
      assert prefix == (p + prefix)[|p|..];
      assert k[..|prefix|] == (p + k)[|p|..|p| + |prefix|];
    }
  }

  lemma DropThroughView(data: Contents, p: Key, prefix: Key)
    ensures Sub(DropPrefix(data, p + prefix), p) == DropPrefix(Sub(data, p), prefix)
    ensures SameOutside(data, p, DropPrefix(data, p + prefix))
  {
    hide Sub;
    var u, v := Sub(DropPrefix(data, p + prefix), p), DropPrefix(Sub(data, p), prefix);
    forall k: Key ensures (k in u <==> k in v) && (k in u ==> u[k] == v[k]) {
      SubAt(data, p, k);
      SubAt(DropPrefix(data, p + prefix), p, k);
      PrefixOfSuffix(p, prefix, k);
    }
    assert u.Keys == v.Keys;
  }

  lemma {:induction false} ApplyAllThroughView(data: Contents, prefix: Key, ms: seq<Mutation>)
    ensures Sub(ApplyAll(data, AllWithPrefix(ms, prefix)), prefix) == ApplyAll(Sub(data, prefix), ms)
    ensures SameOutside(data, prefix, ApplyAll(data, AllWithPrefix(ms, prefix)))
  {
    if ms != [] {
      var init, all := ms[..|ms| - 1], AllWithPrefix(ms, prefix);
      ApplyAllThroughView(data, prefix, init);
      assert all[..|all| - 1] == AllWithPrefix(init, prefix);
      ApplyThroughView(ApplyAll(data, AllWithPrefix(init, prefix)), prefix, ms[|ms| - 1]);
    }
  }

  /** What a batch collects: the keys to set and the keys to delete. */
  function Merge(data: Contents, sets: Contents, deletes: set<Key>): Contents {
    (data + sets) - deletes
  }

  /** Setting a key takes it off the keys to delete, and the other way round: the collected batch always amounts to
      the mutations in the order they were issued. */
  lemma MergeNext(data: Contents, sets: Contents, deletes: set<Key>, m: Mutation)
    ensures Apply(Merge(data, sets, deletes), m)
         == (match m case Set(key, value) => Merge(data, sets[key := value], deletes - {key})
                     case Delete(key) => Merge(data, sets - {key}, deletes + {key}))
  {
  }

  // ----- The objects -----

  /** A database instance. */
  class Instance {
    var data: Contents

    constructor ()
      ensures data == map[]
    {
      data := map[];
    }
  }

  class OpenableKVStore {
    var storeInstance: Instance?            // only where the store is not a view
    const parentStore: OpenableKVStore?
    const dbPrefix: Key

    ghost const root: OpenableKVStore       // the store that has the instance
    ghost const Chain: set<OpenableKVStore> // the stores that lead to it

    ghost predicate Valid()
      reads Chain
      decreases Chain
    {
      && this in Chain && root in Chain && root.storeInstance != null
      && if storeInstance != null then root == this
         else parentStore != null && parentStore in Chain && parentStore.Chain < Chain
              && root == parentStore.root && parentStore.Valid()
    }

    /** What can be seen through the view. */
    ghost function Visible(): Contents
      reads root, root.storeInstance
      requires root.storeInstance != null
    {
      Sub(root.storeInstance.data, dbPrefix)
    }

    constructor (instance: Instance)
      ensures Valid() && root == this && storeInstance == instance && dbPrefix == []
    {
      storeInstance, parentStore, dbPrefix := instance, null, [];
      root, Chain := this, {this};
    }

    constructor View(parent: OpenableKVStore, realm: Key)
      requires parent.Valid()
      ensures Valid() && root == parent.root && dbPrefix == realm
    {
      storeInstance, parentStore, dbPrefix := null, parent, realm;
      root, Chain := parent.root, parent.Chain + {this};
    }

    /** The instance of a view is the one of its parent, so all views of a store always use the same instance. */
    method GetInstance() returns (i: Instance)
      requires Valid()
      ensures i == root.storeInstance
      decreases Chain
    {
      if storeInstance != null {
        return storeInstance;
      }
      i := parentStore.GetInstance();
    }

    /** Replacing the instance through any view replaces it for all of them. */
    method Replace(newKVStore: Instance)
      requires Valid()
      modifies root
      ensures Valid() && root.storeInstance == newKVStore
      decreases Chain
    {
      if storeInstance == null {
        parentStore.Replace(newKVStore);
        return;
      }
      storeInstance := newKVStore;
    }

    method WithRealm(realm: Key) returns (view: OpenableKVStore)
      requires Valid()
      ensures view.Valid() && view.root == root && view.dbPrefix == realm
    {
      view := new OpenableKVStore.View(this, realm);
    }

    /** The view of an extended realm shows the part of this view below the realm. */
    method WithExtendedRealm(realm: Key) returns (view: OpenableKVStore)
      requires Valid()
      ensures view.Valid() && view.root == root && view.Visible() == Sub(Visible(), realm)
    {
      SubOfSub(root.storeInstance.data, dbPrefix, realm);
      view := WithRealm(dbPrefix + realm);
    }

    method Get(key: Key) returns (found: bool, value: Value)
      requires Valid()
      ensures found == (key in Visible()) && (found ==> value == Visible()[key])
    {
      var i := GetInstance();
      found := dbPrefix + key in i.data;
      value := if found then i.data[dbPrefix + key] else [];
    }

    method Mutate(m: Mutation)
      requires Valid()
      modifies root.storeInstance
      ensures root.storeInstance == old(root.storeInstance) && Valid()
      ensures Visible() == Apply(old(Visible()), m)
      ensures SameOutside(old(root.storeInstance.data), dbPrefix, root.storeInstance.data)
    {
      var i := GetInstance();
      ApplyThroughView(i.data, dbPrefix, m);
      i.data := Apply(i.data, WithPrefix(m, dbPrefix));
    }

    /** Removes what the view shows below a prefix, and nothing else. */
    method DeletePrefix(prefix: Key)
      requires Valid()
      modifies root.storeInstance
      ensures root.storeInstance == old(root.storeInstance) && Valid()
      ensures Visible() == map k | k in old(Visible()) && !(prefix <= k) :: old(Visible())[k]
      ensures SameOutside(old(root.storeInstance.data), dbPrefix, root.storeInstance.data)
    {
      var i := GetInstance();
      DropThroughView(i.data, dbPrefix, prefix);
      i.data := DropPrefix(i.data, dbPrefix + prefix);
    }
  }

  /** Mutations that are collected through a view and take effect together. */
  class BatchedMutations {
    const parentStore: OpenableKVStore
    const dbPrefix: Key
    var setOperations: Contents
    var deleteOperations: set<Key>
    ghost var issued: seq<Mutation>    // since the batch was created or cancelled

    /** On every database, what was collected amounts to the issued mutations in their order. */
    ghost predicate Valid()
      reads this
    {
      && dbPrefix == parentStore.dbPrefix
      && forall data :: Merge(data, setOperations, deleteOperations) == ApplyAll(data, AllWithPrefix(issued, dbPrefix))
    }

    constructor (store: OpenableKVStore)
      ensures Valid() && parentStore == store && issued == []
    {
      parentStore, dbPrefix := store, store.dbPrefix;
      setOperations, deleteOperations, issued := map[], {}, [];
    }

    /** What one more mutation does to the collected batch. */
    lemma {:induction false} Collected(m: Mutation, sets: Contents, deletes: set<Key>, data: Contents)
      requires Valid()
      requires Apply(Merge(data, setOperations, deleteOperations), WithPrefix(m, dbPrefix)) == Merge(data, sets, deletes)
      ensures Merge(data, sets, deletes) == ApplyAll(data, AllWithPrefix(issued + [m], dbPrefix))
    {
      var all := AllWithPrefix(issued + [m], dbPrefix);
      assert (issued + [m])[..|issued|] == issued;
      assert all[..|all| - 1] == AllWithPrefix(issued, dbPrefix);
    }

    method Set(key: Key, value: Value)
      requires Valid()
      modifies this
      ensures Valid() && issued == old(issued) + [Mutation.Set(key, value)]
    {
      var stringKey := dbPrefix + key;
      ghost var m := Mutation.Set(key, value);
      forall data ensures Merge(data, setOperations[stringKey := value], deleteOperations - {stringKey})
                       == ApplyAll(data, AllWithPrefix(issued + [m], dbPrefix))
      {
        MergeNext(data, setOperations, deleteOperations, WithPrefix(m, dbPrefix));
        Collected(m, setOperations[stringKey := value], deleteOperations - {stringKey}, data);
      }
      deleteOperations := deleteOperations - {stringKey};
      setOperations := setOperations[stringKey := value];
      issued := issued + [m];
    }

    method Delete(key: Key)
      requires Valid()
      modifies this
      ensures Valid() && issued == old(issued) + [Mutation.Delete(key)]
    {
      var stringKey := dbPrefix + key;
      ghost var m := Mutation.Delete(key);
      forall data ensures Merge(data, setOperations - {stringKey}, deleteOperations + {stringKey})
                       == ApplyAll(data, AllWithPrefix(issued + [m], dbPrefix))
      {
        MergeNext(data, setOperations, deleteOperations, WithPrefix(m, dbPrefix));
        Collected(m, setOperations - {stringKey}, deleteOperations + {stringKey}, data);
      }
      setOperations := setOperations - {stringKey};
      deleteOperations := deleteOperations + {stringKey};
      issued := issued + [m];
    }

    method Cancel()
      requires Valid()
      modifies this
      ensures Valid() && issued == []
    {
      setOperations, deleteOperations, issued := map[], {}, [];
    }

    /** The collected mutations as a list for the instance: first all sets, then all deletes, each in some order of a map. */
    method Operations() returns (batch: seq<Mutation>)
      requires Valid()
      ensures forall data :: ApplyAll(data, batch) == Merge(data, setOperations, deleteOperations)
    {
      batch := [];
      var keys := setOperations.Keys;
      ghost var done: Contents := map[];
      assert forall data :: ApplyAll(data, batch) == Merge(data, done, {});
      while keys != {}
        invariant keys <= setOperations.Keys && done == map k | k in setOperations && k !in keys :: setOperations[k]
        invariant forall data :: ApplyAll(data, batch) == Merge(data, done, {})
        decreases keys
      {
        var key :| key in keys;
        var m := Mutation.Set(key, setOperations[key]);
        forall data ensures ApplyAll(data, batch + [m]) == Merge(data, done[key := setOperations[key]], {}) {
          MergeNext(data, done, {}, m);
          assert (batch + [m])[..|batch|] == batch && {} - {key} == {};
        }
        batch, keys, done := batch + [m], keys - {key}, done[key := setOperations[key]];
      }
      assert done == setOperations;
      var toDelete := deleteOperations;
      while toDelete != {}
        invariant toDelete <= deleteOperations
        invariant forall data :: ApplyAll(data, batch) == Merge(data, setOperations, deleteOperations - toDelete)
        decreases toDelete
      {
        var key :| key in toDelete;
        var m := Mutation.Delete(key);
        forall data ensures ApplyAll(data, batch + [m]) == Merge(data, setOperations, deleteOperations - (toDelete - {key})) {
          assert (batch + [m])[..|batch|] == batch;
          assert deleteOperations - (toDelete - {key}) == (deleteOperations - toDelete) + {key};
          assert Apply(Merge(data, setOperations, deleteOperations - toDelete), m)
              == Merge(data, setOperations, (deleteOperations - toDelete) + {key});
        }
        batch, toDelete := batch + [m], toDelete - {key};
      }
      assert deleteOperations - {} == deleteOperations;
    }

    /** Committing changes the view like the issued mutations one by one in their order, whatever order the maps are
        walked in, and leaves every key outside the view's prefix alone. It goes to the instance in use at that time. */
    method Commit()
      requires Valid() && parentStore.Valid()
      modifies parentStore.root.storeInstance
      ensures parentStore.root.storeInstance == old(parentStore.root.storeInstance) && Valid()
      ensures parentStore.Visible() == ApplyAll(old(parentStore.Visible()), issued)
      ensures SameOutside(old(parentStore.root.storeInstance.data), dbPrefix, parentStore.root.storeInstance.data)
    {
      var instance := parentStore.GetInstance();
      var batch := Operations();
      ApplyAllThroughView(instance.data, dbPrefix, issued);
      instance.data := ApplyAll(instance.data, batch);
    }
  }
}
