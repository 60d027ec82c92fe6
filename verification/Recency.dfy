/** A map bounded by dropping what was touched longest ago (a Python OrderedDict, a Java LinkedHashMap), against
    the unbounded map that remembers everything. */
module Recency {
  import opened Bytes

  datatype Entry<V> = Entry(key: string, value: V)

  /** Oldest first. */
  type Ordered<V> = seq<Entry<V>>

  /** What is done to such a map. A Drop removes every entry the predicate picks. */
  datatype Op<!V> = Put(key: string, value: V) | Drop(which: (string, V) -> bool)

  ghost predicate Distinct<V>(m: Ordered<V>) {
    forall i, j :: 0 <= i < j < |m| ==> m[i].key != m[j].key
  }

  function Find<V>(m: Ordered<V>, key: string): (r: Option<V>)
    ensures r.Some? <==> exists i :: 0 <= i < |m| && m[i].key == key
    ensures r.Some? ==> exists i :: 0 <= i < |m| && m[i] == Entry(key, r.value)
  {
    if m == [] then None
    else if m[0].key == key then Some(m[0].value)
    else
      var r := Find(m[1..], key);
      assert r.Some? ==> exists i :: 0 <= i < |m[1..]| && m[1..][i] == Entry(key, r.value);
      r
  }

  /** The entries the predicate does not pick, in their order. */
  function Keep<V>(m: Ordered<V>, dropped: (string, V) -> bool): Ordered<V> {
    if m == [] then []
    else
      var rest := Keep(m[..|m| - 1], dropped);
      var last := m[|m| - 1];
      if dropped(last.key, last.value) then rest else rest + [last]
  }

  /** Picks one key. */
  function IsKey<V>(key: string): (string, V) -> bool {
    (k: string, _: V) => k == key
  }

  function Without<V>(m: Ordered<V>, key: string): Ordered<V> {
    Keep(m, IsKey(key))
  }

  function Trim<V>(m: Ordered<V>, cap: nat): Ordered<V> {
    if |m| > cap then m[|m| - cap..] else m
  }

  /** Insert or replace, moving the key to the young end, and evict. */
  function Touch<V>(m: Ordered<V>, key: string, value: V, cap: nat): Ordered<V> {
    Trim(Without(m, key) + [Entry(key, value)], cap)
  }

  function Apply<V>(m: Ordered<V>, op: Op<V>, cap: nat): Ordered<V> {
    match op
    case Put(key, value) => Touch(m, key, value, cap)
    case Drop(which) => Keep(m, which)
  }

  function Bounded<V>(ops: seq<Op<V>>, cap: nat): Ordered<V> {
    if ops == [] then [] else Apply(Bounded(ops[..|ops| - 1], cap), ops[|ops| - 1], cap)
  }

  /** The map without a bound. */
  function Unbounded<V>(ops: seq<Op<V>>): map<string, V> {
    if ops == [] then map[]
    else
      var m := Unbounded(ops[..|ops| - 1]);
      match ops[|ops| - 1]
      case Put(key, value) => m[key := value]
      case Drop(which) => map k | k in m && !which(k, m[k]) :: m[k]
  }

  /** The other keys put since the key itself was last put. */
  function OthersSince<V>(ops: seq<Op<V>>, key: string): set<string> {
    if ops == [] then {}
    else
      var before := OthersSince(ops[..|ops| - 1], key);
      match ops[|ops| - 1]
      case Put(k, _) => if k == key then {} else before + {k}
      case Drop(_) => before
  }

  lemma ApplyMembers<V>(m: Ordered<V>, op: Op<V>, cap: nat)
    ensures forall e :: e in Apply(m, op, cap) ==> e in m || (op.Put? && e == Entry(op.key, op.value))
  {
    match op
    case Put(key, _) => KeepMembers(m, IsKey(key));
    case Drop(which) => KeepMembers(m, which);
  }

  // ----- the two agree -----

  lemma {:induction false} KeepMembers<V>(m: Ordered<V>, dropped: (string, V) -> bool)
    ensures |Keep(m, dropped)| <= |m|
    ensures forall e :: e in Keep(m, dropped) <==> e in m && !dropped(e.key, e.value)
    ensures forall i :: 0 <= i < |Keep(m, dropped)| ==>
              Keep(m, dropped)[i] in m && !dropped(Keep(m, dropped)[i].key, Keep(m, dropped)[i].value)
  {
    if m != [] {
      KeepMembers(m[..|m| - 1], dropped);
      assert forall e :: e in m <==> e in m[..|m| - 1] || e == m[|m| - 1];
    }
  }

  /** Keep is a subsequence: where its entries come from, in increasing order. */
  lemma {:induction false} KeepIndices<V>(m: Ordered<V>, dropped: (string, V) -> bool) returns (ix: seq<nat>)
    ensures |ix| == |Keep(m, dropped)|
    ensures forall i :: 0 <= i < |ix| ==> ix[i] < |m| && Keep(m, dropped)[i] == m[ix[i]]
    ensures forall i, j :: 0 <= i < j < |ix| ==> ix[i] < ix[j]
  {
    ix := [];
    if m != [] {
      ix := KeepIndices(m[..|m| - 1], dropped);
      var last := m[|m| - 1];
      if !dropped(last.key, last.value) {
        ix := ix + [|m| - 1];
      }
    }
  }

  lemma {:induction false} DistinctFit<V>(m: Ordered<V>, s: set<string>)
    requires Distinct(m) && forall i :: 0 <= i < |m| ==> m[i].key in s
    ensures |m| <= |s|
  {
    if m != [] {
      var last := m[|m| - 1].key;
      DistinctFit(m[..|m| - 1], s - {last});
    }
  }

  /** The bounded map is distinct and small, says nothing the unbounded one does not say, lists its keys so that
      each was touched after the ones before it, and misses a key only after cap others were touched. */
  ghost predicate Agree<V>(ops: seq<Op<V>>, cap: nat) {
    var b, u := Bounded(ops, cap), Unbounded(ops);
    && |b| <= cap && Distinct(b)
    && Truthful(b, u)
    && ByAge(ops, b)
    && (forall k :: k in u ==> Has(b, k) || |OthersSince(ops, k)| >= cap)
  }

  lemma KeepDistinct<V>(m: Ordered<V>, dropped: (string, V) -> bool)
    requires Distinct(m)
    ensures Distinct(Keep(m, dropped))
  {
    var ix := KeepIndices(m, dropped);
  }

  predicate Has<V>(m: Ordered<V>, key: string) {
    exists i :: 0 <= i < |m| && m[i].key == key
  }

  lemma KeepHas<V>(m: Ordered<V>, dropped: (string, V) -> bool, key: string)
    requires Has(m, key) && forall i :: 0 <= i < |m| && m[i].key == key ==> !dropped(key, m[i].value)
    ensures Has(Keep(m, dropped), key)
  {
    var i :| 0 <= i < |m| && m[i].key == key;
    KeepMembers(m, dropped);
    assert m[i] in Keep(m, dropped);
  }

  /** Each key was touched after the ones before it. */
  ghost predicate ByAge<V>(ops: seq<Op<V>>, m: Ordered<V>) {
    forall i, j :: 0 <= i < j < |m| ==> m[j].key in OthersSince(ops, m[i].key)
  }

  lemma KeepByAge<V>(ops: seq<Op<V>>, m: Ordered<V>, dropped: (string, V) -> bool)
    requires ByAge(ops, m)
    ensures ByAge(ops, Keep(m, dropped))
  {
    var ix := KeepIndices(m, dropped);
  }

  lemma DropLeavesOthers<V>(ops: seq<Op<V>>, which: (string, V) -> bool, key: string)
    ensures OthersSince(ops + [Drop(which)], key) == OthersSince(ops, key)
  {
    var all := ops + [Drop(which)];
    assert all[..|all| - 1] == ops;
  }

  lemma PutAddsOther<V>(ops: seq<Op<V>>, key: string, value: V, k: string)
    ensures OthersSince(ops + [Put(key, value)], k) == if k == key then {} else OthersSince(ops, k) + {key}
  {
    var all := ops + [Put(key, value)];
    assert all[..|all| - 1] == ops;
  }

  lemma AgreeDrop<V>(ops: seq<Op<V>>, which: (string, V) -> bool, cap: nat)
    requires Agree(ops, cap)
    ensures Agree(ops + [Drop(which)], cap)
  {
    var all := ops + [Drop(which)];
    assert all[..|all| - 1] == ops;
    var b, u := Bounded(ops, cap), Unbounded(ops);
    KeepMembers(b, which);
    KeepDistinct(b, which);
    KeepByAge(ops, b, which);
    forall k ensures OthersSince(all, k) == OthersSince(ops, k) {
      DropLeavesOthers(ops, which, k);
    }
    forall k | k in Unbounded(all) && Has(b, k) ensures Has(Bounded(all, cap), k) {
      KeepHas(b, which, k);
    }
  }

  lemma WithoutHas<V>(m: Ordered<V>, key: string, k: string)
    ensures Has(Without(m, key), k) <==> Has(m, k) && k != key
  {
    KeepMembers(m, IsKey(key));
    if Has(m, k) && k != key {
      KeepHas(m, IsKey(key), k);
    }
    if Has(Without(m, key), k) {
      var i :| 0 <= i < |Without(m, key)| && Without(m, key)[i].key == k;
      assert Without(m, key)[i] in m;
    }
  }

  /** The map after a put, before eviction. */
  lemma PutByAge<V>(ops: seq<Op<V>>, m: Ordered<V>, key: string, value: V)
    requires ByAge(ops, m) && Distinct(m)
    ensures var w := Without(m, key) + [Entry(key, value)];
            ByAge(ops + [Put(key, value)], w) && Distinct(w)
  {
    KeepMembers(m, IsKey(key));
    KeepByAge(ops, m, IsKey(key));
    KeepDistinct(m, IsKey(key));
    assert forall i :: 0 <= i < |Without(m, key)| ==> Without(m, key)[i].key != key;
    forall k ensures OthersSince(ops + [Put(key, value)], k) == if k == key then {} else OthersSince(ops, k) + {key} {
      PutAddsOther(ops, key, value, k);
    }
  }

  /** Whoever is evicted was followed by cap other keys. */
  lemma EvictedWasOld<V>(ops: seq<Op<V>>, m: Ordered<V>, cap: nat, key: string)
    requires ByAge(ops, m) && Distinct(m) && |m| <= cap + 1
    requires Has(m, key) && !Has(Trim(m, cap), key)
    ensures |OthersSince(ops, key)| >= cap
  {
    var i :| 0 <= i < |m| && m[i].key == key;
    var off := |m| - |Trim(m, cap)|;
    assert forall j :: off <= j < |m| ==> Trim(m, cap)[j - off] == m[j];
    DistinctFit(m[1..], OthersSince(ops, key));
  }

  lemma TrimOrder<V>(ops: seq<Op<V>>, m: Ordered<V>, cap: nat)
    requires ByAge(ops, m) && Distinct(m)
    ensures ByAge(ops, Trim(m, cap)) && Distinct(Trim(m, cap)) && |Trim(m, cap)| <= cap
    ensures forall i :: 0 <= i < |Trim(m, cap)| ==> Trim(m, cap)[i] in m
  {
  }

  /** The map tells the truth. */
  ghost predicate Truthful<V>(m: Ordered<V>, u: map<string, V>) {
    forall e :: e in m ==> e.key in u && u[e.key] == e.value
  }

  lemma PutTruthful<V>(m: Ordered<V>, u: map<string, V>, key: string, value: V)
    requires Truthful(m, u)
    ensures Truthful(Without(m, key) + [Entry(key, value)], u[key := value])
  {
    KeepMembers(m, IsKey(key));
  }

  /** A key the put made the map lose, or that it was missing before. */
  lemma PutMisses<V>(ops: seq<Op<V>>, key: string, value: V, cap: nat, k: string)
    requires Agree(ops, cap) && k in Unbounded(ops)[key := value]
    requires !Has(Touch(Bounded(ops, cap), key, value, cap), k)
    ensures |OthersSince(ops + [Put(key, value)], k)| >= cap
  {
    var all, b := ops + [Put(key, value)], Bounded(ops, cap);
    var w := Without(b, key) + [Entry(key, value)];
    PutByAge(ops, b, key, value);
    KeepMembers(b, IsKey(key));
    WithoutHas(b, key, k);
    if Has(w, k) {
      EvictedWasOld(all, w, cap, k);
    } else {
      assert w[|w| - 1].key == key;
      assert forall i :: 0 <= i < |w| - 1 ==> w[i] == Without(b, key)[i];
      PutAddsOther(ops, key, value, k);
      SubsetSize(OthersSince(ops, k), OthersSince(all, k));
    }
  }

  lemma AgreePut<V>(ops: seq<Op<V>>, key: string, value: V, cap: nat)
    requires Agree(ops, cap)
    ensures Agree(ops + [Put(key, value)], cap)
  {
    var all := ops + [Put(key, value)];
    assert all[..|all| - 1] == ops;
    var b, u := Bounded(ops, cap), Unbounded(ops);
    var w := Without(b, key) + [Entry(key, value)];
    PutByAge(ops, b, key, value);
    TrimOrder(all, w, cap);
    assert Bounded(all, cap) == Trim(w, cap);
    PutTruthful(b, u, key, value);
    forall k | k in Unbounded(all) && !Has(Bounded(all, cap), k) ensures |OthersSince(all, k)| >= cap {
      PutMisses(ops, key, value, cap, k);
    }
  }

  lemma {:induction false} SubsetSize(a: set<string>, b: set<string>)
    requires a <= b
    ensures |a| <= |b|
  {
    if a != {} {
      var x :| x in a;
      SubsetSize(a - {x}, b - {x});
    }
  }

  lemma {:induction false} AlwaysAgree<V>(ops: seq<Op<V>>, cap: nat)
    ensures Agree(ops, cap)
  {
    if ops != [] {
      var before, op := ops[..|ops| - 1], ops[|ops| - 1];
      AlwaysAgree(before, cap);
      assert ops == before + [op];
      match op
      case Put(key, value) => AgreePut(before, key, value, cap);
      case Drop(which) => AgreeDrop(before, which, cap);
    }
  }

  /** Looking a key up in the bounded map gives what the unbounded map holds, or nothing; and it gives nothing
      for a key the unbounded map holds only if cap other keys were put since. */
  lemma LookupAgrees<V>(ops: seq<Op<V>>, cap: nat, key: string)
    ensures var r := Find(Bounded(ops, cap), key);
            && |Bounded(ops, cap)| <= cap
            && (r.Some? ==> key in Unbounded(ops) && Unbounded(ops)[key] == r.value)
            && (key in Unbounded(ops) && |OthersSince(ops, key)| < cap ==> r == Some(Unbounded(ops)[key]))
  {
    AlwaysAgree(ops, cap);
  }

  /** The unbounded map holds exactly the last value put, unless something dropped that value later. */
  ghost predicate LastPut<V(!new)>(ops: seq<Op<V>>, key: string, value: V, i: nat) {
    && i < |ops| && ops[i] == Put(key, value)
    && forall j :: i < j < |ops| ==>
         match ops[j]
         case Put(k, _) => k != key
         case Drop(which) => !which(key, value)
  }

  lemma {:induction false} UnboundedIsLastPut<V(!new)>(ops: seq<Op<V>>, key: string, value: V)
    ensures key in Unbounded(ops) && Unbounded(ops)[key] == value <==> exists i: nat :: LastPut(ops, key, value, i)
  {
    if ops != [] {
      var before, n := ops[..|ops| - 1], |ops| - 1;
      UnboundedIsLastPut(before, key, value);
      forall i: nat | i < n ensures LastPut(ops, key, value, i) <==>
        LastPut(before, key, value, i)
        && match ops[n] case Put(k, _) => k != key case Drop(which) => !which(key, value)
      {
        assert LastPut(before, key, value, i) ==> before[i] == ops[i];
      }
      assert LastPut(ops, key, value, n) <==> ops[n] == Put(key, value);
    }
  }
}
