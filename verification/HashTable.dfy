/** The chained hash table with resize. */
module HashTables {
  import opened Options
  import opened Powers
  import opened Lines

  type Key = seq<Byte>
  type Value = seq<Byte>

  /** A chain node.  _free_hash_data sets key and value to NULL before it frees the node, so a freed
      node that is still linked has nothing but the length of its key. */
  datatype Entry = Live(key: Key, value: Value) | Freed(length: nat)

  type Chain = seq<Entry>

  /** What a walk ends with: a value, no node, or a freed node, whose NULL key it has compared. */
  datatype Answer = Found(value: Value) | Absent | Dead

  // ---- one chain

  /** The key as the code hashes and compares it; NULL reads as no bytes. */
  function KeyOf(e: Entry): (k: Key) {
    if e.Live? then e.key else []
  }

  /** The comparison of a walk for k does not go past this node: the length agrees, and so do the
      bytes, or they are read through NULL. */
  predicate Stops(e: Entry, k: Key) {
    match e
    case Live(key, _) => key == k
    case Freed(length) => length == |k|
  }

  /** The position where the walk for a key ends, |chain| if it runs off the chain. */
  function IndexOf(chain: Chain, k: Key): (i: nat)
    ensures i <= |chain|
    ensures i < |chain| ==> Stops(chain[i], k)
    ensures forall j | 0 <= j < i :: !Stops(chain[j], k)
  {
    if chain == [] || Stops(chain[0], k) then 0 else 1 + IndexOf(chain[1..], k)
  }

  function GetIn(chain: Chain, k: Key): (v: Answer) {
    var i := IndexOf(chain, k);
    if i == |chain| then Absent else if chain[i].Live? then Found(chain[i].value) else Dead
  }

  ghost predicate Proper(chain: Chain) {
    && (forall i | 0 <= i < |chain| :: chain[i].Live?)
    && (forall i, j | 0 <= i < j < |chain| :: KeyOf(chain[i]) != KeyOf(chain[j]))
  }

  /** DELETE_NODE_FROM_HASHTABLE as written: only a head is unlinked, any node is freed. */
  function Unlink(chain: Chain, i: nat): (r: Chain)
    requires i < |chain|
  {
    if i == 0 then chain[1..] else chain[i := Freed(|KeyOf(chain[i])|)]
  }

  lemma IndexUnique(chain: Chain, k: Key, i: nat)
    requires i < |chain| && Stops(chain[i], k) && forall j | 0 <= j < i :: !Stops(chain[j], k)
    ensures IndexOf(chain, k) == i
  {
  }

  /** Freeing a node that is not the head is met by the walks for keys of its length that did not end
      before it, and by no other. */
  lemma UnlinkDead(chain: Chain, i: nat, k: Key)
    requires Proper(chain) && 0 < i < |chain|
    ensures GetIn(Unlink(chain, i), k)
         == if |k| == |KeyOf(chain[i])| && IndexOf(chain, k) >= i then Dead else GetIn(chain, k)
  {
    var r, p := Unlink(chain, i), IndexOf(chain, k);
    if |k| == |KeyOf(chain[i])| && p >= i {
      IndexUnique(r, k, i);
    } else if p < |chain| {
      IndexUnique(r, k, p);
    }
  }

  /** The unlinking is right exactly when the node is the head. */
  lemma UnlinkExact(chain: Chain, i: nat)
    requires Proper(chain) && i < |chain|
    ensures Proper(Unlink(chain, i)) <==> i == 0
    ensures i == 0 ==>
              forall k: Key :: GetIn(Unlink(chain, i), k) == if k == KeyOf(chain[i]) then Absent else GetIn(chain, k)
  {
    if i == 0 {
      forall k: Key ensures GetIn(Unlink(chain, 0), k) == if k == KeyOf(chain[0]) then Absent else GetIn(chain, k) {
        if k == KeyOf(chain[0]) { assert forall j | 0 <= j < |chain| - 1 :: chain[1..][j] == chain[j + 1]; }
      }
    } else {
      assert Unlink(chain, i)[i].Freed?;
    }
  }

  lemma PrependProper(chain: Chain, e: Entry)
    requires Proper(chain) && e.Live? && GetIn(chain, e.key) == Absent
    ensures Proper([e] + chain)
    ensures forall k: Key :: GetIn([e] + chain, k) == if k == e.key then Found(e.value) else GetIn(chain, k)
  {
    assert ([e] + chain)[1..] == chain;
  }

  lemma {:induction false} GetConcat(a: Chain, b: Chain, k: Key)
    ensures GetIn(a + b, k) == if GetIn(a, k).Absent? then GetIn(b, k) else GetIn(a, k)
  {
    if a == [] {
      assert a + b == b;
    } else {
      assert (a + b)[1..] == a[1..] + b;
      GetConcat(a[1..], b, k);
    }
  }

  // ---- the table

  /** Chains are proper and every key is in the chain of its hash. */
  ghost predicate Filed(table: seq<Chain>, power: nat, h: Key -> nat) {
    && |table| == Pow2(power)
    && (forall b | 0 <= b < |table| :: Proper(table[b]) && InSlot(table[b], b, power, h))
  }

  ghost predicate InSlot(chain: Chain, b: nat, power: nat, h: Key -> nat) {
    forall i | 0 <= i < |chain| :: Slot(h(KeyOf(chain[i])), power) == b
  }

  ghost function Lookup(table: seq<Chain>, power: nat, h: Key -> nat, k: Key): (v: Answer)
    requires |table| == Pow2(power)
  {
    GetIn(table[Slot(h(k), power)], k)
  }

  /** ADD_NODE_TO_HASHTABLE */
  function Push(table: seq<Chain>, power: nat, h: Key -> nat, e: Entry): (r: seq<Chain>)
    requires |table| == Pow2(power)
    ensures |r| == Pow2(power)
  {
    var b := Slot(h(KeyOf(e)), power);
    table[b := [e] + table[b]]
  }

  lemma PushFiled(table: seq<Chain>, power: nat, h: Key -> nat, e: Entry)
    requires Filed(table, power, h) && e.Live? && Lookup(table, power, h, e.key) == Absent
    ensures Filed(Push(table, power, h, e), power, h)
    ensures forall k: Key :: Lookup(Push(table, power, h, e), power, h, k)
                          == if k == e.key then Found(e.value) else Lookup(table, power, h, k)
  {
    var b := Slot(h(KeyOf(e)), power);
    PrependProper(table[b], e);
    assert InSlot([e] + table[b], b, power, h);
  }

  /** The loops of _hash_table_resize over all old nodes. */
  function PushAll(table: seq<Chain>, power: nat, h: Key -> nat, es: seq<Entry>): (r: seq<Chain>)
    requires |table| == Pow2(power)
    ensures |r| == Pow2(power)
    decreases |es|
  {
    if es == [] then table else PushAll(Push(table, power, h, es[0]), power, h, es[1..])
  }

  lemma {:induction false} PushAllFiled(table: seq<Chain>, power: nat, h: Key -> nat, es: seq<Entry>)
    requires Filed(table, power, h) && Proper(es)
    requires forall i | 0 <= i < |es| :: Lookup(table, power, h, KeyOf(es[i])) == Absent
    ensures Filed(PushAll(table, power, h, es), power, h)
    ensures forall k: Key :: Lookup(PushAll(table, power, h, es), power, h, k)
                          == if GetIn(es, k).Found? then GetIn(es, k) else Lookup(table, power, h, k)
    decreases |es|
  {
    if es != [] {
      PushFiled(table, power, h, es[0]);
      PushAllFiled(Push(table, power, h, es[0]), power, h, es[1..]);
      forall k: Key ensures GetIn(es, k) == if k == KeyOf(es[0]) then Found(es[0].value) else GetIn(es[1..], k) { }
      assert GetIn(es[1..], KeyOf(es[0])) == Absent;
    }
  }

  /** All chains end to end hold what the table holds. */
  lemma {:induction false} EntriesOf(chains: seq<Chain>, first: nat, power: nat, h: Key -> nat, k: Key)
    requires forall b | 0 <= b < |chains| :: Proper(chains[b]) && InSlot(chains[b], first + b, power, h)
    ensures var s := Slot(h(k), power);
            GetIn(Flatten(chains), k) == if first <= s < first + |chains| then GetIn(chains[s - first], k) else Absent
    decreases |chains|
  {
    if chains != [] {
      EntriesOf(chains[1..], first + 1, power, h, k);
      GetConcat(chains[0], Flatten(chains[1..]), k);
    }
  }

  lemma {:induction false} EntriesProper(chains: seq<Chain>, first: nat, power: nat, h: Key -> nat)
    requires forall b | 0 <= b < |chains| :: Proper(chains[b]) && InSlot(chains[b], first + b, power, h)
    ensures Proper(Flatten(chains))
    ensures forall i | 0 <= i < |Flatten(chains)| ::
              first <= Slot(h(KeyOf(Flatten(chains)[i])), power) < first + |chains|
    decreases |chains|
  {
    if chains != [] {
      EntriesProper(chains[1..], first + 1, power, h);
      var a: Chain, b: Chain := chains[0], Flatten(chains[1..]);
      var all: Chain := a + b;
      assert Flatten(chains) == all;
      forall i, j | 0 <= i < j < |all| ensures KeyOf(all[i]) != KeyOf(all[j]) {
        assert all[i] == if i < |a| then a[i] else b[i - |a|];
        assert all[j] == if j < |a| then a[j] else b[j - |a|];
      }
    }
  }

  /** The table as a value; `load` is load_factor. */
  datatype HashMap = HashMap(table: seq<Chain>, power: nat, count: int, threshold: int, load: real)

  /** Capacity a power of two, every key once and in its bucket, item_count the number of keys. */
  ghost predicate Valid(t: HashMap, h: Key -> nat) {
    Filed(t.table, t.power, h) && t.count == |Flatten(t.table)|
  }

  ghost function At(t: HashMap, h: Key -> nat, k: Key): (v: Answer)
    requires |t.table| == Pow2(t.power)
  {
    Lookup(t.table, t.power, h, k)
  }

  /** _hash_table_resize to twice the capacity */
  ghost function Resize(t: HashMap, h: Key -> nat): (r: HashMap) {
    var capacity := Pow2(t.power + 1);
    HashMap(PushAll(Empty(capacity), t.power + 1, h, Flatten(t.table)), t.power + 1, |Flatten(t.table)|,
            (capacity as real * t.load).Floor, t.load)
  }

  lemma {:induction false} SizeAfter(table: seq<Chain>, b: nat, chain: Chain)
    requires b < |table|
    ensures |Flatten(table[b := chain])| == |Flatten(table)| - |table[b]| + |chain|
    decreases |table|
  {
    if b > 0 {
      SizeAfter(table[1..], b - 1, chain);
      assert table[b := chain][1..] == table[1..][b - 1 := chain];
    } else {
      assert table[b := chain][1..] == table[1..];
    }
  }

  lemma {:induction false} SizeOfPushAll(table: seq<Chain>, power: nat, h: Key -> nat, es: seq<Entry>)
    requires |table| == Pow2(power)
    ensures |Flatten(PushAll(table, power, h, es))| == |Flatten(table)| + |es|
    decreases |es|
  {
    if es != [] {
      var b := Slot(h(KeyOf(es[0])), power);
      SizeAfter(table, b, [es[0]] + table[b]);
      SizeOfPushAll(Push(table, power, h, es[0]), power, h, es[1..]);
    }
  }

  lemma {:induction false} SizeOfEmpty(table: seq<Chain>)
    requires forall b | 0 <= b < |table| :: table[b] == []
    ensures Flatten(table) == []
    decreases |table|
  {
    if table != [] { SizeOfEmpty(table[1..]); }
  }

  lemma ResizeFiled(table: seq<Chain>, power: nat, h: Key -> nat)
    requires Filed(table, power, h)
    ensures var r := PushAll(Empty(Pow2(power + 1)), power + 1, h, Flatten(table));
            Filed(r, power + 1, h) && |Flatten(r)| == |Flatten(table)|
  {
    var empty := Empty(Pow2(power + 1));
    EntriesProper(table, 0, power, h);
    SizeOfEmpty(empty);
    SizeOfPushAll(empty, power + 1, h, Flatten(table));
    PushAllFiled(empty, power + 1, h, Flatten(table));
  }

  lemma PushAllLookup(power: nat, h: Key -> nat, es: seq<Entry>, k: Key)
    requires Proper(es)
    ensures Lookup(PushAll(Empty(Pow2(power)), power, h, es), power, h, k) == GetIn(es, k)
  {
    PushAllFiled(Empty(Pow2(power)), power, h, es);
  }

  lemma ResizeLookup(table: seq<Chain>, power: nat, h: Key -> nat, k: Key)
    requires Filed(table, power, h)
    ensures
      Lookup(PushAll(Empty(Pow2(power + 1)), power + 1, h, Flatten(table)), power + 1, h, k)
      == Lookup(table, power, h, k)
  {
    EntriesProper(table, 0, power, h);
    PushAllLookup(power + 1, h, Flatten(table), k);
    EntriesOf(table, 0, power, h, k);
  }

  /** Resize relinks every node, reversing chains, and changes no lookup. */
  lemma ResizeKeeps(t: HashMap, h: Key -> nat)
    requires Valid(t, h)
    ensures Valid(Resize(t, h), h)
    ensures forall k: Key :: At(Resize(t, h), h, k) == At(t, h, k)
  {
    ResizeFiled(t.table, t.power, h);
    forall k: Key ensures At(Resize(t, h), h, k) == At(t, h, k) { ResizeLookup(t.table, t.power, h, k); }
  }

  // ---- delete and put

  /** Where the two operations look for a key. */
  ghost function Place(t: HashMap, h: Key -> nat, k: Key): (i: nat)
    requires |t.table| == Pow2(t.power)
  {
    IndexOf(t.table[Slot(h(k), t.power)], k)
  }

  /** The key is in the table and not the head of its chain. */
  ghost predicate Buried(t: HashMap, h: Key -> nat, k: Key)
    requires |t.table| == Pow2(t.power)
  {
    0 < Place(t, h, k) < |t.table[Slot(h(k), t.power)]|
  }

  /** The search for a key and the macro that takes its node out, shared by both operations. */
  ghost function TakeOut(t: HashMap, h: Key -> nat, k: Key): (r: HashMap)
    requires |t.table| == Pow2(t.power)
    ensures |r.table| == Pow2(r.power)
  {
    var b := Slot(h(k), t.power);
    var i := Place(t, h, k);
    if i == |t.table[b]| then t else t.(table := t.table[b := Unlink(t.table[b], i)], count := t.count - 1)
  }

  lemma TakeOutExact(t: HashMap, h: Key -> nat, k: Key)
    requires Valid(t, h)
    ensures Valid(TakeOut(t, h, k), h) <==> !Buried(t, h, k)
    ensures !Buried(t, h, k) ==> forall j: Key :: At(TakeOut(t, h, k), h, j) == if j == k then Absent else At(t, h, j)
  {
    var b := Slot(h(k), t.power);
    var chain, i := t.table[b], Place(t, h, k);
    if i < |chain| {
      UnlinkExact(chain, i);
      SizeAfter(t.table, b, Unlink(chain, i));
      if i == 0 { assert InSlot(chain[1..], b, t.power, h); }
    }
  }

  /** After freeing a node that is not the head, exactly the lookups of its chain and length that did
      not end before it are dead. */
  lemma TakeOutDead(t: HashMap, h: Key -> nat, k: Key, j: Key)
    requires Valid(t, h) && Buried(t, h, k)
    ensures At(TakeOut(t, h, k), h, j) == if Behind(t, h, k, j) then Dead else At(t, h, j)
  {
    UnlinkDead(t.table[Slot(h(k), t.power)], Place(t, h, k), j);
  }

  /** A walk for j compares the node of k: same chain, same length, and nothing before k ends it. */
  ghost predicate Behind(t: HashMap, h: Key -> nat, k: Key, j: Key)
    requires |t.table| == Pow2(t.power)
  {
    Slot(h(j), t.power) == Slot(h(k), t.power) && |j| == |k| && Place(t, h, j) >= Place(t, h, k)
  }

  /** hash_table_delete; the flag is LFS_OK or LFS_ERROR, and None is a walk that ends at a freed node. */
  ghost function DeleteKey(t: HashMap, h: Key -> nat, k: Key): (r: Option<(HashMap, bool)>)
    requires |t.table| == Pow2(t.power)
    ensures r.Some? ==> |r.value.0.table| == Pow2(r.value.0.power)
  {
    if At(t, h, k) == Dead then None else Some((TakeOut(t, h, k), At(t, h, k).Found?))
  }

  /** No node has lost a key that a resize would hash. */
  ghost predicate Hashable(es: seq<Entry>) {
    forall i | 0 <= i < |es| :: KeyKept(es[i])
  }

  predicate KeyKept(e: Entry) {
    e.Live? || e.length == 0
  }

  /** What put starts from: the table, twice as large if it is at its threshold. */
  ghost function Grown(t: HashMap, h: Key -> nat): (r: HashMap)
    requires |t.table| == Pow2(t.power)
    ensures |r.table| == Pow2(r.power)
  {
    if t.count >= t.threshold then Resize(t, h) else t
  }

  /** hash_table_put; None is a resize or a walk that reads the NULL key of a freed node. */
  ghost function PutKey(t: HashMap, h: Key -> nat, k: Key, v: Value): (r: Option<HashMap>)
    requires |t.table| == Pow2(t.power)
    ensures r.Some? ==> |r.value.table| == Pow2(r.value.power)
  {
    var g := Grown(t, h);
    if (t.count >= t.threshold && !Hashable(Flatten(t.table))) || At(g, h, k) == Dead then None
    else
      var t1 := TakeOut(g, h, k);
      Some(t1.(table := Push(t1.table, t1.power, h, Live(k, v)), count := t1.count + 1))
  }

  /** Delete is the finite map's exactly when the key is absent or heads its chain.  Otherwise it
      reports success and leaves a freed node linked; a lookup then reads its NULL key exactly if it
      is for a key of the same chain and length that does not stand before it, as the key itself. */
  lemma DeleteExact(t: HashMap, h: Key -> nat, k: Key)
    requires Valid(t, h)
    ensures DeleteKey(t, h, k).Some? && (DeleteKey(t, h, k).value.1 <==> At(t, h, k).Found?)
    ensures Valid(DeleteKey(t, h, k).value.0, h) <==> !Buried(t, h, k)
    ensures !Buried(t, h, k) ==>
              forall j: Key :: At(DeleteKey(t, h, k).value.0, h, j) == if j == k then Absent else At(t, h, j)
    ensures Buried(t, h, k) ==>
              forall j: Key :: At(DeleteKey(t, h, k).value.0, h, j) == if Behind(t, h, k, j) then Dead else At(t, h, j)
    ensures Buried(t, h, k) ==> At(DeleteKey(t, h, k).value.0, h, k) == Dead
  {
    TakeOutExact(t, h, k);
    if Buried(t, h, k) {
      forall j: Key ensures At(TakeOut(t, h, k), h, j) == if Behind(t, h, k, j) then Dead else At(t, h, j) {
        TakeOutDead(t, h, k, j);
      }
    }
  }

  lemma {:induction false} FiledIsHashable(chains: seq<Chain>)
    requires forall b | 0 <= b < |chains| :: Proper(chains[b])
    ensures Hashable(Flatten(chains))
    decreases |chains|
  {
    if chains != [] { FiledIsHashable(chains[1..]); }
  }

  /** On a valid table a put goes through. */
  lemma PutGoes(t: HashMap, h: Key -> nat, k: Key, v: Value)
    requires Valid(t, h)
    ensures Valid(Grown(t, h), h) && (forall j: Key :: At(Grown(t, h), h, j) == At(t, h, j))
    ensures PutKey(t, h, k, v).Some?
  {
    ResizeKeeps(t, h);
    FiledIsHashable(t.table);
  }

  lemma PutKeeps(t: HashMap, h: Key -> nat, k: Key, v: Value)
    requires Valid(t, h) && !Buried(Grown(t, h), h, k)
    ensures PutKey(t, h, k, v).Some? && Valid(PutKey(t, h, k, v).value, h)
    ensures forall j: Key :: At(PutKey(t, h, k, v).value, h, j) == if j == k then Found(v) else At(t, h, j)
  {
    var g := Grown(t, h);
    PutGoes(t, h, k, v);
    TakeOutExact(g, h, k);
    var t1 := TakeOut(g, h, k);
    var b := Slot(h(k), t1.power);
    PushFiled(t1.table, t1.power, h, Live(k, v));
    SizeAfter(t1.table, b, [Live(k, v)] + t1.table[b]);
  }

  lemma PrependAnswers(chain: Chain, k: Key, v: Value, j: Key)
    ensures GetIn([Live(k, v)] + chain, j) == if j == k then Found(v) else GetIn(chain, j)
  {
    assert ([Live(k, v)] + chain)[1..] == chain;
  }

  /** A put over a buried entry sets the key, and leaves dead what a delete would. */
  lemma PutDead(t: HashMap, h: Key -> nat, k: Key, v: Value, j: Key)
    requires Valid(t, h) && Buried(Grown(t, h), h, k)
    ensures PutKey(t, h, k, v).Some? && !Valid(PutKey(t, h, k, v).value, h)
    ensures At(PutKey(t, h, k, v).value, h, j)
         == if j == k then Found(v) else if Behind(Grown(t, h), h, k, j) then Dead else At(t, h, j)
  {
    PutGoes(t, h, k, v);
    var g := Grown(t, h);
    var t1, b, i := TakeOut(g, h, k), Slot(h(k), g.power), Place(g, h, k);
    TakeOutDead(g, h, k, j);
    PrependAnswers(t1.table[b], k, v, j);
    assert PutKey(t, h, k, v).value.table[b][i + 1].Freed?;
  }

  /** A put keeps the table valid exactly if no old entry of the key is behind the head of its chain. */
  lemma PutExact(t: HashMap, h: Key -> nat, k: Key, v: Value)
    requires Valid(t, h)
    ensures PutKey(t, h, k, v).Some? && (Valid(PutKey(t, h, k, v).value, h) <==> !Buried(Grown(t, h), h, k))
    ensures forall j: Key ::
              At(PutKey(t, h, k, v).value, h, j)
              == if j == k then Found(v)
                 else if Buried(Grown(t, h), h, k) && Behind(Grown(t, h), h, k, j) then Dead else At(t, h, j)
  {
    if Buried(Grown(t, h), h, k) {
      PutDead(t, h, k, v, k);
      forall j: Key
        ensures At(PutKey(t, h, k, v).value, h, j)
             == if j == k then Found(v) else if Behind(Grown(t, h), h, k, j) then Dead else At(t, h, j)
      {
        PutDead(t, h, k, v, j);
      }
    } else {
      PutKeeps(t, h, k, v);
    }
  }

  // ---- a put after a lost delete

  lemma {:induction false} FlattenHolds(chains: seq<Chain>, e: Entry)
    ensures e in Flatten(chains) <==> exists b :: 0 <= b < |chains| && e in chains[b]
    decreases |chains|
  {
    if chains != [] {
      FlattenHolds(chains[1..], e);
      assert chains == [chains[0]] + chains[1..];
    }
  }

  /** A resize that hashes no NULL key leaves no freed node in the way of a key that is not empty. */
  lemma {:induction false} PushAllClear(table: seq<Chain>, power: nat, h: Key -> nat, es: seq<Entry>, j: Key)
    requires |table| == Pow2(power) && Hashable(es) && j != [] && Lookup(table, power, h, j) != Dead
    ensures Lookup(PushAll(table, power, h, es), power, h, j) != Dead
    decreases |es|
  {
    if es != [] {
      assert KeyKept(es[0]);
      var b := Slot(h(KeyOf(es[0])), power);
      GetConcat([es[0]], table[b], j);
      PushAllClear(Push(table, power, h, es[0]), power, h, es[1..], j);
    }
  }

  /** A freed node of an empty key that a resize has linked again is met by the walk for that key. */
  lemma {:induction false} PushAllMeets(table: seq<Chain>, power: nat, h: Key -> nat, es: seq<Entry>)
    requires |table| == Pow2(power) && Hashable(es)
    requires forall e | e in es :: e.Live? ==> e.key != []
    requires Lookup(table, power, h, []) == Dead || exists e :: e in es && e.Freed?
    ensures Lookup(PushAll(table, power, h, es), power, h, []) == Dead
    decreases |es|
  {
    if es != [] {
      assert KeyKept(es[0]) && es == [es[0]] + es[1..];
      var b := Slot(h(KeyOf(es[0])), power);
      GetConcat([es[0]], table[b], []);
      PushAllMeets(Push(table, power, h, es[0]), power, h, es[1..]);
    }
  }

  /** The nodes after a delete that only freed its node: that one, and live ones of other keys. */
  lemma FreedAmong(t: HashMap, h: Key -> nat, k: Key, e: Entry)
    requires Valid(t, h) && Buried(t, h, k)
    ensures Freed(|k|) in Flatten(TakeOut(t, h, k).table)
    ensures e in Flatten(TakeOut(t, h, k).table) ==> e == Freed(|k|) || (e.Live? && e.key != k)
  {
    var r, s, i := TakeOut(t, h, k).table, Slot(h(k), t.power), Place(t, h, k);
    assert r[s][i] == Freed(|k|);
    FlattenHolds(r, Freed(|k|));
    FlattenHolds(r, e);
    if b :| 0 <= b < |r| && e in r[b] {
      var q :| 0 <= q < |r[b]| && r[b][q] == e;
      assert b != s || q != i ==> e == t.table[b][q];
    }
  }

  /** The nodes of a table with a freed node of length n, the other nodes being live. */
  ghost predicate OneFreed(es: seq<Entry>, n: nat) {
    Freed(n) in es && forall e | e in es :: e == Freed(n) || (e.Live? && (n == 0 ==> e.key != []))
  }

  lemma LossFrees(t: HashMap, h: Key -> nat, k: Key)
    requires Valid(t, h) && Buried(t, h, k)
    ensures OneFreed(Flatten(TakeOut(t, h, k).table), |k|)
  {
    var es := Flatten(TakeOut(t, h, k).table);
    FreedAmong(t, h, k, Freed(|k|));
    forall e | e in es ensures e == Freed(|k|) || (e.Live? && (k == [] ==> e.key != [])) { FreedAmong(t, h, k, e); }
  }

  /** The next put doubles such a table: it hashes NULL, unless that is read as the empty key it was. */
  lemma DoublingMeets(d: HashMap, h: Key -> nat, n: nat, j: Key, v: Value)
    requires |d.table| == Pow2(d.power) && OneFreed(Flatten(d.table), n) && d.count >= d.threshold
    ensures PutKey(d, h, j, v) == None <==> n > 0 || j == []
  {
    var es := Flatten(d.table);
    var i :| 0 <= i < |es| && es[i] == Freed(n);
    assert n > 0 ==> !KeyKept(es[i]);
    if n == 0 {
      assert Hashable(es);
      if j == [] {
        PushAllMeets(Empty(Pow2(d.power + 1)), d.power + 1, h, es);
      } else {
        PushAllClear(Empty(Pow2(d.power + 1)), d.power + 1, h, es, j);
      }
    }
  }

  /** After a delete that left its node linked, the next put reads a NULL key exactly if it doubles the
      table, for all but the empty key, or its walk compares the node that was left. */
  lemma PutAfterLoss(t: HashMap, h: Key -> nat, k: Key, j: Key, v: Value)
    requires Valid(t, h) && Buried(t, h, k)
    ensures DeleteKey(t, h, k).Some?
    ensures PutKey(DeleteKey(t, h, k).value.0, h, j, v) == None
       <==> if t.count > t.threshold then k != [] || j == [] else Behind(t, h, k, j)
  {
    var d := TakeOut(t, h, k);
    assert DeleteKey(t, h, k).Some? && DeleteKey(t, h, k).value.0 == d;
    if t.count > t.threshold {
      LossFrees(t, h, k);
      DoublingMeets(d, h, |k|, j, v);
    } else {
      TakeOutDead(t, h, k, j);
    }
  }

  // ---- whole runs

  datatype Event = Store(key: Key, value: Value) | Drop(key: Key)

  ghost predicate Digs(t: HashMap, h: Key -> nat, e: Event)
    requires |t.table| == Pow2(t.power)
  {
    match e
    case Store(k, _) => Buried(Grown(t, h), h, k)
    case Drop(k) => Buried(t, h, k)
  }

  ghost function Apply(t: HashMap, h: Key -> nat, e: Event): (r: Option<HashMap>)
    requires |t.table| == Pow2(t.power)
    ensures r.Some? ==> |r.value.table| == Pow2(r.value.power)
  {
    match e
    case Store(k, v) => PutKey(t, h, k, v)
    case Drop(k) => if DeleteKey(t, h, k).Some? then Some(DeleteKey(t, h, k).value.0) else None
  }

  ghost predicate ValidThroughout(t: HashMap, h: Key -> nat, es: seq<Event>)
    decreases |es|
  {
    && Valid(t, h)
    && (es != [] ==> Apply(t, h, es[0]).Some? && ValidThroughout(Apply(t, h, es[0]).value, h, es[1..]))
  }

  ghost predicate NeverDigs(t: HashMap, h: Key -> nat, es: seq<Event>)
    requires |t.table| == Pow2(t.power)
    decreases |es|
  {
    es != [] ==>
      && !Digs(t, h, es[0])
      && Apply(t, h, es[0]).Some? && NeverDigs(Apply(t, h, es[0]).value, h, es[1..])
  }

  ghost function Final(t: HashMap, h: Key -> nat, es: seq<Event>): (r: HashMap)
    requires |t.table| == Pow2(t.power) && NeverDigs(t, h, es)
    decreases |es|
  {
    if es == [] then t else Final(Apply(t, h, es[0]).value, h, es[1..])
  }

  /** The finite map after the same operations. */
  ghost function MapAfter(now: Answer, k: Key, es: seq<Event>): (v: Answer)
    decreases |es|
  {
    if es == [] then now
    else MapAfter(if es[0].key != k then now else if es[0].Store? then Found(es[0].value) else Absent, k, es[1..])
  }

  lemma ApplyExact(t: HashMap, h: Key -> nat, e: Event, k: Key)
    requires Valid(t, h)
    ensures Apply(t, h, e).Some? && (Valid(Apply(t, h, e).value, h) <==> !Digs(t, h, e))
    ensures !Digs(t, h, e) ==> At(Apply(t, h, e).value, h, k) == MapAfter(At(t, h, k), k, [e])
  {
    assert [e][1..] == [];
    match e {
      case Store(j, v) => PutExact(t, h, j, v);
      case Drop(j) => DeleteExact(t, h, j);
    }
  }

  /** Over every run of put and delete the table is a finite map in every state if and only if no
      operation takes out a node that is not the head of its chain. */
  lemma {:induction false} RunExact(t: HashMap, h: Key -> nat, es: seq<Event>, k: Key)
    requires Valid(t, h)
    ensures ValidThroughout(t, h, es) <==> NeverDigs(t, h, es)
    ensures NeverDigs(t, h, es) ==>
              Valid(Final(t, h, es), h) && At(Final(t, h, es), h, k) == MapAfter(At(t, h, k), k, es)
    decreases |es|
  {
    if es != [] {
      ApplyExact(t, h, es[0], k);
      assert [es[0]][1..] == [];
      if !Digs(t, h, es[0]) { RunExact(Apply(t, h, es[0]).value, h, es[1..], k); }
    }
  }

  // ---- the load

  /** The threshold is the load factor's share of the capacity. */
  ghost predicate Scaled(t: HashMap) {
    t.load >= 0.0 && t.threshold == (Pow2(t.power) as real * t.load).Floor
  }

  /** No more entries than the threshold, unless every entry has doubled the table since it had 2^start
      buckets. */
  ghost predicate Light(t: HashMap, start: nat) {
    start <= t.power && (t.count <= t.threshold || t.count <= t.power - start)
  }

  lemma FloorTwice(x: real, y: real)
    requires x >= 0.0 && y == 2.0 * x
    ensures y.Floor >= 2 * x.Floor >= 0
  {
  }

  lemma DoubledScales(t: HashMap, h: Key -> nat)
    requires Scaled(t)
    ensures Scaled(Resize(t, h)) && Resize(t, h).threshold >= 2 * t.threshold >= 0
  {
    assert Pow2(t.power + 1) as real * t.load == 2.0 * (Pow2(t.power) as real * t.load);
    FloorTwice(Pow2(t.power) as real * t.load, Pow2(t.power + 1) as real * t.load);
  }

  lemma GrownLight(t: HashMap, h: Key -> nat, start: nat)
    requires Valid(t, h) && Scaled(t) && Light(t, start)
    ensures var g := Grown(t, h);
            Scaled(g) && g.count == t.count && Light(g.(count := g.count + 1), start)
  {
    if t.count >= t.threshold { DoubledScales(t, h); }
  }

  /** The same table but for its chains, and with no more entries than n. */
  ghost predicate Alike(t: HashMap, r: HashMap, n: int) {
    r.power == t.power && r.threshold == t.threshold && r.load == t.load && r.count <= n
  }

  lemma AlikeLight(t: HashMap, r: HashMap, n: int, start: nat)
    requires Alike(t, r, n) && Scaled(t) && Light(t.(count := n), start)
    ensures Scaled(r) && Light(r, start)
  {
  }

  lemma PutAlike(t: HashMap, h: Key -> nat, k: Key, v: Value)
    requires |t.table| == Pow2(t.power) && PutKey(t, h, k, v).Some?
    ensures Alike(Grown(t, h), PutKey(t, h, k, v).value, Grown(t, h).count + 1)
  {
    var g := Grown(t, h);
    var t1 := TakeOut(g, h, k);
    assert Alike(g, t1, g.count);
  }

  lemma PutLight(t: HashMap, h: Key -> nat, k: Key, v: Value, start: nat)
    requires Valid(t, h) && Scaled(t) && Light(t, start) && PutKey(t, h, k, v).Some?
    ensures Scaled(PutKey(t, h, k, v).value) && Light(PutKey(t, h, k, v).value, start)
  {
    GrownLight(t, h, start);
    PutAlike(t, h, k, v);
    AlikeLight(Grown(t, h), PutKey(t, h, k, v).value, Grown(t, h).count + 1, start);
  }

  lemma DeleteLight(t: HashMap, h: Key -> nat, k: Key, start: nat)
    requires Valid(t, h) && Scaled(t) && Light(t, start) && DeleteKey(t, h, k).Some?
    ensures Scaled(DeleteKey(t, h, k).value.0) && Light(DeleteKey(t, h, k).value.0, start)
  {
    assert Alike(t, TakeOut(t, h, k), t.count);
    AlikeLight(t, TakeOut(t, h, k), t.count, start);
  }

  lemma ApplyLight(t: HashMap, h: Key -> nat, e: Event, start: nat)
    requires Valid(t, h) && Scaled(t) && Light(t, start) && Apply(t, h, e).Some?
    ensures Scaled(Apply(t, h, e).value) && Light(Apply(t, h, e).value, start)
  {
    match e {
      case Store(k, v) => PutLight(t, h, k, v, start);
      case Drop(k) => DeleteLight(t, h, k, start);
    }
  }

  /** Over every run that keeps the map, the number of entries stays within the load factor; the only
      exception is a table so small that each of its entries has doubled it. */
  lemma {:induction false} RunLight(t: HashMap, h: Key -> nat, es: seq<Event>, start: nat)
    requires Valid(t, h) && Scaled(t) && Light(t, start) && NeverDigs(t, h, es)
    ensures Scaled(Final(t, h, es)) && Light(Final(t, h, es), start)
    decreases |es|
  {
    if es != [] {
      ApplyExact(t, h, es[0], []);
      ApplyLight(t, h, es[0], start);
      RunLight(Apply(t, h, es[0]).value, h, es[1..], start);
    }
  }

  /** Two keys in one chain: deleting the older one leaves a freed node linked, and the next get of
      that key, or of any third key of its length, reads through NULL. */
  lemma DeleteLeavesFreedNode(h: Key -> nat)
    ensures var t := HashMap([[Live([2], []), Live([1], [])]], 0, 2, 8, 0.75);
            && Valid(t, h) && Buried(t, h, [1]) && DeleteKey(t, h, [1]).Some?
            && var r := DeleteKey(t, h, [1]).value.0;
               && r.table == [[Live([2], []), Freed(1)]]
               && At(r, h, [1]) == Dead && At(r, h, [3]) == Dead && At(r, h, [2]) == Found([])
  {
    var chain: Chain := [Live([2], []), Live([1], [])];
    var t := HashMap([chain], 0, 2, 8, 0.75);
    assert Flatten([chain]) == chain by { FlattenOne(chain); }
    IndexUnique(chain, [1], 1);
    assert InSlot(chain, 0, 0, h) && Proper(chain);
    DeleteExact(t, h, [1]);
    assert Unlink(chain, 1) == [Live([2], []), Freed(1)];
    assert [chain][0 := Unlink(chain, 1)] == [Unlink(chain, 1)];
  }

  // ---- the loops of _hash_table_resize

  /** One old chain, each node to the head of its new chain; `dead` is a NULL key that is hashed. */
  method MoveChain(from: seq<Chain>, power: nat, h: Key -> nat, chain: Chain) returns (dead: bool, r: seq<Chain>)
    requires |from| == Pow2(power)
    ensures dead <==> !Hashable(chain)
    ensures !dead ==> |r| == Pow2(power) && r == PushAll(from, power, h, chain)
  {
    r := from;
    for i := 0 to |chain|
      invariant |r| == Pow2(power) && PushAll(r, power, h, chain[i..]) == PushAll(from, power, h, chain)
      invariant forall j | 0 <= j < i :: KeyKept(chain[j])
    {
      if !KeyKept(chain[i]) { return true, r; }
      assert chain[i..][0] == chain[i] && chain[i..][1..] == chain[i + 1..];
      var b := Slot(h(KeyOf(chain[i])), power);
      r := r[b := [chain[i]] + r[b]];
    }
    return false, r;
  }

  lemma HashableConcat(a: seq<Entry>, b: seq<Entry>)
    ensures Hashable(a + b) <==> Hashable(a) && Hashable(b)
  {
    if Hashable(a + b) {
      assert forall i | 0 <= i < |a| :: a[i] == (a + b)[i];
      assert forall i | 0 <= i < |b| :: b[i] == (a + b)[|a| + i];
    }
  }

  method MoveAll(table: seq<Chain>, power: nat, h: Key -> nat) returns (dead: bool, wide: seq<Chain>, items: nat)
    ensures dead <==> !Hashable(Flatten(table))
    ensures !dead ==> wide == PushAll(Empty(Pow2(power)), power, h, Flatten(table)) && items == |Flatten(table)|
  {
    wide, items := Empty(Pow2(power)), 0;
    for b := 0 to |table|
      invariant |wide| == Pow2(power) && items + |Flatten(table[b..])| == |Flatten(table)|
      invariant PushAll(wide, power, h, Flatten(table[b..])) == PushAll(Empty(Pow2(power)), power, h, Flatten(table))
      invariant Hashable(Flatten(table[b..])) <==> Hashable(Flatten(table))
    {
      assert table[b..][0] == table[b] && table[b..][1..] == table[b + 1..];
      HashableConcat(table[b], Flatten(table[b + 1..]));
      PushAllConcat(wide, power, h, table[b], Flatten(table[b + 1..]));
      dead, wide := MoveChain(wide, power, h, table[b]);
      if dead { return; }
      items := items + |table[b]|;
    }
    assert table[|table|..] == [];
    dead := false;
  }

  // ---- the table changed in place

  const DEFAULT_INITIAL_CAPACITY: nat := 16
  const MAXIMUM_CAPACITY: nat := 0x4000_0000
  const DEFAULT_LOAD_FACTOR: real := 0.75

  function Target(initCapacity: nat): (c: nat) {
    if initCapacity == 0 then DEFAULT_INITIAL_CAPACITY
    else if initCapacity > MAXIMUM_CAPACITY then MAXIMUM_CAPACITY
    else initCapacity
  }

  function LoadFactor(f: real): (load: real)
    ensures 0.1 <= load <= 1.0
  {
    if 0.1 <= f <= 1.0 then f else DEFAULT_LOAD_FACTOR
  }

  /** The shifting loop of hash_table_init. */
  method LeastPower(target: nat) returns (p: nat)
    ensures target <= Pow2(p) && (p > 0 ==> Pow2(p - 1) < target)
  {
    p := 0;
    while Pow2(p) < target
      invariant p > 0 ==> Pow2(p - 1) < target
      decreases target - Pow2(p)
    {
      p := p + 1;
    }
  }

  /** The least power of two that is not below the capacity asked for, 16 by default and 2^30 at most. */
  ghost predicate Sized(initCapacity: nat, capacity: nat) {
    if initCapacity == 0 then capacity == 16
    else if initCapacity <= 0x4000_0000 then initCapacity <= capacity < 2 * initCapacity
    else capacity == 0x4000_0000
  }

  lemma TargetIsMet(initCapacity: nat, p: nat)
    requires Target(initCapacity) <= Pow2(p) && (p > 0 ==> Pow2(p - 1) < Target(initCapacity))
    ensures Sized(initCapacity, Pow2(p))
  {
    if initCapacity == 0 {
      assert Pow2(4) == 16;
      OnlyPower(p, 4);
    } else if initCapacity > 0x4000_0000 {
      assert Pow2(10) == 0x400 && Pow2(20) == 0x10_0000 && Pow2(30) == 0x4000_0000;
      OnlyPower(p, 30);
    }
  }

  /** Only the power itself is the least one not below it. */
  lemma OnlyPower(p: nat, n: nat)
    requires Pow2(n) <= Pow2(p) && (p > 0 ==> Pow2(p - 1) < Pow2(n))
    ensures p == n
  {
    if p < n { Pow2Grows(p, n); }
    if n < p { Pow2Grows(n, p - 1); }
  }

  lemma EmptyIsValid(t: HashMap, h: Key -> nat)
    requires t.table == Empty(Pow2(t.power)) && t.count == 0
    ensures Valid(t, h) && forall k: Key :: At(t, h, k) == Absent
  {
    SizeOfEmpty(t.table);
  }

  /** hash_table_init with its checks; None is EINVAL. */
  method Create(hash: Key -> nat, initCapacity: int, loadFactor: real) returns (t: Option<HashTable>)
    ensures t.None? <==> initCapacity < 0 || loadFactor < 0.0
    ensures t.Some? ==> fresh(t.value) && t.value.hash == hash && Valid(t.value.Abs(), hash)
    ensures t.Some? ==> forall k: Key :: At(t.value.Abs(), hash, k) == Absent
  {
    if initCapacity < 0 || loadFactor < 0.0 { return None; }
    var table := new HashTable(hash, initCapacity, loadFactor);
    t := Some(table);
  }

  class HashTable {
    const hash: Key -> nat
    const load: real
    var table: seq<Chain>
    var power: nat        // capacity is 2^power
    var count: int
    var threshold: int

    ghost function Abs(): (t: HashMap)
      reads this
    {
      HashMap(table, power, count, threshold, load)
    }

    /** hash_table_init: the capacity is the least power of two that is not below the target. */
    constructor (hash: Key -> nat, initCapacity: nat, loadFactor: real)
      ensures this.hash == hash && Valid(Abs(), hash)
      ensures load == if 0.1 <= loadFactor <= 1.0 then loadFactor else 0.75
      ensures Sized(initCapacity, Pow2(power))
      ensures Scaled(Abs()) && Light(Abs(), power)
      ensures forall k: Key :: At(Abs(), hash, k) == Absent
    {
      var load := LoadFactor(loadFactor);
      this.hash, this.load := hash, load;
      var p := LeastPower(Target(initCapacity));
      table, power, count := Empty(Pow2(p)), p, 0;
      threshold := (Pow2(p) as real * load).Floor;
      TargetIsMet(initCapacity, p);
      EmptyIsValid(HashMap(Empty(Pow2(p)), p, 0, (Pow2(p) as real * load).Floor, load), hash);
    }

    /** The `while` loop that find, put and delete share. */
    method Walk(chain: Chain, k: Key) returns (i: nat)
      ensures i == IndexOf(chain, k)
    {
      i := 0;
      while i < |chain| && !Stops(chain[i], k)
        invariant i <= |chain| && forall j | 0 <= j < i :: !Stops(chain[j], k)
      {
        i := i + 1;
      }
      if i < |chain| { IndexUnique(chain, k, i); }
    }

    /** hash_table_get */
    method Get(k: Key) returns (v: Answer)
      requires |table| == Pow2(power)
      ensures v == At(Abs(), hash, k)
    {
      var chain := table[Slot(hash(k), power)];
      var i := Walk(chain, k);
      if i == |chain| { return Absent; }
      v := if chain[i].Live? then Found(chain[i].value) else Dead;
    }

    /** The search and the deletion macro. */
    method Remove(k: Key) returns (found: bool, dead: bool)
      requires |table| == Pow2(power)
      modifies this`table, this`count
      ensures dead <==> old(At(Abs(), hash, k)) == Dead
      ensures Abs() == if dead then old(Abs()) else TakeOut(old(Abs()), hash, k)
      ensures !dead ==> found == old(At(Abs(), hash, k)).Found?
    {
      var b := Slot(hash(k), power);
      var i := Walk(table[b], k);
      if i == |table[b]| { return false, false; }
      if table[b][i].Freed? { return false, true; }
      table := table[b := Unlink(table[b], i)];
      count := count - 1;
      return true, false;
    }

    /** hash_table_delete */
    method Delete(k: Key) returns (ok: bool, dead: bool)
      requires |table| == Pow2(power)
      modifies this`table, this`count
      ensures dead <==> DeleteKey(old(Abs()), hash, k).None?
      ensures if dead then Abs() == old(Abs()) else Some((Abs(), ok)) == DeleteKey(old(Abs()), hash, k)
    {
      ok, dead := Remove(k);
    }

    /** _hash_table_resize */
    method Double() returns (dead: bool)
      requires |table| == Pow2(power)
      modifies this
      ensures dead <==> !Hashable(Flatten(old(table)))
      ensures Abs() == if dead then old(Abs()) else Resize(old(Abs()), hash)
    {
      var wide, items;
      dead, wide, items := MoveAll(table, power + 1, hash);
      if dead { return; }
      table, count, power := wide, items, power + 1;
      threshold := (Pow2(power) as real * load).Floor;
    }

    /** hash_table_put */
    method Put(k: Key, v: Value) returns (dead: bool)
      requires |table| == Pow2(power)
      modifies this
      ensures dead <==> PutKey(old(Abs()), hash, k, v).None?
      ensures !dead ==> Some(Abs()) == PutKey(old(Abs()), hash, k, v)
    {
      if count >= threshold {
        dead := Double();
        if dead { return; }
      }
      var found;
      found, dead := Remove(k);
      if dead { return; }
      var b := Slot(hash(k), power);
      table := table[b := [Live(k, v)] + table[b]];
      count := count + 1;
    }
  }

  lemma {:induction false} PushAllConcat(table: seq<Chain>, power: nat, h: Key -> nat, a: seq<Entry>, b: seq<Entry>)
    requires |table| == Pow2(power)
    ensures PushAll(table, power, h, a + b) == PushAll(PushAll(table, power, h, a), power, h, b)
    decreases |a|
  {
    if a == [] {
      assert a + b == b;
    } else {
      assert (a + b)[1..] == a[1..] + b;
      PushAllConcat(Push(table, power, h, a[0]), power, h, a[1..], b);
    }
  }
}
