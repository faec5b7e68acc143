/**
 * The behaviour of one property set (a singly linked list of key/value
 * nodes, head first) stated over values: what each list operation leaves
 * in the list, and which heap buffers it allocates and frees on the way.
 * The class in property_set.dfy runs these operations step by step and is
 * proved to agree with the functions here.
 */
module PropertyList {
  import opened Options
  import opened Heap

  /**
   * One `Property` node. `keyOwned` and `valueOwned` are the NEW_KEY_FLAG and
   * NEW_VALUE_FLAG bits: the field was copied by the store and must be freed
   * by it, rather than aliasing static or caller memory.
   */
  datatype Entry = Entry(key: string, value: Option<string>, keyOwned: bool, valueOwned: bool)

  function Keys(l: seq<Entry>): (ks: seq<string>)
    ensures |ks| == |l| && forall i :: 0 <= i < |l| ==> ks[i] == l[i].key
  {
    seq(|l|, i requires 0 <= i < |l| => l[i].key)
  }

  /** No key occurs in two nodes. */
  predicate UniqueKeys(l: seq<Entry>) {
    forall i, j :: 0 <= i < j < |l| ==> l[i].key != l[j].key
  }

  /** Index of the first occurrence of `k` in `ks`, as a `strcmp` scan finds it. */
  function Find(ks: seq<string>, k: string): (r: Option<nat>)
    ensures r.Some? ==> r.value < |ks| && ks[r.value] == k
    ensures r.Some? ==> forall j :: 0 <= j < r.value ==> ks[j] != k
    ensures r.None? <==> k !in ks
  {
    if ks == [] then None
    else if ks[0] == k then Some(0)
    else match Find(ks[1..], k)
      case None => None
      case Some(i) => Some(i + 1)
  }

  /** Index of the last occurrence of `k` among the first `n` entries of `ks`. */
  function LastIndex(ks: seq<string>, n: nat, k: string): (r: nat)
    requires n <= |ks| && exists i :: 0 <= i < n && ks[i] == k
    ensures r < n && ks[r] == k
    ensures forall j :: r < j < n ==> ks[j] != k
  {
    if ks[n - 1] == k then n - 1 else LastIndex(ks, n - 1, k)
  }

  /** The node a lookup of `key` stops at: the first one holding that key. */
  function Stored(l: seq<Entry>, key: string): (r: Option<Entry>)
    ensures r.Some? <==> key in Keys(l)
    ensures r.Some? ==> r.value in l && r.value.key == key
  {
    match Find(Keys(l), key)
    case None => None
    case Some(i) => Some(l[i])
  }

  /**
   * `doCallout`: the string the first registered callout for `key` produces;
   * `run(i)` is what the i-th callout function returns when invoked now.
   */
  function CalloutValue(calloutKey: seq<string>, run: nat -> Option<string>, key: string): Option<string> {
    match Find(calloutKey, key)
    case None => None
    case Some(i) => run(i)
  }

  /** `getProp`: the stored value, or, when it is NULL, the callout's fresh result. */
  function Lookup(l: seq<Entry>, key: string, calloutKey: seq<string>, run: nat -> Option<string>): Option<string> {
    match Stored(l, key)
    case None => None
    case Some(e) => if e.value.None? then CalloutValue(calloutKey, run, key) else e.value
  }

  // ---------------------------------------------------------------- setProp

  /** The value `setProp` stores: a `midpStrdup` copy in copy mode, the caller's pointer otherwise. */
  function NewValue(value: Option<string>, useMalloc: bool, a: Alloc): Option<string> {
    if useMalloc then Strdup(value, a.valueCopy) else value
  }

  /** The key copy and value copy made for a new node in copy mode; none in no-copy mode. */
  function Copies(key: string, value: Option<string>, useMalloc: bool, a: Alloc): multiset<Buffer> {
    if useMalloc then TextAt(KeyField, Strdup(Some(key), a.keyCopy)) + TextAt(ValueField, Strdup(value, a.valueCopy))
    else multiset{}
  }

  /** When `setProp` gives up on adding a node for a key it did not find. */
  predicate Abandons(useMalloc: bool, value: Option<string>, a: Alloc) {
    !a.node || (useMalloc && (!a.keyCopy || (value.Some? && !a.valueCopy)))
  }

  /** `setProp`: the list after updating the node holding `key`, or after trying to prepend one. */
  function Upsert(l: seq<Entry>, key: string, value: Option<string>, useMalloc: bool, a: Alloc): seq<Entry> {
    match Find(Keys(l), key)
    case Some(i) => UpdateAt(l, i, value, useMalloc, a)
    case None => Insert(l, key, value, useMalloc, a)
  }

  /** The buffers `setProp` allocates. */
  function UpsertMallocs(l: seq<Entry>, key: string, value: Option<string>, useMalloc: bool, a: Alloc): multiset<Buffer> {
    match Find(Keys(l), key)
    case Some(_) => UpdateMallocs(value, useMalloc, a)
    case None => InsertMallocs(key, value, useMalloc, a)
  }

  /** The buffers `setProp` frees. */
  function UpsertFrees(l: seq<Entry>, key: string, value: Option<string>, useMalloc: bool, a: Alloc): multiset<Buffer> {
    match Find(Keys(l), key)
    case Some(i) => ValueHeld(l[i])
    case None => InsertFrees(key, value, useMalloc, a)
  }

  /** A scan that stops at node `i` takes the hit branch. */
  lemma UpsertHit(l: seq<Entry>, i: nat, key: string, value: Option<string>, useMalloc: bool, a: Alloc)
    requires i < |l| && l[i].key == key
    requires forall j :: 0 <= j < i ==> l[j].key != key
    ensures Upsert(l, key, value, useMalloc, a) == UpdateAt(l, i, value, useMalloc, a)
    ensures UpsertMallocs(l, key, value, useMalloc, a) == UpdateMallocs(value, useMalloc, a)
    ensures UpsertFrees(l, key, value, useMalloc, a) == ValueHeld(l[i])
  {
    assert Find(Keys(l), key) == Some(i);
  }

  /** A scan that reaches the end of the list takes the miss branch. */
  lemma UpsertMiss(l: seq<Entry>, key: string, value: Option<string>, useMalloc: bool, a: Alloc)
    requires key !in Keys(l)
    ensures Upsert(l, key, value, useMalloc, a) == Insert(l, key, value, useMalloc, a)
    ensures UpsertMallocs(l, key, value, useMalloc, a) == InsertMallocs(key, value, useMalloc, a)
    ensures UpsertFrees(l, key, value, useMalloc, a) == InsertFrees(key, value, useMalloc, a)
  {
  }

  /** The hit branch of `setProp`: node `i` gets the new value, and its value flag becomes `useMalloc`. */
  function UpdateAt(l: seq<Entry>, i: nat, value: Option<string>, useMalloc: bool, a: Alloc): seq<Entry>
    requires i < |l|
  {
    l[i := l[i].(value := NewValue(value, useMalloc, a), valueOwned := useMalloc)]
  }

  /** The hit branch allocates the value copy in copy mode; it frees the old value if owned (`ValueHeld`). */
  function UpdateMallocs(value: Option<string>, useMalloc: bool, a: Alloc): multiset<Buffer> {
    if useMalloc then TextAt(ValueField, Strdup(value, a.valueCopy)) else multiset{}
  }

  /** The miss branch of `setProp`: link a new head node, unless the attempt is given up. */
  function Insert(l: seq<Entry>, key: string, value: Option<string>, useMalloc: bool, a: Alloc): seq<Entry> {
    if Abandons(useMalloc, value, a) then l
    else [Entry(key, NewValue(value, useMalloc, a), useMalloc, useMalloc)] + l
  }

  /** The miss branch allocates the node, then the copies. */
  function InsertMallocs(key: string, value: Option<string>, useMalloc: bool, a: Alloc): multiset<Buffer> {
    if !a.node then multiset{} else multiset{NodeBuf} + Copies(key, value, useMalloc, a)
  }

  /** A given-up node is undone: the copies made are freed, then the node itself. */
  function InsertFrees(key: string, value: Option<string>, useMalloc: bool, a: Alloc): multiset<Buffer> {
    if a.node && Abandons(useMalloc, value, a) then Copies(key, value, useMalloc, a) + multiset{NodeBuf}
    else multiset{}
  }

  // --------------------------------------------------------- initializeProp

  /** `initializeProp` after its first `n` iterations: no-copy upserts of `keys[i]`, `values[i]`. */
  function Seeded(l: seq<Entry>, keys: seq<string>, values: seq<Option<string>>,
                  alloc: nat -> Alloc, n: nat): seq<Entry>
    requires n <= |keys| <= |values|
  {
    if n == 0 then l
    else Upsert(Seeded(l, keys, values, alloc, n - 1), keys[n - 1], values[n - 1], false, alloc(n - 1))
  }

  /** The buffers the first `n` iterations of `initializeProp` allocate. */
  function SeededMallocs(l: seq<Entry>, keys: seq<string>, values: seq<Option<string>>,
                         alloc: nat -> Alloc, n: nat): multiset<Buffer>
    requires n <= |keys| <= |values|
  {
    if n == 0 then multiset{}
    else SeededMallocs(l, keys, values, alloc, n - 1)
         + UpsertMallocs(Seeded(l, keys, values, alloc, n - 1), keys[n - 1], values[n - 1], false, alloc(n - 1))
  }

  /** The buffers the first `n` iterations of `initializeProp` free. */
  function SeededFrees(l: seq<Entry>, keys: seq<string>, values: seq<Option<string>>,
                       alloc: nat -> Alloc, n: nat): multiset<Buffer>
    requires n <= |keys| <= |values|
  {
    if n == 0 then multiset{}
    else SeededFrees(l, keys, values, alloc, n - 1)
         + UpsertFrees(Seeded(l, keys, values, alloc, n - 1), keys[n - 1], values[n - 1], false, alloc(n - 1))
  }

  // ------------------------------------------------------------ heap account

  /** The frees `finalizeProp` makes for one node: the flagged fields, then the node. */
  function EntryRelease(e: Entry): multiset<Buffer> {
    (if e.keyOwned then TextAt(KeyField, Some(e.key)) else multiset{})
    + (if e.valueOwned then TextAt(ValueField, e.value) else multiset{})
    + multiset{NodeBuf}
  }

  /** The frees `finalizeProp` makes walking the list from its head. */
  function ReleaseAll(l: seq<Entry>): multiset<Buffer> {
    if l == [] then multiset{} else ReleaseAll(l[..|l| - 1]) + EntryRelease(l[|l| - 1])
  }

  /** The heap buffers one node is responsible for: itself and its owned, non-NULL fields. */
  function EntryHeld(e: Entry): multiset<Buffer> {
    multiset{NodeBuf} + KeyHeld(e) + ValueHeld(e)
  }

  function KeyHeld(e: Entry): multiset<Buffer> {
    if e.keyOwned then multiset{TextBuf(KeyField, e.key)} else multiset{}
  }

  function ValueHeld(e: Entry): multiset<Buffer> {
    if e.valueOwned then TextAt(ValueField, e.value) else multiset{}
  }

  function Held(l: seq<Entry>): multiset<Buffer> {
    if l == [] then multiset{} else EntryHeld(l[0]) + Held(l[1..])
  }

  /**
   * No leak and no stray free: every buffer ever allocated has been
   * released, or is held by exactly one node of the list.
   */
  ghost predicate Accounted(mallocs: multiset<Buffer>, frees: multiset<Buffer>, l: seq<Entry>) {
    mallocs == frees + Held(l)
  }

  /** An operation taking `l` to `l'` that allocates `dm` and frees `df` in balance keeps the heap accounted for. */
  lemma AccountedStep(m: multiset<Buffer>, f: multiset<Buffer>, l: seq<Entry>,
                      l': seq<Entry>, dm: multiset<Buffer>, df: multiset<Buffer>)
    requires Accounted(m, f, l)
    requires dm + Held(l) == df + Held(l')
    ensures Accounted(m + dm, f + df, l')
  {
    forall b ensures (m + dm)[b] == (f + df + Held(l'))[b] {
      assert m[b] == f[b] + Held(l)[b];
      assert (dm + Held(l))[b] == (df + Held(l'))[b];
    }
  }

  lemma UnionAssoc(a: multiset<Buffer>, b: multiset<Buffer>, c: multiset<Buffer>)
    ensures a + b + c == a + (b + c)
  {
    forall x ensures (a + b + c)[x] == (a + (b + c))[x] {
    }
  }

  lemma {:induction false} HeldConcat(a: seq<Entry>, b: seq<Entry>)
    ensures Held(a + b) == Held(a) + Held(b)
  {
    if a == [] {
      assert a + b == b;
    } else {
      assert (a + b)[1..] == a[1..] + b;
      HeldConcat(a[1..], b);
    }
  }

  lemma {:induction false} HeldUpdate(l: seq<Entry>, i: nat, e: Entry)
    requires i < |l|
    ensures Held(l[i := e]) + EntryHeld(l[i]) == Held(l) + EntryHeld(e)
  {
    var u := l[i := e];
    assert Held(l) == EntryHeld(l[0]) + Held(l[1..]);
    if i == 0 {
      assert Held(u) == EntryHeld(e) + Held(l[1..]) by {
        assert u[1..] == l[1..];
      }
      SwapEnds(EntryHeld(e), Held(l[1..]), EntryHeld(l[0]));
    } else {
      var rest := l[1..][i - 1 := e];
      assert Held(u) == EntryHeld(l[0]) + Held(rest) by {
        assert u[1..] == rest;
      }
      assert Held(rest) + EntryHeld(l[i]) == Held(l[1..]) + EntryHeld(e) by {
        assert l[1..][i - 1] == l[i];
        HeldUpdate(l[1..], i - 1, e);
      }
      Regroup(EntryHeld(l[0]), Held(rest), EntryHeld(l[i]), Held(l[1..]) + EntryHeld(e));
      UnionAssoc(EntryHeld(l[0]), Held(l[1..]), EntryHeld(e));
    }
  }

  lemma SwapEnds(x: multiset<Buffer>, y: multiset<Buffer>, z: multiset<Buffer>)
    ensures (x + y) + z == (z + y) + x
  {
    forall b ensures ((x + y) + z)[b] == ((z + y) + x)[b] {
    }
  }

  lemma Regroup(a: multiset<Buffer>, b: multiset<Buffer>, c: multiset<Buffer>, d: multiset<Buffer>)
    requires b + c == d
    ensures (a + b) + c == a + d
  {
    forall x ensures ((a + b) + c)[x] == (a + d)[x] {
      assert (b + c)[x] == d[x];
    }
  }

  lemma HeldSingleton(e: Entry)
    ensures Held([e]) == EntryHeld(e)
  {
    assert [e][1..] == [];
  }

  lemma EntryReleaseIsHeld(e: Entry)
    ensures EntryRelease(e) == EntryHeld(e)
  {
  }

  /** Multiset bookkeeping: from `n + x == h + y` and `x + m == y + f` follows `m + h == f + n`. */
  lemma Rebalance(m: multiset<Buffer>, f: multiset<Buffer>, h: multiset<Buffer>, n: multiset<Buffer>,
                  x: multiset<Buffer>, y: multiset<Buffer>)
    requires n + x == h + y
    requires x + m == y + f
    ensures m + h == f + n
  {
    forall b ensures (m + h)[b] == (f + n)[b] {
      assert (n + x)[b] == (h + y)[b];
      assert (x + m)[b] == (y + f)[b];
    }
  }

  lemma KeysUpdate(l: seq<Entry>, i: nat, e: Entry)
    requires i < |l| && e.key == l[i].key
    ensures Keys(l[i := e]) == Keys(l)
  {
  }

  lemma KeysPrepend(e: Entry, l: seq<Entry>)
    ensures Keys([e] + l) == [e.key] + Keys(l)
  {
  }

  // ------------------------------------------------- what setProp leaves

  /**
   * The hit branch of `setProp` rewrites node `i`'s value and value flag
   * only: same length, same key and key flag, every other node unchanged.
   * The old value is freed iff it was owned; in copy mode the new value is
   * a fresh copy, or NULL if the copy failed.
   */
  lemma UpdateOutcome(l: seq<Entry>, i: nat, value: Option<string>, useMalloc: bool, a: Alloc)
    requires i < |l|
    ensures var u := UpdateAt(l, i, value, useMalloc, a);
      && |u| == |l|
      && (forall j :: 0 <= j < |l| && j != i ==> u[j] == l[j])
      && u[i].key == l[i].key
      && u[i].keyOwned == l[i].keyOwned
      && u[i].valueOwned == useMalloc
      && u[i].value == (if useMalloc then Strdup(value, a.valueCopy) else value)
      && (useMalloc && !a.valueCopy ==> u[i].value.None?)
      && ValueHeld(l[i]) == (if l[i].valueOwned && l[i].value.Some?
                             then multiset{TextBuf(ValueField, l[i].value.value)} else multiset{})
      && UpdateMallocs(value, useMalloc, a) == (if useMalloc && a.valueCopy && value.Some?
                                               then multiset{TextBuf(ValueField, value.value)} else multiset{})
  {
  }

  /**
   * The miss branch of `setProp` prepends exactly one node, with both flags
   * equal to `useMalloc` and the given key and value, unless an allocation
   * fails; then the list is left as it was.
   */
  lemma InsertEntries(l: seq<Entry>, key: string, value: Option<string>, useMalloc: bool, a: Alloc)
    ensures Insert(l, key, value, useMalloc, a)
            == if Abandons(useMalloc, value, a) then l else [Entry(key, value, useMalloc, useMalloc)] + l
  {
  }

  /**
   * A given-up insertion frees again everything it allocated; a linked one
   * frees nothing and allocates exactly what the new node holds.
   */
  lemma InsertOutcome(l: seq<Entry>, key: string, value: Option<string>, useMalloc: bool, a: Alloc)
    ensures Insert(l, key, value, useMalloc, a)
            == (if Abandons(useMalloc, value, a) then l else [Entry(key, value, useMalloc, useMalloc)] + l)
    ensures Abandons(useMalloc, value, a)
            ==> InsertMallocs(key, value, useMalloc, a) == InsertFrees(key, value, useMalloc, a)
    ensures !Abandons(useMalloc, value, a)
            ==> InsertFrees(key, value, useMalloc, a) == multiset{}
                && InsertMallocs(key, value, useMalloc, a) == EntryHeld(Entry(key, value, useMalloc, useMalloc))
  {
    InsertEntries(l, key, value, useMalloc, a);
    if a.node {
      var e := Entry(key, value, useMalloc, useMalloc);
      if useMalloc {
        var k := Strdup(Some(key), a.keyCopy);
        var v := Strdup(value, a.valueCopy);
        var copies := TextAt(KeyField, k) + TextAt(ValueField, v);
        assert InsertMallocs(key, value, useMalloc, a) == multiset{NodeBuf} + copies;
        if k.None? || (v.None? && value.Some?) {
          assert InsertFrees(key, value, useMalloc, a) == copies + multiset{NodeBuf};
        } else {
          assert KeyHeld(e) == TextAt(KeyField, k) && ValueHeld(e) == TextAt(ValueField, v);
          UnionAssoc(multiset{NodeBuf}, KeyHeld(e), ValueHeld(e));
        }
      } else {
        assert KeyHeld(e) == multiset{} && ValueHeld(e) == multiset{};
      }
    }
  }

  lemma UpdateKeepsKeysUnique(l: seq<Entry>, i: nat, value: Option<string>, useMalloc: bool, a: Alloc)
    requires i < |l| && UniqueKeys(l)
    ensures UniqueKeys(UpdateAt(l, i, value, useMalloc, a))
  {
    UpdateOutcome(l, i, value, useMalloc, a);
  }

  lemma InsertKeepsKeysUnique(l: seq<Entry>, key: string, value: Option<string>, useMalloc: bool, a: Alloc)
    requires key !in Keys(l) && UniqueKeys(l)
    ensures UniqueKeys(Insert(l, key, value, useMalloc, a))
  {
    InsertEntries(l, key, value, useMalloc, a);
  }

  /** `setProp` never makes a key appear twice. */
  lemma UpsertKeepsKeysUnique(l: seq<Entry>, key: string, value: Option<string>, useMalloc: bool, a: Alloc)
    requires UniqueKeys(l)
    ensures UniqueKeys(Upsert(l, key, value, useMalloc, a))
  {
    match Find(Keys(l), key)
    case Some(i) => UpdateKeepsKeysUnique(l, i, value, useMalloc, a);
    case None => InsertKeepsKeysUnique(l, key, value, useMalloc, a);
  }

  /** `setProp` keeps the heap accounted for: allocated plus previously held equals freed plus newly held. */
  lemma UpsertAccounts(l: seq<Entry>, key: string, value: Option<string>, useMalloc: bool, a: Alloc)
    ensures UpsertMallocs(l, key, value, useMalloc, a) + Held(l)
            == UpsertFrees(l, key, value, useMalloc, a) + Held(Upsert(l, key, value, useMalloc, a))
  {
    match Find(Keys(l), key)
    case Some(i) => UpdateAccounts(l, i, value, useMalloc, a);
    case None => InsertAccounts(l, key, value, useMalloc, a);
  }

  /**
   * The hit branch frees the old value iff it was owned and not NULL,
   * allocates a value copy iff in copy mode with a non-NULL value and a
   * successful copy, and keeps the heap accounted for.
   */
  lemma UpdateAccounts(l: seq<Entry>, i: nat, value: Option<string>, useMalloc: bool, a: Alloc)
    requires i < |l|
    ensures ValueHeld(l[i]) == (if l[i].valueOwned && l[i].value.Some?
                                then multiset{TextBuf(ValueField, l[i].value.value)} else multiset{})
    ensures UpdateMallocs(value, useMalloc, a) == (if useMalloc && a.valueCopy && value.Some?
                                                  then multiset{TextBuf(ValueField, value.value)} else multiset{})
    ensures UpdateMallocs(value, useMalloc, a) + Held(l) == ValueHeld(l[i]) + Held(UpdateAt(l, i, value, useMalloc, a))
  {
    var p := l[i];
    var e := p.(value := NewValue(value, useMalloc, a), valueOwned := useMalloc);
    assert UpdateAt(l, i, value, useMalloc, a) == l[i := e];
    assert UpdateMallocs(value, useMalloc, a) == ValueHeld(e);
    assert KeyHeld(e) == KeyHeld(p);
    HeldUpdate(l, i, e);
    Rebalance(ValueHeld(e), ValueHeld(p), Held(l), Held(l[i := e]), EntryHeld(p), EntryHeld(e));
  }

  lemma InsertAccounts(l: seq<Entry>, key: string, value: Option<string>, useMalloc: bool, a: Alloc)
    ensures InsertMallocs(key, value, useMalloc, a) + Held(l)
            == InsertFrees(key, value, useMalloc, a) + Held(Insert(l, key, value, useMalloc, a))
  {
    InsertOutcome(l, key, value, useMalloc, a);
    if !Abandons(useMalloc, value, a) {
      var e := Entry(key, value, useMalloc, useMalloc);
      HeldConcat([e], l);
      HeldSingleton(e);
    }
  }

  /** `setProp` of one key leaves what every other key looks up to unchanged. */
  lemma UpsertFrame(l: seq<Entry>, key: string, value: Option<string>, useMalloc: bool, a: Alloc, k: string)
    requires k != key
    ensures Stored(Upsert(l, key, value, useMalloc, a), k) == Stored(l, k)
  {
    match Find(Keys(l), key)
    case Some(i) =>
      var e := l[i].(value := NewValue(value, useMalloc, a), valueOwned := useMalloc);
      assert UpdateAt(l, i, value, useMalloc, a) == l[i := e];
      StoredUpdate(l, i, e, k);
    case None =>
      InsertEntries(l, key, value, useMalloc, a);
      if !Abandons(useMalloc, value, a) {
        StoredPrepend(Entry(key, value, useMalloc, useMalloc), l, k);
      }
  }

  /** Rewriting one node in place, key kept, does not change what another key finds. */
  lemma StoredUpdate(l: seq<Entry>, i: nat, e: Entry, k: string)
    requires i < |l| && e.key == l[i].key && k != e.key
    ensures Stored(l[i := e], k) == Stored(l, k)
  {
    KeysUpdate(l, i, e);
  }

  /** A new head node under another key does not change what `k` finds. */
  lemma StoredPrepend(e: Entry, l: seq<Entry>, k: string)
    requires e.key != k
    ensures Stored([e] + l, k) == Stored(l, k)
  {
    KeysPrepend(e, l);
    FindPrepend(e.key, Keys(l), k);
    match Find(Keys(l), k)
    case None =>
    case Some(j) =>
      assert ([e] + l)[j + 1] == l[j];
  }

  /** Searching past a head that does not match shifts the index found by one. */
  lemma FindPrepend(x: string, ks: seq<string>, k: string)
    requires x != k
    ensures Find([x] + ks, k) == match Find(ks, k) case None => None case Some(j) => Some(j + 1)
  {
    assert ([x] + ks)[1..] == ks;
  }

  /** When `setProp` takes full effect: no copy fails and, for a new key, no node allocation fails. */
  predicate TakesEffect(l: seq<Entry>, key: string, value: Option<string>, useMalloc: bool, a: Alloc) {
    if key in Keys(l) then (useMalloc && value.Some? ==> a.valueCopy)
    else !Abandons(useMalloc, value, a)
  }

  /** After a `setProp` that takes effect, the key's node holds the given value, with value flag `useMalloc`. */
  lemma UpsertThenStored(l: seq<Entry>, key: string, value: Option<string>, useMalloc: bool, a: Alloc)
    requires TakesEffect(l, key, value, useMalloc, a)
    ensures var r := Stored(Upsert(l, key, value, useMalloc, a), key);
      r.Some? && r.value.value == value && r.value.valueOwned == useMalloc
  {
    match Find(Keys(l), key)
    case Some(i) =>
      var e := l[i].(value := NewValue(value, useMalloc, a), valueOwned := useMalloc);
      assert UpdateAt(l, i, value, useMalloc, a) == l[i := e];
      KeysUpdate(l, i, e);
    case None =>
      InsertEntries(l, key, value, useMalloc, a);
      KeysPrepend(Entry(key, value, useMalloc, useMalloc), l);
  }

  /** After a `setProp` that takes effect, `getProp` returns the value set, or the callout's result for NULL. */
  lemma UpsertThenLookup(l: seq<Entry>, key: string, value: Option<string>, useMalloc: bool, a: Alloc,
                         calloutKey: seq<string>, run: nat -> Option<string>)
    requires TakesEffect(l, key, value, useMalloc, a)
    ensures Lookup(Upsert(l, key, value, useMalloc, a), key, calloutKey, run)
            == if value.Some? then value else CalloutValue(calloutKey, run, key)
  {
    UpsertThenStored(l, key, value, useMalloc, a);
  }

  // ----------------------------------------------- what initializeProp leaves

  predicate NoOwnedFields(l: seq<Entry>) {
    forall i :: 0 <= i < |l| ==> !l[i].keyOwned && !l[i].valueOwned
  }

  /** Every buffer in `m` is a node: all of its multiplicity is `NodeBuf`'s. */
  predicate OnlyNodes(m: multiset<Buffer>) {
    m[NodeBuf] == |m|
  }

  /** A no-copy `setProp` allocates nothing but a node. */
  lemma UpsertOnlyNodes(l: seq<Entry>, key: string, value: Option<string>, a: Alloc)
    ensures OnlyNodes(UpsertMallocs(l, key, value, false, a))
  {
  }

  /** A no-copy `setProp` creates no owned field. */
  lemma UpsertNoOwned(l: seq<Entry>, key: string, value: Option<string>, a: Alloc)
    requires NoOwnedFields(l)
    ensures NoOwnedFields(Upsert(l, key, value, false, a))
  {
    match Find(Keys(l), key)
    case Some(i) =>
    case None => InsertEntries(l, key, value, false, a);
  }

  /**
   * A no-copy `setProp` gives no key a flag it did not have: an owned key
   * was owned before under the same key, and an owned value belongs to
   * another key's untouched node.
   */
  lemma UpsertNoCopyFlags(l: seq<Entry>, key: string, value: Option<string>, a: Alloc, k: string)
    ensures var r := Stored(Upsert(l, key, value, false, a), k);
      && (r.Some? && r.value.keyOwned ==> Stored(l, k).Some? && Stored(l, k).value.keyOwned)
      && (r.Some? && r.value.valueOwned ==> k != key && r == Stored(l, k))
  {
    if k != key {
      UpsertFrame(l, key, value, false, a, k);
    } else {
      match Find(Keys(l), key)
      case Some(i) =>
        var e := l[i].(value := value, valueOwned := false);
        assert UpdateAt(l, i, value, false, a) == l[i := e];
        KeysUpdate(l, i, e);
      case None =>
        InsertEntries(l, key, value, false, a);
        if !Abandons(false, value, a) {
          KeysPrepend(Entry(key, value, false, false), l);
        }
    }
  }

  lemma OnlyNodesUnion(a: multiset<Buffer>, b: multiset<Buffer>)
    requires OnlyNodes(a) && OnlyNodes(b)
    ensures OnlyNodes(a + b)
  {
  }

  /** Seeding allocates nodes only. */
  lemma {:induction false} SeededOnlyNodes(l: seq<Entry>, keys: seq<string>, values: seq<Option<string>>,
                                           alloc: nat -> Alloc, n: nat)
    requires n <= |keys| <= |values|
    ensures OnlyNodes(SeededMallocs(l, keys, values, alloc, n))
  {
    if n > 0 {
      var s := Seeded(l, keys, values, alloc, n - 1);
      SeededOnlyNodes(l, keys, values, alloc, n - 1);
      UpsertOnlyNodes(s, keys[n - 1], values[n - 1], alloc(n - 1));
      OnlyNodesUnion(SeededMallocs(l, keys, values, alloc, n - 1),
                     UpsertMallocs(s, keys[n - 1], values[n - 1], false, alloc(n - 1)));
    }
  }

  /** Seeding a list without owned fields creates none. */
  lemma {:induction false} SeededNoOwned(l: seq<Entry>, keys: seq<string>, values: seq<Option<string>>,
                                         alloc: nat -> Alloc, n: nat)
    requires n <= |keys| <= |values|
    requires NoOwnedFields(l)
    ensures NoOwnedFields(Seeded(l, keys, values, alloc, n))
  {
    if n > 0 {
      SeededNoOwned(l, keys, values, alloc, n - 1);
      UpsertNoOwned(Seeded(l, keys, values, alloc, n - 1), keys[n - 1], values[n - 1], alloc(n - 1));
    }
  }

  /** Seeding leaves every key it does not seed as it was. */
  lemma {:induction false} SeededFrame(l: seq<Entry>, keys: seq<string>, values: seq<Option<string>>,
                                       alloc: nat -> Alloc, n: nat, k: string)
    requires n <= |keys| <= |values|
    requires k !in keys[..n]
    ensures Stored(Seeded(l, keys, values, alloc, n), k) == Stored(l, k)
  {
    if n > 0 {
      assert keys[..n - 1] <= keys[..n];
      assert keys[n - 1] in keys[..n];
      SeededFrame(l, keys, values, alloc, n - 1, k);
      UpsertFrame(Seeded(l, keys, values, alloc, n - 1), keys[n - 1], values[n - 1], false, alloc(n - 1), k);
    }
  }

  /**
   * When every node allocation succeeds, seeding leaves every seeded key
   * present with a borrowed value: the one seeded last for that key.
   */
  lemma {:induction false} SeededLastWins(l: seq<Entry>, keys: seq<string>, values: seq<Option<string>>,
                                          alloc: nat -> Alloc, n: nat, j: nat)
    requires n <= |keys| <= |values|
    requires forall i :: 0 <= i < n ==> alloc(i).node
    requires j < n
    ensures var r := Stored(Seeded(l, keys, values, alloc, n), keys[j]);
      && r.Some?
      && r.value.value == values[LastIndex(keys, n, keys[j])]
      && !r.value.valueOwned
  {
    SeededStepStored(l, keys, values, alloc, n, keys[j]);
    if keys[n - 1] != keys[j] {
      SeededLastWins(l, keys, values, alloc, n - 1, j);
    }
  }

  /** The last seeded pair sets its key's value and leaves every other key as it was. */
  lemma SeededStepStored(l: seq<Entry>, keys: seq<string>, values: seq<Option<string>>,
                         alloc: nat -> Alloc, n: nat, k: string)
    requires 0 < n <= |keys| <= |values|
    requires alloc(n - 1).node
    ensures var r := Stored(Seeded(l, keys, values, alloc, n), k);
      if keys[n - 1] == k then r.Some? && r.value.value == values[n - 1] && !r.value.valueOwned
      else r == Stored(Seeded(l, keys, values, alloc, n - 1), k)
  {
    var prev := Seeded(l, keys, values, alloc, n - 1);
    if keys[n - 1] == k {
      UpsertThenStored(prev, k, values[n - 1], false, alloc(n - 1));
    } else {
      UpsertFrame(prev, keys[n - 1], values[n - 1], false, alloc(n - 1), k);
    }
  }

  /** One more seeded pair, seen from a fixed starting balance. */
  lemma SeededNext(l: seq<Entry>, keys: seq<string>, values: seq<Option<string>>,
                   alloc: nat -> Alloc, i: nat, m0: multiset<Buffer>, f0: multiset<Buffer>)
    requires i < |keys| <= |values|
    ensures var s := Seeded(l, keys, values, alloc, i);
      && Seeded(l, keys, values, alloc, i + 1) == Upsert(s, keys[i], values[i], false, alloc(i))
      && m0 + SeededMallocs(l, keys, values, alloc, i + 1)
         == m0 + SeededMallocs(l, keys, values, alloc, i) + UpsertMallocs(s, keys[i], values[i], false, alloc(i))
      && f0 + SeededFrees(l, keys, values, alloc, i + 1)
         == f0 + SeededFrees(l, keys, values, alloc, i) + UpsertFrees(s, keys[i], values[i], false, alloc(i))
  {
    var s := Seeded(l, keys, values, alloc, i);
    UnionAssoc(m0, SeededMallocs(l, keys, values, alloc, i), UpsertMallocs(s, keys[i], values[i], false, alloc(i)));
    UnionAssoc(f0, SeededFrees(l, keys, values, alloc, i), UpsertFrees(s, keys[i], values[i], false, alloc(i)));
  }

  // ------------------------------------------------ what finalizeProp frees

  /** Releasing every node settles the account: nothing stays allocated. */
  lemma FinalizeBalances(m: multiset<Buffer>, f: multiset<Buffer>, l: seq<Entry>)
    requires Accounted(m, f, l)
    ensures m == f + ReleaseAll(l)
    ensures Accounted(m, f + ReleaseAll(l), [])
  {
    ReleaseAllFreesHeld(l);
    assert Held([]) == multiset{};
  }

  /** One more node released, seen from a fixed starting balance. */
  lemma ReleaseAllNext(l: seq<Entry>, i: nat, f0: multiset<Buffer>)
    requires i < |l|
    ensures f0 + ReleaseAll(l[..i + 1]) == f0 + ReleaseAll(l[..i]) + EntryRelease(l[i])
  {
    assert l[..i + 1][..i] == l[..i];
    UnionAssoc(f0, ReleaseAll(l[..i]), EntryRelease(l[i]));
  }

  /**
   * `finalizeProp` frees exactly what the list holds: every node, every
   * owned key and every owned value, and nothing borrowed.
   */
  lemma {:induction false} ReleaseAllFreesHeld(l: seq<Entry>)
    ensures ReleaseAll(l) == Held(l)
  {
    if l != [] {
      var init, e := l[..|l| - 1], l[|l| - 1];
      ReleaseAllFreesHeld(init);
      assert l == init + [e];
      HeldConcat(init, [e]);
      HeldSingleton(e);
      EntryReleaseIsHeld(e);
    }
  }
}
