/**
 * A property set as the store keeps it: a list head updated in place,
 * with ghost bookkeeping of the heap buffers allocated and freed on its
 * behalf. Every method is proved to do what the matching function of
 * PropertyList says.
 */
module PropertySets {
  import opened Options
  import opened Heap
  import opened PropertyList

  /** `doCallout`: scan the registry up to its sentinel; call the first callout registered for `key`. */
  method DoCallout(calloutKey: seq<string>, run: nat -> Option<string>, key: string) returns (r: Option<string>)
    ensures r == CalloutValue(calloutKey, run, key)
  {
    var i := 0;
    while i < |calloutKey|
      invariant 0 <= i <= |calloutKey|
      invariant forall j :: 0 <= j < i ==> calloutKey[j] != key
    {
      if calloutKey[i] == key {
        r := run(i);
        return;
      }
      i := i + 1;
    }
    r := None;
  }

  class PropertySet {
    /** The linked list, head first. */
    var entries: seq<Entry>
    /** Every buffer allocated on this set's behalf. */
    ghost var mallocs: multiset<Buffer>
    /** Every buffer freed on this set's behalf. */
    ghost var frees: multiset<Buffer>

    ghost predicate Valid()
      reads this
    {
      UniqueKeys(entries) && Accounted(mallocs, frees, entries)
    }

    /** The empty set: a NULL list head. */
    constructor ()
      ensures Valid()
      ensures entries == [] && mallocs == multiset{} && frees == multiset{}
    {
      entries := [];
      mallocs, frees := multiset{}, multiset{};
    }

    /** `setProp`: upsert `key`; the allocation outcomes come from `a`. */
    method SetProp(key: string, value: Option<string>, useMalloc: bool, a: Alloc)
      requires Valid()
      modifies this
      ensures Valid()
      ensures entries == Upsert(old(entries), key, value, useMalloc, a)
      ensures mallocs == old(mallocs) + UpsertMallocs(old(entries), key, value, useMalloc, a)
      ensures frees == old(frees) + UpsertFrees(old(entries), key, value, useMalloc, a)
    {
      var i := 0;
      while i < |entries|
        invariant 0 <= i <= |entries|
        invariant forall j :: 0 <= j < i ==> entries[j].key != key
      {
        if entries[i].key == key {
          UpsertHit(entries, i, key, value, useMalloc, a);
          UpdateValue(i, value, useMalloc, a);
          return;
        }
        i := i + 1;
      }
      UpsertMiss(entries, key, value, useMalloc, a);
      AddNode(key, value, useMalloc, a);
    }

    /** The hit branch of `setProp`: replace the value of node `i`, the first that holds `key`. */
    method UpdateValue(i: nat, value: Option<string>, useMalloc: bool, a: Alloc)
      requires Valid()
      requires i < |entries|
      modifies this
      ensures Valid()
      ensures entries == UpdateAt(old(entries), i, value, useMalloc, a)
      ensures mallocs == old(mallocs) + UpdateMallocs(value, useMalloc, a)
      ensures frees == old(frees) + ValueHeld(old(entries)[i])
    {
      ghost var u := UpdateAt(entries, i, value, useMalloc, a);
      ghost var dm, df := UpdateMallocs(value, useMalloc, a), ValueHeld(entries[i]);
      assert UniqueKeys(u) && Accounted(mallocs + dm, frees + df, u) by {
        UpdateKeepsKeysUnique(entries, i, value, useMalloc, a);
        UpdateAccounts(entries, i, value, useMalloc, a);
        AccountedStep(mallocs, frees, entries, u, dm, df);
      }
      var p := entries[i];
      if p.valueOwned {
        frees := frees + TextAt(ValueField, p.value);
      }
      var v: Option<string>;
      if useMalloc {
        v := Strdup(value, a.valueCopy);
        mallocs := mallocs + TextAt(ValueField, v);
      } else {
        v := value;
      }
      // a failed copy leaves the value NULL
      entries := entries[i := p.(value := v, valueOwned := useMalloc)];
      assert entries == u;
      assert mallocs == old(mallocs) + dm;
      assert frees == old(frees) + df;
    }

    /** The miss branch of `setProp`: allocate and link a new head node, or give up. */
    method AddNode(key: string, value: Option<string>, useMalloc: bool, a: Alloc)
      requires Valid()
      requires key !in Keys(entries)
      modifies this
      ensures Valid()
      ensures entries == Insert(old(entries), key, value, useMalloc, a)
      ensures mallocs == old(mallocs) + InsertMallocs(key, value, useMalloc, a)
      ensures frees == old(frees) + InsertFrees(key, value, useMalloc, a)
    {
      ghost var u := Insert(entries, key, value, useMalloc, a);
      ghost var dm, df := InsertMallocs(key, value, useMalloc, a), InsertFrees(key, value, useMalloc, a);
      assert UniqueKeys(u) && Accounted(mallocs + dm, frees + df, u) by {
        InsertKeepsKeysUnique(entries, key, value, useMalloc, a);
        InsertAccounts(entries, key, value, useMalloc, a);
        AccountedStep(mallocs, frees, entries, u, dm, df);
      }
      if a.node {
        var k: Option<string>, v: Option<string>;
        if useMalloc {
          k, v := Strdup(Some(key), a.keyCopy), Strdup(value, a.valueCopy);
        } else {
          k, v := Some(key), value;
        }
        // the node, and the copies when copying
        mallocs := mallocs + (multiset{NodeBuf}
          + (if useMalloc then TextAt(KeyField, k) + TextAt(ValueField, v) else multiset{}));
        if k.None? || (v.None? && value.Some?) {
          // no memory: free the copies made, then the node
          frees := frees + ((if useMalloc then TextAt(KeyField, k) + TextAt(ValueField, v) else multiset{})
            + multiset{NodeBuf});
          assert entries == u && mallocs == old(mallocs) + dm && frees == old(frees) + df;
          return;
        }
        entries := [Entry(key, v, useMalloc, useMalloc)] + entries;
      }
      assert entries == u && mallocs == old(mallocs) + dm && frees == old(frees) + df;
    }

    /** `getProp`: the first node holding `key`; a NULL value is resolved by calling out, and not cached. */
    method GetProp(key: string, calloutKey: seq<string>, run: nat -> Option<string>) returns (r: Option<string>)
      ensures r == Lookup(entries, key, calloutKey, run)
    {
      var i := 0;
      while i < |entries|
        invariant 0 <= i <= |entries|
        invariant forall j :: 0 <= j < i ==> entries[j].key != key
      {
        if entries[i].key == key {
          if entries[i].value.None? {
            r := DoCallout(calloutKey, run, entries[i].key);
          } else {
            r := entries[i].value;
          }
          return;
        }
        i := i + 1;
      }
      r := None;
    }

    /** `initializeProp`: no-copy `setProp` of each key/value pair, in order, up to the key sentinel. */
    method InitializeProp(keys: seq<string>, values: seq<Option<string>>, alloc: nat -> Alloc)
      requires Valid()
      requires |keys| <= |values|
      modifies this
      ensures Valid()
      ensures SeededFrom(old(entries), old(mallocs), old(frees), keys, values, alloc, |keys|)
    {
      var i := 0;
      while i < |keys|
        invariant 0 <= i <= |keys|
        invariant Valid()
        invariant SeededFrom(old(entries), old(mallocs), old(frees), keys, values, alloc, i)
      {
        SeedNext(keys, values, alloc, i, old(entries), old(mallocs), old(frees));
        i := i + 1;
      }
    }

    /** The list and the heap account are those of seeding the first `n` pairs from `l`, `m0` and `f0`. */
    ghost predicate SeededFrom(l: seq<Entry>, m0: multiset<Buffer>, f0: multiset<Buffer>, keys: seq<string>,
                               values: seq<Option<string>>, alloc: nat -> Alloc, n: nat)
      requires n <= |keys| <= |values|
      reads this
    {
      && entries == Seeded(l, keys, values, alloc, n)
      && mallocs == m0 + SeededMallocs(l, keys, values, alloc, n)
      && frees == f0 + SeededFrees(l, keys, values, alloc, n)
    }

    /** One iteration of `initializeProp`. */
    method SeedNext(keys: seq<string>, values: seq<Option<string>>, alloc: nat -> Alloc, i: nat,
                    ghost l: seq<Entry>, ghost m0: multiset<Buffer>, ghost f0: multiset<Buffer>)
      requires Valid()
      requires i < |keys| <= |values|
      requires SeededFrom(l, m0, f0, keys, values, alloc, i)
      modifies this
      ensures Valid()
      ensures SeededFrom(l, m0, f0, keys, values, alloc, i + 1)
    {
      SeededNext(l, keys, values, alloc, i, m0, f0);
      SetProp(keys[i], values[i], false, alloc(i));
    }

    /** One iteration of `finalizeProp`: free the owned key copy, the owned value copy, then the node. */
    method ReleaseNode(i: nat)
      requires i < |entries|
      modifies this
      ensures entries == old(entries) && mallocs == old(mallocs)
      ensures frees == old(frees) + EntryRelease(entries[i])
    {
      var p := entries[i];
      ghost var freed: multiset<Buffer> := multiset{};
      if p.keyOwned {
        freed := freed + TextAt(KeyField, Some(p.key));
      }
      if p.valueOwned {
        freed := freed + TextAt(ValueField, p.value);
      }
      freed := freed + multiset{NodeBuf};
      frees := frees + freed;
    }

    /** `finalizeProp`: free every node and exactly the flagged fields, then empty the list. */
    method FinalizeProp()
      requires Valid()
      modifies this
      ensures Valid()
      ensures entries == [] && mallocs == old(mallocs)
      ensures frees == old(frees) + ReleaseAll(old(entries))
      ensures mallocs == frees
    {
      var i := 0;
      while i < |entries|
        invariant 0 <= i <= |entries|
        invariant entries == old(entries) && mallocs == old(mallocs)
        invariant frees == old(frees) + ReleaseAll(entries[..i])
      {
        ReleaseAllNext(entries, i, old(frees));
        ReleaseNode(i);
        i := i + 1;
      }
      assert entries[..i] == entries;
      FinalizeBalances(mallocs, old(frees), entries);
      entries := [];
    }
  }
}
