/**
 * The configuration sub-system: two independent property sets, one for
 * the implementation's internal properties and one for the system
 * properties a MIDlet sees, with the public wrappers that set and get
 * through them. An internal lookup falls back to the system set.
 */
module Configuration {
  import opened Options
  import opened Heap
  import opened PropertyList
  import opened PropertySets
  import opened CString

  /**
   * `getInternalProperty`: the internal set's answer unless it is NULL,
   * then the system set's. Each tier's callouts run through their own
   * oracle, since a callout may answer differently each time it is called.
   */
  function LayeredLookup(internal: seq<Entry>, system: seq<Entry>, key: string, calloutKey: seq<string>,
                         runInternal: nat -> Option<string>, runSystem: nat -> Option<string>): Option<string> {
    var v := Lookup(internal, key, calloutKey, runInternal);
    if v.None? then Lookup(system, key, calloutKey, runSystem) else v
  }

  /** `getInternalPropertyInt`'s conversion: 0 for NULL, else `atoi`. */
  function IntOf(v: Option<string>): int {
    if v.None? then 0 else Atoi(v.value)
  }

  /** `getInternalPropDefault`'s substitution of a default for NULL. */
  function WithDefault(v: Option<string>, defValue: Option<string>): Option<string> {
    if v.None? then defValue else v
  }

  /** A non-NULL value stored in the internal set is the answer, whatever the system set holds. */
  lemma InternalTierWins(internal: seq<Entry>, system: seq<Entry>, key: string, calloutKey: seq<string>,
                         runInternal: nat -> Option<string>, runSystem: nat -> Option<string>, e: Entry)
    requires Stored(internal, key) == Some(e) && e.value.Some?
    ensures LayeredLookup(internal, system, key, calloutKey, runInternal, runSystem) == e.value
  {
  }

  /** A key the internal set does not hold is answered by the system set alone. */
  lemma SystemTierOnInternalMiss(internal: seq<Entry>, system: seq<Entry>, key: string, calloutKey: seq<string>,
                                 runInternal: nat -> Option<string>, runSystem: nat -> Option<string>)
    requires key !in Keys(internal)
    ensures LayeredLookup(internal, system, key, calloutKey, runInternal, runSystem)
            == Lookup(system, key, calloutKey, runSystem)
  {
  }

  /** A key neither tier holds looks up to NULL; in particular after `finalizeConfig`. */
  lemma LayeredMiss(internal: seq<Entry>, system: seq<Entry>, key: string, calloutKey: seq<string>,
                    runInternal: nat -> Option<string>, runSystem: nat -> Option<string>)
    requires key !in Keys(internal) && key !in Keys(system)
    ensures LayeredLookup(internal, system, key, calloutKey, runInternal, runSystem).None?
  {
  }

  /** A key neither set holds gets the default from `getInternalPropDefault`. */
  lemma DefaultOnMiss(internal: seq<Entry>, system: seq<Entry>, key: string, calloutKey: seq<string>,
                      runInternal: nat -> Option<string>, runSystem: nat -> Option<string>, defValue: Option<string>)
    requires key !in Keys(internal) && key !in Keys(system)
    ensures WithDefault(LayeredLookup(internal, system, key, calloutKey, runInternal, runSystem), defValue) == defValue
  {
  }

  /** A non-NULL internal value is returned by `getInternalPropDefault` in place of the default. */
  lemma DefaultNotOnHit(internal: seq<Entry>, system: seq<Entry>, key: string, calloutKey: seq<string>,
                        runInternal: nat -> Option<string>, runSystem: nat -> Option<string>,
                        defValue: Option<string>, e: Entry)
    requires Stored(internal, key) == Some(e) && e.value.Some?
    ensures WithDefault(LayeredLookup(internal, system, key, calloutKey, runInternal, runSystem), defValue) == e.value
  {
  }

  /** A value set in the internal tier, in copy mode and with every copy made, is what an internal lookup returns. */
  lemma SetInternalThenGet(internal: seq<Entry>, system: seq<Entry>, key: string, value: string, a: Alloc,
                           calloutKey: seq<string>, runInternal: nat -> Option<string>, runSystem: nat -> Option<string>)
    requires TakesEffect(internal, key, Some(value), true, a)
    ensures LayeredLookup(Upsert(internal, key, Some(value), true, a), system, key,
                          calloutKey, runInternal, runSystem) == Some(value)
  {
    UpsertThenLookup(internal, key, Some(value), true, a, calloutKey, runInternal);
  }

  /**
   * A value set in the system tier is what the system lookup returns, and
   * what an internal lookup returns when the internal tier does not hold the key.
   */
  lemma SetSystemThenGet(internal: seq<Entry>, system: seq<Entry>, key: string, value: string, a: Alloc,
                         calloutKey: seq<string>, runInternal: nat -> Option<string>, runSystem: nat -> Option<string>)
    requires TakesEffect(system, key, Some(value), true, a)
    ensures Lookup(Upsert(system, key, Some(value), true, a), key, calloutKey, runSystem) == Some(value)
    ensures key !in Keys(internal) ==>
      LayeredLookup(internal, Upsert(system, key, Some(value), true, a), key,
                    calloutKey, runInternal, runSystem) == Some(value)
  {
    UpsertThenLookup(system, key, Some(value), true, a, calloutKey, runSystem);
  }

  /** The decimal form of `n`, set in the internal tier, reads back as `n` through `getInternalPropertyInt`. */
  lemma SetIntThenGetInt(internal: seq<Entry>, system: seq<Entry>, key: string, n: int, a: Alloc,
                         calloutKey: seq<string>, runInternal: nat -> Option<string>, runSystem: nat -> Option<string>)
    requires TakesEffect(internal, key, Some(FormatInt(n)), true, a)
    ensures IntOf(LayeredLookup(Upsert(internal, key, Some(FormatInt(n)), true, a), system, key,
                                calloutKey, runInternal, runSystem)) == n
  {
    var v := LayeredLookup(Upsert(internal, key, Some(FormatInt(n)), true, a), system, key,
                           calloutKey, runInternal, runSystem);
    assert v == Some(FormatInt(n)) by {
      SetInternalThenGet(internal, system, key, FormatInt(n), a, calloutKey, runInternal, runSystem);
    }
    AtoiOfFormat(n);
  }

  class Config {
    /** `internalPropertySet`. */
    const internal: PropertySet
    /** `systemPropertySet`. */
    const system: PropertySet
    /** The callout registry's keys, without its NULL sentinel. */
    const calloutKey: seq<string>

    ghost predicate Valid()
      reads this, internal, system
    {
      internal != system && internal.Valid() && system.Valid()
    }

    /** Both list heads NULL, as the globals start. */
    constructor (calloutKey: seq<string>)
      ensures Valid() && fresh(internal) && fresh(system)
      ensures this.calloutKey == calloutKey
      ensures internal.entries == [] && system.entries == []
      ensures internal.mallocs == internal.frees == system.mallocs == system.frees == multiset{}
    {
      this.calloutKey := calloutKey;
      internal := new PropertySet();
      system := new PropertySet();
    }

    /**
     * `initializeConfig`: seed the internal set from its key/value tables,
     * then the system set from its own, in no-copy mode; always returns 0.
     */
    method InitializeConfig(internalKeys: seq<string>, internalValues: seq<Option<string>>, internalAlloc: nat -> Alloc,
                            systemKeys: seq<string>, systemValues: seq<Option<string>>, systemAlloc: nat -> Alloc)
      returns (status: int)
      requires Valid()
      requires |internalKeys| <= |internalValues| && |systemKeys| <= |systemValues|
      modifies internal, system
      ensures Valid() && status == 0
      ensures internal.SeededFrom(old(internal.entries), old(internal.mallocs), old(internal.frees),
                                  internalKeys, internalValues, internalAlloc, |internalKeys|)
      ensures system.SeededFrom(old(system.entries), old(system.mallocs), old(system.frees),
                                systemKeys, systemValues, systemAlloc, |systemKeys|)
    {
      internal.InitializeProp(internalKeys, internalValues, internalAlloc);
      system.InitializeProp(systemKeys, systemValues, systemAlloc);
      status := 0;
    }

    /** `finalizeConfig`: release both sets; afterwards no buffer of either stays allocated. */
    method FinalizeConfig()
      requires Valid()
      modifies internal, system
      ensures Valid()
      ensures internal.entries == [] && system.entries == []
      ensures internal.mallocs == old(internal.mallocs) && system.mallocs == old(system.mallocs)
      ensures internal.frees == old(internal.frees) + ReleaseAll(old(internal.entries))
      ensures system.frees == old(system.frees) + ReleaseAll(old(system.entries))
      ensures internal.mallocs == internal.frees && system.mallocs == system.frees
    {
      internal.FinalizeProp();
      system.FinalizeProp();
    }

    /** `setInternalProperty`: a copy-mode `setProp` on the internal set only. */
    method SetInternalProperty(key: string, value: Option<string>, a: Alloc)
      requires Valid()
      modifies internal
      ensures Valid() && unchanged(system)
      ensures internal.entries == Upsert(old(internal.entries), key, value, true, a)
      ensures internal.mallocs == old(internal.mallocs) + UpsertMallocs(old(internal.entries), key, value, true, a)
      ensures internal.frees == old(internal.frees) + UpsertFrees(old(internal.entries), key, value, true, a)
    {
      internal.SetProp(key, value, true, a);
    }

    /** `setSystemProperty`: a copy-mode `setProp` on the system set only. */
    method SetSystemProperty(key: string, value: Option<string>, a: Alloc)
      requires Valid()
      modifies system
      ensures Valid() && unchanged(internal)
      ensures system.entries == Upsert(old(system.entries), key, value, true, a)
      ensures system.mallocs == old(system.mallocs) + UpsertMallocs(old(system.entries), key, value, true, a)
      ensures system.frees == old(system.frees) + UpsertFrees(old(system.entries), key, value, true, a)
    {
      system.SetProp(key, value, true, a);
    }

    /** `getInternalProperty`: the internal set first, the system set on NULL. */
    method GetInternalProperty(key: string, runInternal: nat -> Option<string>, runSystem: nat -> Option<string>)
      returns (r: Option<string>)
      ensures r == LayeredLookup(internal.entries, system.entries, key, calloutKey, runInternal, runSystem)
    {
      r := internal.GetProp(key, calloutKey, runInternal);
      if r.None? {
        r := system.GetProp(key, calloutKey, runSystem);
      }
    }

    /** `getInternalPropertyInt`: the layered lookup, 0 for NULL, else its `atoi`. */
    method GetInternalPropertyInt(key: string, runInternal: nat -> Option<string>, runSystem: nat -> Option<string>)
      returns (n: int)
      ensures n == IntOf(LayeredLookup(internal.entries, system.entries, key, calloutKey, runInternal, runSystem))
    {
      var t := GetInternalProperty(key, runInternal, runSystem);
      n := if t.None? then 0 else Atoi(t.value);
    }

    /** `getInternalPropDefault`: the layered lookup, `defValue` for NULL. */
    method GetInternalPropDefault(key: string, defValue: Option<string>,
                                  runInternal: nat -> Option<string>, runSystem: nat -> Option<string>)
      returns (r: Option<string>)
      ensures r == WithDefault(LayeredLookup(internal.entries, system.entries, key, calloutKey, runInternal, runSystem),
                               defValue)
    {
      r := GetInternalProperty(key, runInternal, runSystem);
      if r.None? {
        r := defValue;
      }
    }

    /** `getSystemProperty`: the system set only. */
    method GetSystemProperty(key: string, runSystem: nat -> Option<string>) returns (r: Option<string>)
      ensures r == Lookup(system.entries, key, calloutKey, runSystem)
    {
      r := system.GetProp(key, calloutKey, runSystem);
    }
  }
}
