# MIDP configuration property store, modelled in Dafny

This project models the native configuration property store of the MIDP
runtime (`midp_properties_static.c`). The store keeps two independent
property sets: the internal set for the implementation and the system set
that applications see. Each set is a singly linked list of nodes. A node holds
a key, an optional value and two ownership flags. A flag says whether the
field is a heap copy the store must free, or a borrowed pointer into the
static seed tables or the caller's memory.

The model has six modules:

- `Options` (option.dfy): the optional value; `None` stands for a NULL pointer.
- `Heap` (heap.dfy): `midpStrdup` and the buffers that `midpMalloc` and
  `midpFree` allocate and release. Pointers are not modelled. Each buffer is
  a node or a string copy for a key or a value, told apart by content, and the
  allocations and frees a set causes are multisets of such buffers.
  The outcome of each allocation is an oracle parameter (`Alloc`).
- `PropertyList` (property_list.dfy): the specification over values.
  - `Upsert` is `setProp`, `Lookup` is `getProp`, `CalloutValue` is `doCallout`,
    `Seeded` is `initializeProp` and `ReleaseAll` is `finalizeProp`.
  - `Upsert`, `UpdateAt`, `Insert` and `Seeded` return the new list. Beside
    each, a pair of functions returns the buffers it allocates and frees:
    `UpsertMallocs` and `UpsertFrees`, `UpdateMallocs` and `ValueHeld`,
    `InsertMallocs` and `InsertFrees`, `SeededMallocs` and `SeededFrees`.
    `ReleaseAll` returns the buffers `finalizeProp` frees; `Lookup` and
    `CalloutValue` return the value found.
  - `Held` is what a list owns. `Accounted` is the no-leak invariant: every
    buffer ever allocated was freed, or is held by exactly one node.
  - The lemmas state what each operation promises.
- `PropertySets` (property_set.dfy): `DoCallout`, and `class PropertySet`,
  whose methods run the source's loops in place over the list head. Each
  method is proved to leave the list and the ghost allocation and free
  counts exactly as the matching `PropertyList` function says. The methods
  that change the list (`SetProp`, `UpdateValue`, `AddNode`, `InitializeProp`,
  `SeedNext`, `FinalizeProp`) preserve `Valid()`: keys are unique and the heap
  is accounted for. `ReleaseNode` is one step of `FinalizeProp`'s loop; it
  records a node's frees without emptying the list, so `Valid()` holds again
  only once `FinalizeProp` has released every node and emptied the list.
- `CString` (cstring.dfy): the C library's `atoi`, and the decimal rendering
  that it reads back.
- `Configuration` (config.dfy): `class Config` holds the two sets and the
  callout registry, and carries the public wrappers. The module also has the
  layered lookup and the lemmas about tier order.

The callout functions are oracles `run: nat -> Option<string>`; `run(i)` is
what the i-th registered function returns on that call. A layered lookup
takes one oracle per tier, because a callout may return something different
each time it is called. The seed tables and the callout keys are parameters,
without their NULL sentinels.

Four points of the code's behaviour are easy to misread; the model follows
the code:

- An update in copy mode does not make the entry fully owned. Only the
  value and the value flag change; the key and its flag stay as they were
  (`UpdateOutcome`).
- A new key is linked at the head of the list, not appended.
- When every allocation the call needs succeeds (`TakesEffect`), a `get`
  after a `set` returns the value set, or the callout's result when that
  value is NULL (`UpsertThenLookup`). A failed copy or node allocation can
  lose the value.
- `finalizeProp` frees one owned key per node only if the node's key was
  copied. A seeded key that was later updated in copy mode keeps its
  borrowed key, and an owned NULL value frees nothing (`ReleaseAllFreesHeld`).

## Model

| member | source | states |
|---|---|---|
| PropertyList.Find | src/configuration/properties_port/static/native/midp_properties_static.c:136-137 | the `strcmp` scan stops at the first node whose key equals the argument; no earlier key matches; it finds none iff the key is absent |
| PropertyList.Stored | src/configuration/properties_port/static/native/midp_properties_static.c:199-208 | a lookup reaches a node iff the key is in the list, and that node holds the key |
| PropertyList.LastIndex | src/configuration/properties_port/static/native/midp_properties_static.c:227-229 | the last position of a key among the first `n` seed pairs: it holds the key and no later one of them does |
| PropertyList.UpdateOutcome | src/configuration/properties_port/static/native/midp_properties_static.c:136-153 | an update of an existing key keeps the list's length, every other node, the key and its key flag; the value flag becomes `useMalloc`; a failed copy leaves the value NULL; otherwise the value is the argument |
| PropertyList.UpdateAccounts | src/configuration/properties_port/static/native/midp_properties_static.c:138-147 | the update frees the old value iff it was owned and not NULL, allocates a value copy iff in copy mode with a non-NULL value and a successful copy, and the heap remains accounted for |
| PropertyList.InsertEntries | src/configuration/properties_port/static/native/midp_properties_static.c:157-182 | a miss prepends exactly one node carrying the key and value, both flags equal to `useMalloc`; if the node, the key copy or a needed value copy fails, the list is left as it was |
| PropertyList.InsertOutcome | src/configuration/properties_port/static/native/midp_properties_static.c:157-183 | a given-up insertion frees exactly what it allocated; a linked one frees nothing and allocates exactly the node and the copies the new node owns |
| PropertyList.InsertAccounts | src/configuration/properties_port/static/native/midp_properties_static.c:157-183 | the miss branch keeps the heap accounted for |
| PropertyList.UpsertAccounts | src/configuration/properties_port/static/native/midp_properties_static.c:132-184 | `setProp` keeps the heap accounted for: allocated plus previously held equals freed plus newly held |
| PropertyList.UpdateKeepsKeysUnique | src/configuration/properties_port/static/native/midp_properties_static.c:136-153 | updating a node leaves keys unique |
| PropertyList.InsertKeepsKeysUnique | src/configuration/properties_port/static/native/midp_properties_static.c:156-183 | prepending a key that was not found leaves keys unique |
| PropertyList.UpsertKeepsKeysUnique | src/configuration/properties_port/static/native/midp_properties_static.c:132-184 | `setProp` never makes a key appear twice |
| PropertyList.UpsertHit | src/configuration/properties_port/static/native/midp_properties_static.c:136-152 | a scan that stops at the first node holding the key takes the hit branch: the list, allocations and frees of `setProp` are those of updating that node |
| PropertyList.UpsertFrame | src/configuration/properties_port/static/native/midp_properties_static.c:132-184 | `setProp` of one key does not change the node any other key finds |
| PropertyList.StoredUpdate | src/configuration/properties_port/static/native/midp_properties_static.c:137-152 | rewriting the matched node in place does not change what another key finds |
| PropertyList.StoredPrepend | src/configuration/properties_port/static/native/midp_properties_static.c:159-182 | a new head node under another key does not change what a key finds |
| PropertyList.UpsertThenStored | src/configuration/properties_port/static/native/midp_properties_static.c:132-184 | after a `setProp` whose allocations succeed, the key's node holds the given value, with value flag `useMalloc` |
| PropertyList.UpsertThenLookup | src/configuration/properties_port/static/native/midp_properties_static.c:132-210 | after such a `setProp`, `getProp` returns the value set, or the callout's result when the value set was NULL |
| PropertyList.UpsertOnlyNodes | src/configuration/properties_port/static/native/midp_properties_static.c:166-171 | a no-copy `setProp` allocates nothing but a node |
| PropertyList.UpsertNoOwned | src/configuration/properties_port/static/native/midp_properties_static.c:144-171 | a no-copy `setProp` creates no owned field |
| PropertyList.UpsertNoCopyFlags | src/configuration/properties_port/static/native/midp_properties_static.c:144-171 | on any list, after a no-copy `setProp` an owned key was owned before under that key, and an owned value belongs to another key's unchanged node |
| PropertyList.SeededOnlyNodes | src/configuration/properties_port/static/native/midp_properties_static.c:223-231 | `initializeProp` allocates nodes only, never a string copy |
| PropertyList.SeededNoOwned | src/configuration/properties_port/static/native/midp_properties_static.c:223-231 | seeding a list without owned fields leaves it without owned fields |
| PropertyList.SeededFrame | src/configuration/properties_port/static/native/midp_properties_static.c:223-231 | seeding leaves every key that is not in the table as it was |
| PropertyList.SeededStepStored | src/configuration/properties_port/static/native/midp_properties_static.c:223-231 | one more seed iteration, its node allocated, sets its key's value, borrowed, and leaves every other key's node as it was |
| PropertyList.SeededLastWins | src/configuration/properties_port/static/native/midp_properties_static.c:223-231 | when node allocations succeed, every seeded key is present with a borrowed value, the one seeded last for that key |
| PropertyList.ReleaseAllFreesHeld | src/configuration/properties_port/static/native/midp_properties_static.c:238-257 | the frees `finalizeProp` makes node by node, from the flags as lines 246-253 test them, are exactly the buffers the `Accounted` invariant says the list holds, whatever order the walk takes; the no-leak guarantee itself is `FinalizeProp`'s `mallocs == frees`, which rests on every mutator keeping `Accounted` |
| PropertyList.FinalizeBalances | src/configuration/properties_port/static/native/midp_properties_static.c:238-257 | once an accounted list is released, everything allocated has been freed and the empty list is accounted for |
| PropertySets.DoCallout | src/configuration/properties_port/static/native/midp_properties_static.c:103-112 | the registry scan returns the result of the first callout registered for the key, and NULL if none is |
| PropertySets.PropertySet.constructor | src/configuration/properties_port/static/native/midp_properties_static.c:90-92 | a set starts as a NULL list head, with nothing allocated |
| PropertySets.PropertySet.SetProp | src/configuration/properties_port/static/native/midp_properties_static.c:132-184 | the scan-then-update-or-prepend leaves the list, the allocations and the frees exactly as `Upsert`, `UpsertMallocs` and `UpsertFrees` say, and keeps keys unique and the heap accounted for |
| PropertySets.PropertySet.UpdateValue | src/configuration/properties_port/static/native/midp_properties_static.c:137-152 | the hit branch, in place, leaves the list of `UpdateAt`, allocates `UpdateMallocs` and frees the old value if owned |
| PropertySets.PropertySet.AddNode | src/configuration/properties_port/static/native/midp_properties_static.c:156-183 | the miss branch, including the undo on failure, leaves the list of `Insert` and allocates and frees `InsertMallocs` and `InsertFrees` |
| PropertySets.PropertySet.GetProp | src/configuration/properties_port/static/native/midp_properties_static.c:195-210 | the read-only scan returns `Lookup`: the first match's value, the callout's result for a NULL value, NULL for a miss |
| PropertySets.PropertySet.InitializeProp | src/configuration/properties_port/static/native/midp_properties_static.c:223-231 | the loop of no-copy `setProp` calls leaves the list and heap counts of `Seeded` over the whole table |
| PropertySets.PropertySet.ReleaseNode | src/configuration/properties_port/static/native/midp_properties_static.c:246-253 | one node's release frees its flagged fields and the node, and changes nothing else |
| PropertySets.PropertySet.FinalizeProp | src/configuration/properties_port/static/native/midp_properties_static.c:238-257 | the walk frees `ReleaseAll` of the old list, empties it, and leaves nothing allocated |
| CString.SkipSpaces | src/configuration/properties_port/static/native/midp_properties_static.c:334 | the rest after leading white space: a suffix, preceded only by white space, starting with a non-space |
| CString.DigitRun | src/configuration/properties_port/static/native/midp_properties_static.c:334 | the longest prefix of decimal digits |
| CString.AtoiFormatInt | src/configuration/properties_port/static/native/midp_properties_static.c:334 | `atoi` reads back the decimal form of any integer, after any white space and before any non-digit |
| CString.AtoiOfFormat | src/configuration/properties_port/static/native/midp_properties_static.c:334 | `atoi` of the decimal form of `n` is `n` |
| CString.AtoiNonNumeric | src/configuration/properties_port/static/native/midp_properties_static.c:334 | a string not starting, after white space, with a sign or a digit reads as 0 |
| Configuration.InternalTierWins | src/configuration/properties_port/static/native/midp_properties_static.c:307-316 | a non-NULL value stored in the internal set is the layered answer, whatever the system set holds |
| Configuration.SystemTierOnInternalMiss | src/configuration/properties_port/static/native/midp_properties_static.c:307-316 | a key the internal set lacks is answered by the system set's lookup alone |
| Configuration.LayeredMiss | src/configuration/properties_port/static/native/midp_properties_static.c:307-316 | a key that neither tier holds looks up to NULL |
| Configuration.DefaultOnMiss | src/configuration/properties_port/static/native/midp_properties_static.c:350-360 | a key neither set holds gets `defValue` |
| Configuration.DefaultNotOnHit | src/configuration/properties_port/static/native/midp_properties_static.c:350-360 | a non-NULL internal value is returned instead of `defValue` |
| Configuration.SetInternalThenGet | src/configuration/properties_port/static/native/midp_properties_static.c:292-316 | a value set internally, with its copies made, is what the layered lookup returns |
| Configuration.SetSystemThenGet | src/configuration/properties_port/static/native/midp_properties_static.c:369-386 | a value set in the system tier is what the system lookup returns, and what the layered lookup returns when the internal tier lacks the key |
| Configuration.SetIntThenGetInt | src/configuration/properties_port/static/native/midp_properties_static.c:292-335 | the decimal form of `n`, set internally, reads back as `n` through the integer getter |
| Configuration.Config.constructor | src/configuration/properties_port/static/native/midp_properties_static.c:89-92 | both list heads start NULL, in two distinct sets |
| Configuration.Config.InitializeConfig | src/configuration/properties_port/static/native/midp_properties_static.c:264-272 | seeds the internal set, then the system set, each from its own tables, and returns 0 |
| Configuration.Config.FinalizeConfig | src/configuration/properties_port/static/native/midp_properties_static.c:279-283 | releases both sets; afterwards both are empty and nothing of either stays allocated |
| Configuration.Config.SetInternalProperty | src/configuration/properties_port/static/native/midp_properties_static.c:292-295 | a copy-mode `setProp` on the internal set; the system set is untouched |
| Configuration.Config.SetSystemProperty | src/configuration/properties_port/static/native/midp_properties_static.c:369-372 | a copy-mode `setProp` on the system set; the internal set is untouched |
| Configuration.Config.GetInternalProperty | src/configuration/properties_port/static/native/midp_properties_static.c:307-316 | returns the layered lookup: internal first, system on NULL |
| Configuration.Config.GetInternalPropertyInt | src/configuration/properties_port/static/native/midp_properties_static.c:329-335 | 0 when the layered lookup is NULL, otherwise its `atoi` |
| Configuration.Config.GetInternalPropDefault | src/configuration/properties_port/static/native/midp_properties_static.c:350-360 | the layered lookup, or `defValue` when it is NULL |
| Configuration.Config.GetSystemProperty | src/configuration/properties_port/static/native/midp_properties_static.c:383-386 | the system set's lookup only |

## Left out

- Pointers and aliasing. Buffers are told apart by content, not address. Suppose the value passed to `setProp` in copy mode is the pointer already stored in a node with an owned value, as in `setInternalProperty(k, getInternalProperty(k))`. The source then frees that value before `midpStrdup` reads it. The model cannot express this use-after-free.
- The order of frees is not modelled. Allocations and frees are counted as multisets, not kept as sequences.
- The allocator is an oracle. `midpMalloc` and `midpStrdup` success is the `Alloc` parameter, `midpStrdup(NULL)` is taken to be NULL, matching the check on line 173, and `midpFree(NULL)` is taken to free nothing (`TextAt` gives no buffer for NULL).
- Callout functions are oracles. What they compute, and their side effects, are outside the model.
- A NULL key passed to `setProp` or `getProp` is not modelled. `strcmp` on NULL is undefined in C, and every caller passes a key.
- CString.Atoi: does not model C's undefined behaviour on overflow; the result is an unbounded integer.
- CString.Atoi: reads only ASCII digits and C-locale white space; locales are not modelled.
- The `(const char*)` casts of the seed tables on lines 266 and 268 are a C typing detail with no behaviour.
- The generated seed tables and the callout registry (`midp_internalKey`, `midp_internalValue`, `midp_systemKey`, `midp_systemValue`, `calloutKey`, `calloutFunction`) are parameters. Their contents are not part of this model.
- The SDL display and event shims, `lfjport_st_export.c` and `midp_msgQueue_md.c`, are not part of this model. They are hardware porting layers, not property-store logic.
