/**
 * The part of the heap the property store uses, seen through `midpMalloc`,
 * `midpStrdup` and `midpFree`. Pointers are not modelled: the store's
 * allocations and frees are counted as multisets of buffers, by what they hold.
 */
module Heap {
  import opened Options

  /** Which string field of a property a copied buffer backs. */
  datatype Field = KeyField | ValueField

  /** A heap buffer: a list node, or a string copy made for one field. */
  datatype Buffer = NodeBuf | TextBuf(field: Field, text: string)

  /**
   * Outcome oracle for the allocations one `setProp` call may make: the node
   * (`midpMalloc`), the key copy and the value copy (`midpStrdup`).
   */
  datatype Alloc = Alloc(node: bool, keyCopy: bool, valueCopy: bool)

  /** `midpStrdup`: NULL yields NULL, and so does a failed allocation. */
  function Strdup(s: Option<string>, ok: bool): (r: Option<string>)
    ensures r.Some? <==> s.Some? && ok
    ensures r.Some? ==> r == s
  {
    if ok then s else None
  }

  /**
   * The buffer a string pointer of field `f` designates: none for NULL, which
   * `midpStrdup` may return and `midpFree` ignores.
   */
  function TextAt(f: Field, p: Option<string>): (m: multiset<Buffer>)
    ensures |m| <= 1
    ensures p.None? ==> m == multiset{}
    ensures p.Some? ==> m == multiset{TextBuf(f, p.value)}
  {
    if p.Some? then multiset{TextBuf(f, p.value)} else multiset{}
  }
}
