/** The bounds-checked subscript `c[safe: i]` that the app adds to every
    collection: the element when the index is in bounds, otherwise nil. */
module Extensions {

  import opened Wrappers

  /** `c[safe: i]` on an array-backed collection, whose indices are `0 ..< count`.
      It never traps, and it only reads `s`. */
  function SafeGet<T>(s: seq<T>, i: int): (r: Option<T>)
    ensures r.Some? <==> 0 <= i < |s|
    ensures r.Some? ==> r.value == s[i] && r.value in s
  {
    if 0 <= i < |s| then Some(s[i]) else None
  }

}
