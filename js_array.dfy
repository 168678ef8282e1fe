/** The two array operations the loader uses: reading an element by index and `shift`. */
module JsArray {
  import opened Wrappers

  /** `a[k]` on a JavaScript array: `undefined` when the index is past the end. */
  function Index<T>(a: seq<T>, k: nat): (r: Option<T>)
    ensures r.Some? <==> k < |a|
    ensures r.Some? ==> r.value == a[k]
  {
    if k < |a| then Some(a[k]) else None
  }

  /** What `shift()` returns, and what the array holds afterwards. */
  datatype Shifted<T> = Shifted(removed: Option<T>, rest: seq<T>)

  /** `Array.prototype.shift`: removes the first element and returns it
      (`undefined` on an empty array, which it leaves empty). */
  function Shift<T>(a: seq<T>): (r: Shifted<T>)
    ensures r.removed.None? <==> a == []
    ensures a == (match r.removed case Some(x) => [x] + r.rest case None => r.rest)
    ensures |r.rest| == if a == [] then 0 else |a| - 1
  {
    if a == [] then Shifted(None, []) else Shifted(Some(a[0]), a[1..])
  }
}
