/** `replace(arr, idx, value)`: a copy of an array with one element replaced,
    either by a value or by a function of the old element. */
module Replace {

  /** What goes in at the index: a plain value, or a function of the old one. */
  datatype Update<!T> = Value(v: T) | Apply(f: T -> T)

  /** The new element an update makes of the old one. */
  function Updated<T>(previous: T, u: Update<T>): T {
    match u
    case Value(v) => v
    case Apply(f) => f(previous)
  }

  /** The copy of `arr` with the element at `idx` updated; an index that is
      not one of the array's (`idx in arrCopy` is false) returns a plain copy. */
  function Replace<T>(arr: seq<T>, idx: int, u: Update<T>): (r: seq<T>)
    ensures |r| == |arr|
    ensures forall i :: 0 <= i < |arr| && i != idx ==> r[i] == arr[i]
    ensures !(0 <= idx < |arr|) ==> r == arr
  {
    if !(0 <= idx < |arr|) then arr
    else arr[idx := Updated(arr[idx], u)]
  }

  /** At an index of the array a plain value lands there, and a function
      receives the old element and its result lands there. */
  lemma ReplaceAt<T>(arr: seq<T>, idx: int, x: T, f: T -> T)
    requires 0 <= idx < |arr|
    ensures Replace(arr, idx, Value(x))[idx] == x
    ensures Replace(arr, idx, Apply(f))[idx] == f(arr[idx])
  {
  }

  /** Applying a function is replacing by its value at the old element. */
  lemma ApplyIsValue<T>(arr: seq<T>, idx: int, f: T -> T)
    requires 0 <= idx < |arr|
    ensures Replace(arr, idx, Apply(f)) == Replace(arr, idx, Value(f(arr[idx])))
  {
  }

  /** Putting the old element back undoes a replacement. */
  lemma ReplaceRestore<T>(arr: seq<T>, idx: int, u: Update<T>)
    requires 0 <= idx < |arr|
    ensures Replace(Replace(arr, idx, u), idx, Value(arr[idx])) == arr
  {
  }

  /** Replacing by the same value twice is replacing once, and the later of
      two replacements at one index is the one that stays. */
  lemma ReplaceOverwrites<T>(arr: seq<T>, idx: int, u: Update<T>, x: T)
    ensures Replace(Replace(arr, idx, u), idx, Value(x)) == Replace(arr, idx, Value(x))
  {
  }

  /** Replacements at two different indices commute. */
  lemma ReplaceCommutes<T>(arr: seq<T>, i: int, j: int, x: T, y: T)
    requires i != j
    ensures Replace(Replace(arr, i, Value(x)), j, Value(y)) == Replace(Replace(arr, j, Value(y)), i, Value(x))
  {
  }
}
