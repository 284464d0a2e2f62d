/** The parts of JavaScript's Array.prototype that the bot's helpers rely on,
    modelled on immutable sequences. */
module JsArray {

  function Min(a: int, b: int): int { if a <= b then a else b }

  function Max(a: int, b: int): int { if a <= b then b else a }

  /** How `slice` turns an argument into a position: a negative argument
      counts back from the end, and the result is clamped to `[0, len]`. */
  function RelativeIndex(k: int, len: nat): (r: nat)
    ensures r <= len
    ensures 0 <= k ==> r == Min(k, len)
  {
    if k < 0 then Max(len + k, 0) else Min(k, len)
  }

  /** `s.slice(start, end)`: the elements from the relative start up to, not
      including, the relative end; empty when the end is not past the start. */
  function Slice<T>(s: seq<T>, start: int, end: int): (r: seq<T>)
    ensures |r| == Max(RelativeIndex(end, |s|) - RelativeIndex(start, |s|), 0)
    ensures forall k :: 0 <= k < |r| ==> r[k] == s[RelativeIndex(start, |s|) + k]
  {
    var from, to := RelativeIndex(start, |s|), RelativeIndex(end, |s|);
    if from < to then s[from..to] else []
  }

  /** `s.some(test)`: scans from the left and stops at the first element that
      passes; true exactly when some element passes. */
  function Some<T>(s: seq<T>, test: T -> bool): (r: bool)
    ensures r <==> exists i :: 0 <= i < |s| && test(s[i])
  {
    if s == [] then false
    else if test(s[0]) then true
    else
      assert forall i :: 1 <= i < |s| ==> s[i] == s[1..][i - 1];
      Some(s[1..], test)
  }

  /** The lists of `ss` joined end to end, in order: the join used to state
      that a list of groups rebuilds the list it was cut from. */
  function Flat<T>(ss: seq<seq<T>>): seq<T>
  {
    if ss == [] then [] else ss[0] + Flat(ss[1..])
  }
}
