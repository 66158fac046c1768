/** The JavaScript `Array.prototype` operations the handlers rely on, with the
    edge cases of the language kept: a lookup with `find` or `indexOf` finds the
    first match, modelled as its position with -1 when nothing matches, and
    `splice` counts a negative start back from the end. */
module JsArray {

  /** The JavaScript values a `map` callback can produce here: a string, or
      `undefined` from a block-bodied arrow function without `return`. */
  datatype JsValue = Undefined | Str(s: string)

  /** The position of the first element satisfying `p`, or -1: the element
      `xs.find(p)` answers (`undefined` when there is none), as a position. */
  function FindIndex<T>(xs: seq<T>, p: T -> bool): (r: int)
    ensures -1 <= r < |xs|
    ensures 0 <= r ==> p(xs[r]) && forall j :: 0 <= j < r ==> !p(xs[j])
    ensures r == -1 <==> forall j :: 0 <= j < |xs| ==> !p(xs[j])
  {
    if |xs| == 0 then -1
    else if p(xs[0]) then 0
    else
      var k := FindIndex(xs[1..], p);
      if k == -1 then -1 else k + 1
  }

  /** `xs.indexOf(x)`: the first position holding `x`, or -1. */
  function IndexOf<T(==)>(xs: seq<T>, x: T): (r: int)
    ensures -1 <= r < |xs|
    ensures 0 <= r ==> xs[r] == x && forall j :: 0 <= j < r ==> xs[j] != x
    ensures r == -1 <==> x !in xs
  {
    FindIndex(xs, y => y == x)
  }

  /** `xs.map(f)` with a callback that returns a value. */
  function Map<T, U>(xs: seq<T>, f: T -> U): (r: seq<U>)
    ensures |r| == |xs|
    ensures forall i :: 0 <= i < |xs| ==> r[i] == f(xs[i])
  {
    seq(|xs|, i requires 0 <= i < |xs| => f(xs[i]))
  }

  /** `xs.map(item => { item.id; })`: the block body returns nothing, so every
      element becomes `undefined`. */
  function MapToUndefined<T>(xs: seq<T>): (r: seq<JsValue>)
    ensures |r| == |xs|
    ensures forall v :: v in r ==> v == Undefined
  {
    seq(|xs|, _ => Undefined)
  }

  /** Looking a string up among the results of such a `map` finds nothing,
      whatever the array held. */
  lemma UndefinedHoldsNoString<T>(xs: seq<T>, s: string)
    ensures IndexOf(MapToUndefined(xs), Str(s)) == -1
  {
    assert Str(s) !in MapToUndefined(xs);
  }

  /** `xs.splice(start, 1)`, the array left behind. A start in [-|xs|, 0) counts
      back from the end, one below -|xs| is clamped to 0, and one at or past the
      end removes nothing. */
  function Splice<T>(xs: seq<T>, start: int): (r: seq<T>)
    ensures 0 <= start < |xs| ==> r == xs[..start] + xs[start + 1..]
    ensures start == -1 && |xs| > 0 ==> r == xs[..|xs| - 1]
    ensures start < -|xs| && |xs| > 0 ==> r == xs[1..]
    ensures start >= |xs| || |xs| == 0 ==> r == xs
    ensures |r| == |xs| - 1 || r == xs
  {
    var k := if start >= 0 then start else if |xs| + start >= 0 then |xs| + start else 0;
    if k < |xs| then xs[..k] + xs[k + 1..] else xs
  }
}
