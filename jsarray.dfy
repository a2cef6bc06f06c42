/** The two Array.prototype predicates the descriptor uses: `every` and `some`. */
module JsArray {

  /** `s.every(p)`: p holds of every element, checked from the front. */
  function Every<T>(s: seq<T>, p: T -> bool): (b: bool)
    ensures b <==> forall i | 0 <= i < |s| :: p(s[i])
  {
    if |s| == 0 then true else p(s[0]) && Every(s[1..], p)
  }

  /** `s.some(p)`: p holds of at least one element, checked from the front. */
  function Any<T>(s: seq<T>, p: T -> bool): (b: bool)
    ensures b <==> exists i | 0 <= i < |s| :: p(s[i])
  {
    if |s| == 0 then false
    else if p(s[0]) then assert p(s[0]); true
    else Any(s[1..], p)
  }
}
