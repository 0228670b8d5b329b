/**
 * The three query shapes the service runs over a collection, stated once:
 * `findOne` (the first record in collection order that matches),
 * `countDocuments` and `find` (all matching records, in collection order).
 */
module Collections {
  import opened Wrappers

  /** The index of the first element satisfying `p`, if any. */
  function FirstWhere<T>(xs: seq<T>, p: T -> bool): (found: Option<nat>)
    ensures found.None? <==> forall i :: 0 <= i < |xs| ==> !p(xs[i])
    ensures found.Some? ==>
      found.value < |xs| && p(xs[found.value]) && forall j :: 0 <= j < found.value ==> !p(xs[j])
  {
    if xs == [] then None
    else if p(xs[0]) then Some(0)
    else
      match FirstWhere(xs[1..], p)
      case None => None
      case Some(k) =>
        assert forall j :: 0 < j <= k ==> xs[j] == xs[1..][j - 1];
        Some(k + 1)
  }

  ghost function Matching<T>(xs: seq<T>, p: T -> bool): set<nat> {
    set i: nat | i < |xs| && p(xs[i])
  }

  /** The matching positions of a non-empty sequence: those of all but its last element, and maybe the last. */
  lemma MatchingLast<T>(xs: seq<T>, p: T -> bool)
    requires xs != []
    ensures Matching(xs, p) ==
      Matching(xs[..|xs| - 1], p) + (if p(xs[|xs| - 1]) then {|xs| - 1} else {})
  {
    var init := xs[..|xs| - 1];
    forall i: nat | i < |init| ensures xs[i] == init[i] { }
  }

  /** The number of elements satisfying `p`: the size of the set of their positions. */
  function Count<T>(xs: seq<T>, p: T -> bool): (n: nat)
    ensures n == |Matching(xs, p)|
    ensures n <= |xs|
  {
    if xs == [] then
      assert Matching(xs, p) == {};
      0
    else
      var c := Count(xs[..|xs| - 1], p);
      MatchingLast(xs, p);
      assert |xs| - 1 !in Matching(xs[..|xs| - 1], p);
      c + if p(xs[|xs| - 1]) then 1 else 0
  }

  /** The positions of the elements satisfying `p`: all of them, each once, in increasing order. */
  function Positions<T>(xs: seq<T>, p: T -> bool): (idx: seq<nat>)
    ensures forall k :: 0 <= k < |idx| ==> idx[k] < |xs| && p(xs[idx[k]])
    ensures forall k, l :: 0 <= k < l < |idx| ==> idx[k] < idx[l]
    ensures forall i :: 0 <= i < |xs| && p(xs[i]) ==> i in idx
  {
    if xs == [] then []
    else
      var init := xs[..|xs| - 1];
      var before := Positions(init, p);
      assert forall k :: 0 <= k < |before| ==> xs[before[k]] == init[before[k]];
      if p(xs[|xs| - 1]) then before + [|xs| - 1] else before
  }

  /** The elements satisfying `p`, in their order in `xs`. */
  function Filter<T>(xs: seq<T>, p: T -> bool): (r: seq<T>)
    ensures |r| == Count(xs, p)
    ensures forall x :: x in r ==> x in xs && p(x)
    ensures forall k :: 0 <= k < |r| ==> p(r[k])
    ensures forall k :: 0 <= k < |xs| && p(xs[k]) ==> xs[k] in r
  {
    if xs == [] then []
    else
      var init := xs[..|xs| - 1];
      var last := xs[|xs| - 1];
      var before := Filter(init, p);
      assert xs == init + [last];
      if p(last) then before + [last] else before
  }

  /**
   * `Filter` is the subsequence of `xs` at the matching positions: order and
   * repetitions are those of `xs`.
   */
  lemma {:induction false} FilterAtPositions<T>(xs: seq<T>, p: T -> bool)
    ensures |Filter(xs, p)| == |Positions(xs, p)|
    ensures forall k :: 0 <= k < |Filter(xs, p)| ==> Filter(xs, p)[k] == xs[Positions(xs, p)[k]]
  {
    if xs != [] {
      var init, last := xs[..|xs| - 1], xs[|xs| - 1];
      FilterAtPositions(init, p);
      var before, at := Filter(init, p), Positions(init, p);
      assert Filter(xs, p) == if p(last) then before + [last] else before;
      assert Positions(xs, p) == if p(last) then at + [|xs| - 1] else at;
      forall k | 0 <= k < |before| ensures before[k] == xs[at[k]] {
        assert init[at[k]] == xs[at[k]];
      }
    }
  }
}
