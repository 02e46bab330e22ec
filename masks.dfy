/**
 * Boolean-mask row selection, the `frame[mask]` idiom: the hourly filter keeps the rows
 * whose mask entry is true, and `dropna` keeps the rows without a gap.
 */
module Masks {

  /** The elements of `s` whose mask entry is true, in their original order. */
  function Select<T>(s: seq<T>, m: seq<bool>): (r: seq<T>)
    requires |m| == |s|
    ensures |r| <= |s|
    decreases |s|
  {
    if |s| == 0 then []
    else Select(s[..|s| - 1], m[..|s| - 1]) + (if m[|s| - 1] then [s[|s| - 1]] else [])
  }

  /** The positions where the mask is true, in ascending order. */
  function Positions(m: seq<bool>): (p: seq<nat>)
    ensures |p| <= |m|
    ensures forall k :: 0 <= k < |p| ==> p[k] < |m|
    decreases |m|
  {
    if |m| == 0 then []
    else Positions(m[..|m| - 1]) + (if m[|m| - 1] then [|m| - 1] else [])
  }

  predicate Increasing(p: seq<nat>) {
    forall a, b :: 0 <= a < b < |p| ==> p[a] < p[b]
  }

  /**
   * Selection is the subsequence at `Positions(m)`: it keeps exactly the elements whose
   * mask entry is true, alters none of them and keeps their relative order.
   */
  lemma SelectAt<T>(s: seq<T>, m: seq<bool>)
    requires |m| == |s|
    ensures |Select(s, m)| == |Positions(m)|
    ensures Increasing(Positions(m))
    ensures forall k :: 0 <= k < |Positions(m)| ==> Select(s, m)[k] == s[Positions(m)[k]]
    ensures forall i :: 0 <= i < |s| ==> (m[i] <==> i in Positions(m))
    ensures forall k :: 0 <= k < |Positions(m)| ==> m[Positions(m)[k]]
  {
    PositionsExact(m);
    SelectByPositions(s, m);
  }

  /** `Positions(m)` lists, in ascending order, exactly the indexes where `m` is true. */
  lemma PositionsExact(m: seq<bool>)
    ensures Increasing(Positions(m))
    ensures forall i :: 0 <= i < |m| ==> (m[i] <==> i in Positions(m))
    ensures forall k :: 0 <= k < |Positions(m)| ==> m[Positions(m)[k]]
  {
    PositionsIncreasing(m);
    PositionsMembers(m);
    forall k | 0 <= k < |Positions(m)| ensures m[Positions(m)[k]] {
      assert Positions(m)[k] in Positions(m);
    }
  }

  lemma {:induction false} PositionsIncreasing(m: seq<bool>)
    ensures Increasing(Positions(m))
    decreases |m|
  {
    if |m| > 0 {
      var n := |m|;
      var init := m[..n - 1];
      PositionsIncreasing(init);
    }
  }

  lemma {:induction false} PositionsMembers(m: seq<bool>)
    ensures forall i :: 0 <= i < |m| ==> (m[i] <==> i in Positions(m))
    decreases |m|
  {
    if |m| > 0 {
      var n := |m|;
      var init := m[..n - 1];
      PositionsMembers(init);
      var p := Positions(init);
      assert Positions(m) == p + (if m[n - 1] then [n - 1] else []);
      forall i | 0 <= i < n ensures m[i] <==> i in Positions(m) {
        if i < n - 1 {
          assert init[i] == m[i];
          assert (i in Positions(m)) <==> (i in p);
        }
      }
    }
  }

  /** The selected elements are the elements at `Positions(m)`. */
  lemma {:induction false} SelectByPositions<T>(s: seq<T>, m: seq<bool>)
    requires |m| == |s|
    ensures |Select(s, m)| == |Positions(m)|
    ensures forall k :: 0 <= k < |Positions(m)| ==> Select(s, m)[k] == s[Positions(m)[k]]
    decreases |s|
  {
    if |s| > 0 {
      var n := |s|;
      SelectByPositions(s[..n - 1], m[..n - 1]);
    }
  }

  /** A mask that is false on its first entry keeps at most all but one element. */
  lemma {:induction false} PositionsFirstFalse(m: seq<bool>)
    requires |m| >= 1 && !m[0]
    ensures |Positions(m)| <= |m| - 1
    ensures (forall i :: 1 <= i < |m| ==> m[i]) ==> |Positions(m)| == |m| - 1
    decreases |m|
  {
    if |m| > 1 {
      PositionsFirstFalse(m[..|m| - 1]);
    }
  }
}
