/** Optional values and the one search primitive both document collections use:
    the first element, in collection order, that satisfies a filter. */
module Seqs {

  datatype Option<+T> = None | Some(value: T)

  /** Index of the first element of `s` satisfying `p`: what `findOne` returns
      from a collection scanned in its natural order. */
  function First<T>(s: seq<T>, p: T -> bool): (r: Option<nat>)
    ensures r.Some? ==> r.value < |s| && p(s[r.value])
    ensures r.Some? ==> forall j :: 0 <= j < r.value ==> !p(s[j])
    ensures r.None? <==> forall j :: 0 <= j < |s| ==> !p(s[j])
  {
    if |s| == 0 then None
    else if p(s[0]) then Some(0)
    else match First(s[1..], p)
      case None => None
      case Some(i) => Some(i + 1)
  }

  /** The elements of `s` satisfying `p`, in order: what `find` returns from a
      collection scanned in its natural order. */
  function Filter<T>(s: seq<T>, p: T -> bool): (r: seq<T>)
    ensures |r| <= |s|
    ensures forall k :: 0 <= k < |r| ==> r[k] in s && p(r[k])
    ensures forall i :: 0 <= i < |s| && p(s[i]) ==> s[i] in r
  {
    if s == [] then [] else (if p(s[0]) then [s[0]] else []) + Filter(s[1..], p)
  }

  /** The kept elements sit at strictly increasing positions of `s`, and those
      positions are exactly the positions whose element satisfies `p`: each one is
      kept once, in order. */
  lemma FilterPositions<T>(s: seq<T>, p: T -> bool) returns (idx: seq<nat>)
    ensures |idx| == |Filter(s, p)|
    ensures forall k :: 0 <= k < |idx| ==> idx[k] < |s| && Filter(s, p)[k] == s[idx[k]]
    ensures forall k, l :: 0 <= k < l < |idx| ==> idx[k] < idx[l]
    ensures forall i :: 0 <= i < |s| ==> (p(s[i]) <==> i in idx)
  {
    assert s[0..] == s;
    idx := FilterPositionsFrom(s, p, 0);
  }

  /** Filtering the suffix from `from` keeps or drops `s[from]` and goes on with the
      suffix after it. */
  lemma FilterFrom<T>(s: seq<T>, p: T -> bool, from: nat)
    requires from < |s|
    ensures Filter(s[from..], p) == (if p(s[from]) then [s[from]] else []) + Filter(s[from + 1..], p)
  {
    assert s[from..][1..] == s[from + 1..];
  }

  /** The same for the suffix of `s` from position `from`, with positions counted
      in the whole of `s`. */
  lemma {:induction false} FilterPositionsFrom<T>(s: seq<T>, p: T -> bool, from: nat) returns (idx: seq<nat>)
    requires from <= |s|
    ensures |idx| == |Filter(s[from..], p)|
    ensures forall k :: 0 <= k < |idx| ==> from <= idx[k] < |s| && Filter(s[from..], p)[k] == s[idx[k]]
    ensures forall k, l :: 0 <= k < l < |idx| ==> idx[k] < idx[l]
    ensures forall i :: from <= i < |s| ==> (p(s[i]) <==> i in idx)
    decreases |s| - from
  {
    if from == |s| {
      idx := [];
    } else {
      var rest := FilterPositionsFrom(s, p, from + 1);
      FilterFrom(s, p, from);
      idx := PositionsStep(s, p, from, rest, Filter(s[from + 1..], p));
    }
  }

  /** One step of the induction above, stated without `Filter`: the positions
      `rest` of the kept elements `tail` after `from` extend to those of `s[from]`,
      when it is kept, followed by `tail`. */
  lemma PositionsStep<T>(s: seq<T>, p: T -> bool, from: nat, rest: seq<nat>, tail: seq<T>) returns (idx: seq<nat>)
    requires from < |s| && |rest| == |tail|
    requires forall k :: 0 <= k < |rest| ==> from < rest[k] < |s| && tail[k] == s[rest[k]]
    requires forall k, l :: 0 <= k < l < |rest| ==> rest[k] < rest[l]
    requires forall i :: from < i < |s| ==> (p(s[i]) <==> i in rest)
    ensures var r := (if p(s[from]) then [s[from]] else []) + tail;
      && |idx| == |r|
      && forall k :: 0 <= k < |idx| ==> from <= idx[k] < |s| && r[k] == s[idx[k]]
    ensures forall k, l :: 0 <= k < l < |idx| ==> idx[k] < idx[l]
    ensures forall i :: from <= i < |s| ==> (p(s[i]) <==> i in idx)
  {
    if p(s[from]) {
      idx := [from] + rest;
      forall k, l | 0 <= k < l < |idx| ensures idx[k] < idx[l] {
        assert idx[l] == rest[l - 1];
        if k > 0 { assert idx[k] == rest[k - 1]; }
      }
    } else {
      idx := rest;
      assert from !in rest;
    }
  }

  /** `s` with the element at index `i` deleted. */
  function RemoveAt<T>(s: seq<T>, i: nat): (r: seq<T>)
    requires i < |s|
    ensures |r| == |s| - 1
    ensures forall j :: 0 <= j < i ==> r[j] == s[j]
    ensures forall j :: i <= j < |r| ==> r[j] == s[j + 1]
  {
    s[..i] + s[i + 1..]
  }
}
