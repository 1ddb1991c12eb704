/**
 * Filtering a sequence in order, as a `for` loop that appends only the items
 * passing a test does it: `pick` says whether an item is kept and what is
 * appended for it.
 */
module Sequences {
  import opened Results

  /** What the loop has appended after visiting all of `xs`, left to right. */
  function FilterMap<T, U>(xs: seq<T>, pick: T -> Option<U>): (ys: seq<U>)
    ensures |ys| <= |xs|
  {
    if |xs| == 0 then []
    else
      var rest := FilterMap(xs[..|xs| - 1], pick);
      match pick(xs[|xs| - 1])
      case Some(y) => rest + [y]
      case None => rest
  }

  /**
   * `ys` is the kept part of `xs` in input order: `idx` lists, strictly
   * increasing, the positions of exactly the kept items, and `ys[j]` is what
   * was picked at position `idx[j]`.
   */
  ghost predicate IsSelection<T, U>(xs: seq<T>, pick: T -> Option<U>, ys: seq<U>, idx: seq<int>)
  {
    && |idx| == |ys|
    && (forall j :: 0 <= j < |idx| ==> 0 <= idx[j] < |xs| && pick(xs[idx[j]]) == Some(ys[j]))
    && (forall j, j' :: 0 <= j < j' < |idx| ==> idx[j] < idx[j'])
    && (forall k :: 0 <= k < |xs| && pick(xs[k]).Some? ==> k in idx)
  }

  /** The filtered sequence keeps exactly the picked items, in their input order. */
  lemma {:induction false} FilterMapSelects<T, U>(xs: seq<T>, pick: T -> Option<U>)
    ensures exists idx :: IsSelection(xs, pick, FilterMap(xs, pick), idx)
  {
    if |xs| == 0 {
      var none: seq<int> := [];
      assert IsSelection(xs, pick, FilterMap(xs, pick), none);
    } else {
      var init := xs[..|xs| - 1];
      FilterMapSelects(init, pick);
      var idx :| IsSelection(init, pick, FilterMap(init, pick), idx);
      SelectionExtends(xs, pick, FilterMap(init, pick), idx);
      if pick(xs[|xs| - 1]).Some? {
        assert IsSelection(xs, pick, FilterMap(xs, pick), idx + [|xs| - 1]);
      } else {
        assert IsSelection(xs, pick, FilterMap(xs, pick), idx);
      }
    }
  }

  /** A selection of all but the last item extends to one of all of `xs`. */
  lemma SelectionExtends<T, U>(xs: seq<T>, pick: T -> Option<U>, ys: seq<U>, idx: seq<int>)
    requires |xs| > 0
    requires IsSelection(xs[..|xs| - 1], pick, ys, idx)
    ensures pick(xs[|xs| - 1]).Some? ==> IsSelection(xs, pick, ys + [pick(xs[|xs| - 1]).value], idx + [|xs| - 1])
    ensures pick(xs[|xs| - 1]).None? ==> IsSelection(xs, pick, ys, idx)
  {
    var last := |xs| - 1;
    var init := xs[..last];
    assert forall k :: 0 <= k < last ==> init[k] == xs[k];
    if pick(xs[last]).Some? {
      var ys', idx' := ys + [pick(xs[last]).value], idx + [last];
      assert forall j :: 0 <= j < |idx| ==> idx'[j] == idx[j] && ys'[j] == ys[j];
      assert forall j :: 0 <= j < |idx'| ==> 0 <= idx'[j] < |xs| && pick(xs[idx'[j]]) == Some(ys'[j]);
      assert forall k :: 0 <= k < |xs| && pick(xs[k]).Some? ==> k in idx';
    }
  }

  /** A value is in the filtered sequence exactly when some input item picks it. */
  lemma {:induction false} FilterMapMembership<T, U>(xs: seq<T>, pick: T -> Option<U>, y: U)
    ensures y in FilterMap(xs, pick) <==> exists k :: 0 <= k < |xs| && pick(xs[k]) == Some(y)
  {
    FilterMapSelects(xs, pick);
    var ys := FilterMap(xs, pick);
    var idx :| IsSelection(xs, pick, ys, idx);
    if y in ys {
      var j :| 0 <= j < |ys| && ys[j] == y;
      assert pick(xs[idx[j]]) == Some(y);
    }
    if exists k :: 0 <= k < |xs| && pick(xs[k]) == Some(y) {
      var k :| 0 <= k < |xs| && pick(xs[k]) == Some(y);
      var j :| 0 <= j < |idx| && idx[j] == k;
      assert ys[j] == y;
    }
  }

  /** Filtering distributes over concatenation: document order is kept block by block. */
  lemma {:induction false} FilterMapAppend<T, U>(xs: seq<T>, zs: seq<T>, pick: T -> Option<U>)
    ensures FilterMap(xs + zs, pick) == FilterMap(xs, pick) + FilterMap(zs, pick)
  {
    if |zs| == 0 {
      assert xs + zs == xs;
    } else {
      var zinit := zs[..|zs| - 1];
      assert (xs + zs)[..|xs + zs| - 1] == xs + zinit;
      FilterMapAppend(xs, zinit, pick);
    }
  }

  /** Nothing is kept from items that are all rejected. */
  lemma {:induction false} FilterMapNone<T, U>(xs: seq<T>, pick: T -> Option<U>)
    requires forall k :: 0 <= k < |xs| ==> pick(xs[k]).None?
    ensures FilterMap(xs, pick) == []
  {
    if |xs| > 0 {
      FilterMapNone(xs[..|xs| - 1], pick);
    }
  }

  /** When every item is kept, the filtered sequence is the picked values, one for one. */
  lemma {:induction false} FilterMapAll<T, U>(xs: seq<T>, pick: T -> Option<U>, ys: seq<U>)
    requires |xs| == |ys|
    requires forall k :: 0 <= k < |xs| ==> pick(xs[k]) == Some(ys[k])
    ensures FilterMap(xs, pick) == ys
  {
    if |xs| > 0 {
      FilterMapAll(xs[..|xs| - 1], pick, ys[..|ys| - 1]);
    }
  }
}
