/** Folds over sequences: collecting the values of a sequence of results,
    stopping at the first failure, and concatenating byte strings. */
module Folds {
  import opened Wrappers

  /** The values of rs[0..n), or the error of the first failure among them. */
  function Collect<T, E>(rs: seq<Result<T, E>>, n: nat): (r: Result<seq<T>, E>)
    requires n <= |rs|
    ensures r.Success? <==> forall i :: 0 <= i < n ==> rs[i].Success?
    ensures r.Success? ==> |r.value| == n
  {
    if n == 0 then Success([])
    else
      var prev :- Collect(rs, n - 1);
      var x :- rs[n - 1];
      Success(prev + [x])
  }

  /** Collecting keeps order: the i-th value is the i-th result's. */
  lemma {:induction false} LemmaCollectValues<T, E>(rs: seq<Result<T, E>>, n: nat, i: nat)
    requires n <= |rs| && Collect(rs, n).Success? && i < n
    ensures rs[i].Success? && Collect(rs, n).value[i] == rs[i].value
    decreases n
  {
    var prev := Collect(rs, n - 1).value;
    assert Collect(rs, n).value == prev + [rs[n - 1].value];
    if n - 1 > 0 {
      LemmaCollectValues(rs, n - 1, if i < n - 1 then i else 0);
    }
  }

  /** After a failure at k, every longer collection fails with k's error. */
  lemma {:induction false} LemmaCollectFailure<T, E>(rs: seq<Result<T, E>>, k: nat, n: nat)
    requires k < n <= |rs|
    requires Collect(rs, k).Success? && rs[k].Failure?
    ensures Collect(rs, n) == Failure(rs[k].error)
    decreases n
  {
    if k < n - 1 {
      LemmaCollectFailure(rs, k, n - 1);
    }
  }

  /** One more success extends the collection by its value. */
  lemma LemmaCollectStep<T, E>(rs: seq<Result<T, E>>, n: nat)
    requires n < |rs| && Collect(rs, n).Success? && rs[n].Success?
    ensures Collect(rs, n + 1) == Success(Collect(rs, n).value + [rs[n].value])
  {
  }

  /** The sequences of `rs` one after the other. */
  function Concat<T>(rs: seq<seq<T>>): seq<T> {
    if |rs| == 0 then [] else Concat(rs[..|rs| - 1]) + rs[|rs| - 1]
  }

  /** `pre` starts `all` and `x` comes right after it. */
  ghost predicate Placed<T>(all: seq<T>, pre: seq<T>, x: seq<T>) {
    |pre| + |x| <= |all| && all[..|pre|] == pre && all[|pre|..|pre| + |x|] == x
  }

  lemma LemmaPlacedHead<T>(pre: seq<T>, x: seq<T>, rest: seq<T>)
    ensures Placed(pre + x + rest, pre, x)
  {
    var all := pre + x + rest;
    assert all[..|pre|] == pre;
    assert all[|pre|..|pre| + |x|] == x;
  }

  lemma LemmaPlacedExtend<T>(all: seq<T>, more: seq<T>, pre: seq<T>, x: seq<T>)
    requires Placed(all, pre, x)
    ensures Placed(all + more, pre, x)
  {
    var out := all + more;
    assert out[..|pre|] == all[..|pre|];
    assert out[|pre|..|pre| + |x|] == all[|pre|..|pre| + |x|];
  }

  lemma LemmaPlacedWithin<T>(h: seq<T>, all: seq<T>, t: seq<T>, pre: seq<T>, x: seq<T>)
    requires Placed(all, pre, x)
    ensures Placed(h + all + t, h + pre, x)
  {
    var out := h + all + t;
    assert out[..|h| + |pre|] == h + all[..|pre|];
    assert out[|h| + |pre|..|h| + |pre| + |x|] == all[|pre|..|pre| + |x|];
  }

  /** In a concatenation, element i comes right after elements 0..i-1. */
  lemma {:induction false} LemmaConcatPlaced<T>(rs: seq<seq<T>>, i: nat)
    requires i < |rs|
    ensures Placed(Concat(rs), Concat(rs[..i]), rs[i])
    decreases |rs|
  {
    var m := |rs| - 1;
    assert Concat(rs) == Concat(rs[..m]) + rs[m];
    if i < m {
      LemmaConcatPlaced(rs[..m], i);
      assert rs[..m][..i] == rs[..i];
      LemmaPlacedExtend(Concat(rs[..m]), rs[m], Concat(rs[..i]), rs[i]);
    } else {
      LemmaPlacedHead(Concat(rs[..m]), rs[m], []);
      assert Concat(rs[..m]) + rs[m] + [] == Concat(rs);
    }
  }

  lemma LemmaConcatSnoc<T>(rs: seq<seq<T>>, x: seq<T>)
    ensures Concat(rs + [x]) == Concat(rs) + x
  {
    assert (rs + [x])[..|rs|] == rs;
  }
}
