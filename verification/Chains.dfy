/** Chains of ids, each naming the next: when following one comes to an end. */
module Chains {
  import opened Text
  import opened Collections

  /** The id that follows, if the chain does not end here. */
  type Link = string -> Option<string>

  /** The id `k` links on. */
  function At(next: Link, id: string, k: nat): Option<string> {
    if k == 0 then Some(id)
    else
      match At(next, id, k - 1)
      case None => None
      case Some(x) => next(x)
  }

  /** The chain ends within `n` links. */
  predicate EndsWithin(next: Link, id: string, n: nat)
    decreases n
  {
    match next(id)
    case None => true
    case Some(x) => n > 0 && EndsWithin(next, x, n - 1)
  }

  /** Some id is met twice. */
  ghost predicate Repeats(next: Link, id: string) {
    exists i: nat, k: nat :: i < k && At(next, id, k).Some? && At(next, id, i) == At(next, id, k)
  }

  lemma {:induction false} AtTail(next: Link, id: string, k: nat)
    requires next(id).Some?
    ensures At(next, id, k + 1) == At(next, next(id).value, k)
  {
    if k > 0 {
      AtTail(next, id, k - 1);
    }
  }

  lemma {:induction false} EndsMeans(next: Link, id: string, n: nat)
    ensures EndsWithin(next, id, n) <==> At(next, id, n + 1).None?
    decreases n
  {
    if next(id).Some? {
      if n > 0 {
        EndsMeans(next, next(id).value, n - 1);
      }
      AtTail(next, id, n);
    } else {
      NoneStays(next, id, 1, n + 1);
    }
  }

  lemma {:induction false} NoneStays(next: Link, id: string, k: nat, m: nat)
    requires k <= m && At(next, id, k).None?
    ensures At(next, id, m).None?
    decreases m
  {
    if k < m {
      NoneStays(next, id, k, m - 1);
    }
  }

  lemma {:induction false} SameTails(next: Link, id: string, i: nat, k: nat, n: nat)
    requires At(next, id, i) == At(next, id, k)
    ensures At(next, id, i + n) == At(next, id, k + n)
  {
    if n > 0 {
      SameTails(next, id, i, k, n - 1);
    }
  }

  /** On a cycle of any length there is always a next id. */
  lemma {:induction false} CycleGoesOn(next: Link, id: string, i: nat, k: nat, m: nat)
    requires i < k && At(next, id, k).Some? && At(next, id, i) == At(next, id, k)
    ensures At(next, id, m).Some?
    decreases m
  {
    if m <= k {
      if At(next, id, m).None? {
        NoneStays(next, id, m, k);
      }
    } else {
      CycleGoesOn(next, id, i, k, m - (k - i));
      SameTails(next, id, i, k, m - k);
    }
  }

  lemma {:induction false} AtSteps(next: Link, id: string, ids: set<string>, n: nat) returns (path: seq<string>)
    requires At(next, id, n).Some? && forall x :: next(x).Some? ==> x in ids
    ensures |path| == n && forall k | 0 <= k < n :: At(next, id, k) == Some(path[k]) && path[k] in ids
  {
    path := [];
    if n > 0 {
      path := AtSteps(next, id, ids, n - 1);
      path := path + [At(next, id, n - 1).value];
    }
  }

  /** If only the ids of a finite set have a next one, a chain ends exactly if it ends within their number,
      and exactly if it meets no id twice. */
  lemma EndsExactly(next: Link, id: string, ids: set<string>)
    requires forall x :: next(x).Some? ==> x in ids
    ensures (exists n: nat :: EndsWithin(next, id, n)) <==> EndsWithin(next, id, |ids|)
    ensures (exists n: nat :: EndsWithin(next, id, n)) <==> !Repeats(next, id)
  {
    EndsMeans(next, id, |ids|);
    if !EndsWithin(next, id, |ids|) {
      var path := AtSteps(next, id, ids, |ids| + 1);
      var i, k := Pigeonhole(path, ids);
      assert At(next, id, i) == At(next, id, k);
      assert Repeats(next, id);
    }
    if Repeats(next, id) {
      var i: nat, k: nat :| i < k && At(next, id, k).Some? && At(next, id, i) == At(next, id, k);
      forall n: nat ensures !EndsWithin(next, id, n) {
        EndsMeans(next, id, n);
        CycleGoesOn(next, id, i, k, n + 1);
      }
    }
  }
}
