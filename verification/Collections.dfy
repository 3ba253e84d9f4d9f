/** Lists without repetition and the sizes of sets. */
module Collections {
  predicate Distinct(xs: seq<string>) {
    forall i, j | 0 <= i < j < |xs| :: xs[i] != xs[j]
  }

  lemma {:induction false} DistinctSize(xs: seq<string>)
    requires Distinct(xs)
    ensures |set x | x in xs| == |xs|
  {
    if xs != [] {
      var n := |xs| - 1;
      DistinctSize(xs[..n]);
      assert (set x | x in xs) == (set x | x in xs[..n]) + {xs[n]};
    }
  }

  lemma {:induction false} SubsetSize(a: set<string>, b: set<string>)
    requires a <= b
    ensures |a| <= |b| && (|a| == |b| ==> a == b)
  {
    if a != {} {
      var x :| x in a;
      SubsetSize(a - {x}, b - {x});
    }
  }

  /** A list longer than the set its items come from repeats one. */
  lemma Pigeonhole(xs: seq<string>, s: set<string>) returns (i: nat, k: nat)
    requires |xs| > |s| && forall j | 0 <= j < |xs| :: xs[j] in s
    ensures i < k < |xs| && xs[i] == xs[k]
  {
    if Distinct(xs) {
      DistinctSize(xs);
      SubsetSize((set x | x in xs), s);
      assert false;
    }
    i, k :| 0 <= i < k < |xs| && xs[i] == xs[k];
  }
}
