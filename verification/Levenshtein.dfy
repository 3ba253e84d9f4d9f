/** Edit distance: the matrix method, the recursion it fills in, and the edit scripts it counts. */
module Levenshtein {
  type Byte = bv8
  type Bytes = seq<Byte>

  function Min3(a: nat, b: nat, c: nat): (m: nat)
    ensures m <= a && m <= b && m <= c
    ensures m == a || m == b || m == c
  {
    if a < b then if a < c then a else c
    else if b < c then b
    else c
  }

  function Cost(x: Byte, y: Byte): nat {
    if x == y then 0 else 1
  }

  function Init(s: Bytes): Bytes
    requires s != []
  {
    s[..|s| - 1]
  }

  function Last(s: Bytes): Byte
    requires s != []
  {
    s[|s| - 1]
  }

  /** The recursion behind the matrix: a distance of prefixes. */
  function Distance(s: Bytes, t: Bytes): nat
    decreases |s| + |t|
  {
    if s == [] then |t|
    else if t == [] then |s|
    else Min3(Distance(Init(s), t) + 1, Distance(s, Init(t)) + 1, Distance(Init(s), Init(t)) + Cost(Last(s), Last(t)))
  }

  // ---- edit scripts ----

  datatype Edit = Insert(at: nat, b: Byte) | Delete(at: nat) | Substitute(at: nat, b: Byte)

  predicate Applies(e: Edit, s: Bytes) {
    match e
    case Insert(at, _) => at <= |s|
    case Delete(at) => at < |s|
    case Substitute(at, _) => at < |s|
  }

  function Apply(e: Edit, s: Bytes): Bytes
    requires Applies(e, s)
  {
    match e
    case Insert(at, b) => s[..at] + [b] + s[at..]
    case Delete(at) => s[..at] + s[at + 1..]
    case Substitute(at, b) => s[at := b]
  }

  /** A script, one edit after another, turns `s` into `t`. */
  predicate Turns(script: seq<Edit>, s: Bytes, t: Bytes) {
    if script == [] then s == t
    else Applies(script[0], s) && Turns(script[1..], Apply(script[0], s), t)
  }

  lemma {:induction false} Compose(first: seq<Edit>, second: seq<Edit>, s: Bytes, t: Bytes, u: Bytes)
    requires Turns(first, s, t) && Turns(second, t, u)
    ensures Turns(first + second, s, u)
  {
    if first == [] {
      assert first + second == second;
    } else {
      Compose(first[1..], second, Apply(first[0], s), t, u);
      assert (first + second)[1..] == first[1..] + second;
    }
  }

  /** A script works the same in front of a fixed last byte. */
  lemma {:induction false} Extend(script: seq<Edit>, s: Bytes, t: Bytes, b: Byte)
    requires Turns(script, s, t)
    ensures Turns(script, s + [b], t + [b])
  {
    if script != [] {
      var e := script[0];
      assert Apply(e, s + [b]) == Apply(e, s) + [b];
      Extend(script[1..], Apply(e, s), t, b);
    }
  }

  lemma Prepend(e: Edit, script: seq<Edit>, s: Bytes, t: Bytes)
    requires Applies(e, s) && Turns(script, Apply(e, s), t)
    ensures Turns([e] + script, s, t)
  {
    assert ([e] + script)[1..] == script;
  }

  lemma AppendInsert(before: seq<Edit>, s: Bytes, t: Bytes) returns (script: seq<Edit>)
    requires t != [] && Turns(before, s, Init(t))
    ensures Turns(script, s, t) && |script| == |before| + 1
  {
    hide Distance;
    var e := Insert(|t| - 1, Last(t));
    assert Apply(e, Init(t)) == t;
    assert Turns([e], Init(t), t);
    Compose(before, [e], s, Init(t), t);
    script := before + [e];
  }

  lemma ChangeLast(inner: seq<Edit>, s: Bytes, t: Bytes) returns (script: seq<Edit>)
    requires s != [] && t != [] && Turns(inner, Init(s), Init(t))
    ensures Turns(script, s, t) && |script| == |inner| + Cost(Last(s), Last(t))
  {
    hide Distance, Turns;
    var mid := Init(s) + [Last(t)];
    assert Init(t) + [Last(t)] == t;
    Extend(inner, Init(s), Init(t), Last(t));
    if Last(s) == Last(t) {
      assert mid == s;
      script := inner;
    } else {
      var e := Substitute(|s| - 1, Last(t));
      assert Apply(e, s) == mid;
      Prepend(e, inner, s, t);
      script := [e] + inner;
    }
  }

  /** A script as long as the distance exists. */
  lemma {:induction false} ScriptExists(s: Bytes, t: Bytes) returns (script: seq<Edit>)
    ensures Turns(script, s, t) && |script| == Distance(s, t)
    decreases |s| + |t|
  {
    hide Turns;
    if s == [] && t == [] {
      script := [];
      NoEdits(s);
    } else if s == [] || (t != [] && Distance(s, t) == Distance(s, Init(t)) + 1) {
      var before := ScriptExists(s, Init(t));
      script := AppendInsert(before, s, t);
    } else if t == [] || Distance(s, t) == Distance(Init(s), t) + 1 {
      var after := ScriptExists(Init(s), t);
      script := PrependDelete(after, s, t);
    } else {
      var inner := ScriptExists(Init(s), Init(t));
      script := ChangeLast(inner, s, t);
    }
  }

  lemma NoEdits(s: Bytes)
    ensures Turns([], s, s)
  {
  }

  lemma PrependDelete(after: seq<Edit>, s: Bytes, t: Bytes) returns (script: seq<Edit>)
    requires s != [] && Turns(after, Init(s), t)
    ensures Turns(script, s, t) && |script| == |after| + 1
  {
    hide Distance, Turns;
    var e := Delete(|s| - 1);
    assert Apply(e, s) == Init(s);
    Prepend(e, after, s, t);
    script := [e] + after;
  }

  predicate Near(a: int, b: int) {
    -1 <= a - b <= 1
  }

  lemma DistanceToNothing(s: Bytes)
    ensures Distance(s, []) == |s| && Distance([], s) == |s|
  {
  }

  /** Taking one byte out changes the distance to any text by at most one. */
  lemma {:induction false} OneByteLess(u: Bytes, b: Byte, v: Bytes, t: Bytes)
    ensures Near(Distance(u + [b] + v, t), Distance(u + v, t))
    decreases |v| + |t|
  {
    var s, s' := u + [b] + v, u + v;
    if t == [] {
      DistanceToNothing(s);
      DistanceToNothing(s');
    } else if v == [] {
      assert Init(s) == u && s' == u;
      OneByteLess(u, b, v, Init(t));
      assert u + [b] + v == s;
      if u == [] {
        DistanceToNothing(t);
        DistanceToNothing(Init(t));
      }
    } else {
      var v' := Init(v);
      assert Init(s) == u + [b] + v' && Init(s') == u + v' && Last(s) == Last(s');
      OneByteLess(u, b, v', t);
      OneByteLess(u, b, v, Init(t));
      OneByteLess(u, b, v', Init(t));
    }
  }

  /** Replacing one byte changes the distance to any text by at most one. */
  lemma {:induction false} OneByteOther(u: Bytes, b: Byte, c: Byte, v: Bytes, t: Bytes)
    ensures Near(Distance(u + [b] + v, t), Distance(u + [c] + v, t))
    decreases |v| + |t|
  {
    var s, s' := u + [b] + v, u + [c] + v;
    if t == [] {
      DistanceToNothing(s);
      DistanceToNothing(s');
    } else if v == [] {
      assert Init(s) == u && Init(s') == u;
      OneByteOther(u, b, c, v, Init(t));
    } else {
      var v' := Init(v);
      assert Init(s) == u + [b] + v' && Init(s') == u + [c] + v' && Last(s) == Last(s');
      OneByteOther(u, b, c, v', t);
      OneByteOther(u, b, c, v, Init(t));
      OneByteOther(u, b, c, v', Init(t));
    }
  }

  lemma OneEdit(e: Edit, s: Bytes, t: Bytes)
    requires Applies(e, s)
    ensures Distance(s, t) <= Distance(Apply(e, s), t) + 1
  {
    match e
    case Insert(at, b) =>
      OneByteLess(s[..at], b, s[at..], t);
      assert s[..at] + s[at..] == s;
    case Delete(at) =>
      OneByteLess(s[..at], s[at], s[at + 1..], t);
      assert s[..at] + [s[at]] + s[at + 1..] == s;
    case Substitute(at, b) =>
      OneByteOther(s[..at], s[at], b, s[at + 1..], t);
      assert s[..at] + [s[at]] + s[at + 1..] == s;
      assert s[..at] + [b] + s[at + 1..] == s[at := b];
  }

  /** No script is shorter than the distance. */
  lemma {:induction false} NoShorterScript(script: seq<Edit>, s: Bytes, t: Bytes)
    requires Turns(script, s, t)
    ensures Distance(s, t) <= |script|
  {
    if script == [] {
      SelfDistance(s);
    } else {
      OneEdit(script[0], s, t);
      NoShorterScript(script[1..], Apply(script[0], s), t);
    }
  }

  lemma {:induction false} SelfDistance(s: Bytes)
    ensures Distance(s, s) == 0
  {
    if s != [] {
      SelfDistance(Init(s));
    }
  }

  /** The distance is the length of a shortest edit script: it is `n` exactly if some script of length `n`
      turns `s` into `t` and no shorter one does. */
  ghost predicate ShortestScript(s: Bytes, t: Bytes, n: nat) {
    && (exists script :: Turns(script, s, t) && |script| == n)
    && forall script | Turns(script, s, t) :: n <= |script|
  }

  lemma DistanceIsShortestScript(s: Bytes, t: Bytes, n: nat)
    ensures ShortestScript(s, t, n) <==> n == Distance(s, t)
  {
    var best := ScriptExists(s, t);
    forall script | Turns(script, s, t) ensures Distance(s, t) <= |script| {
      NoShorterScript(script, s, t);
    }
  }

  // ---- a metric ----

  lemma {:induction false} Symmetric(s: Bytes, t: Bytes)
    ensures Distance(s, t) == Distance(t, s)
    decreases |s| + |t|
  {
    if s != [] && t != [] {
      Symmetric(Init(s), t);
      Symmetric(s, Init(t));
      Symmetric(Init(s), Init(t));
    }
  }

  lemma {:induction false} ZeroOnlyForEqual(s: Bytes, t: Bytes)
    ensures Distance(s, t) == 0 <==> s == t
  {
    SelfDistance(s);
    var script := ScriptExists(s, t);
  }

  lemma {:induction false} Triangle(s: Bytes, t: Bytes, u: Bytes)
    ensures Distance(s, u) <= Distance(s, t) + Distance(t, u)
  {
    var first := ScriptExists(s, t);
    var second := ScriptExists(t, u);
    Compose(first, second, s, t, u);
    NoShorterScript(first + second, s, u);
  }

  lemma {:induction false} Bounds(s: Bytes, t: Bytes)
    ensures |s| - |t| <= Distance(s, t) && |t| - |s| <= Distance(s, t)
    ensures Distance(s, t) <= if |s| < |t| then |t| else |s|
    decreases |s| + |t|
  {
    if s != [] && t != [] {
      Bounds(Init(s), t);
      Bounds(s, Init(t));
      Bounds(Init(s), Init(t));
    }
  }

  // ---- the matrix ----

  /** What the matrix holds at row `i`, column `j`. */
  ghost function Cell(s: Bytes, t: Bytes, i: nat, j: nat): nat
    requires i <= |s| && j <= |t|
  {
    Distance(s[..i], t[..j])
  }

  lemma CellRecursion(s: Bytes, t: Bytes, i: nat, j: nat)
    requires i <= |s| && j <= |t|
    ensures i == 0 ==> Cell(s, t, i, j) == j
    ensures j == 0 ==> Cell(s, t, i, j) == i
    ensures i > 0 && j > 0 ==>
      Cell(s, t, i, j) ==
        Min3(Cell(s, t, i - 1, j) + 1, Cell(s, t, i, j - 1) + 1, Cell(s, t, i - 1, j - 1) + Cost(s[i - 1], t[j - 1]))
  {
    if i > 0 && j > 0 {
      assert Init(s[..i]) == s[..i - 1] && Init(t[..j]) == t[..j - 1];
    }
  }

  ghost predicate RowsFilled(d: array2<nat>, s: Bytes, t: Bytes, rows: nat)
    requires d.Length0 == |s| + 1 && d.Length1 == |t| + 1 && rows <= |s| + 1
    reads d
  {
    forall k, l | 0 <= k < rows && 0 <= l <= |t| :: d[k, l] == Cell(s, t, k, l)
  }

  /** The distance of two texts once both are lower-cased by `lower`. */
  method Levenshtein(lower: Bytes -> Bytes, left: Bytes, right: Bytes) returns (n: nat)
    ensures n == Distance(lower(left), lower(right))
    ensures ShortestScript(lower(left), lower(right), n)
  {
    hide Distance, Cell, ShortestScript;
    var s, t := lower(left), lower(right);
    DistanceIsShortestScript(s, t, Distance(s, t));
    DistanceToNothing(s);
    DistanceToNothing(t);
    if |s| == 0 {
      return |t|;
    }
    if |t| == 0 {
      return |s|;
    }
    var d := new nat[|s| + 1, |t| + 1];
    for i := 0 to |s| + 1
      invariant forall k | 0 <= k < i :: d[k, 0] == k
    {
      d[i, 0] := i;
    }
    for j := 0 to |t| + 1
      invariant forall k | 0 <= k <= |s| :: d[k, 0] == k
      invariant forall l | 0 <= l < j :: d[0, l] == l
    {
      d[0, j] := j;
    }
    forall l | 0 <= l <= |t| ensures d[0, l] == Cell(s, t, 0, l) {
      CellRecursion(s, t, 0, l);
    }
    for i := 1 to |s| + 1
      invariant RowsFilled(d, s, t, i)
      invariant forall k | 0 <= k <= |s| :: d[k, 0] == k
    {
      CellRecursion(s, t, i, 0);
      for j := 1 to |t| + 1
        invariant RowsFilled(d, s, t, i)
        invariant forall k | 0 <= k <= |s| :: d[k, 0] == k
        invariant forall l | 0 <= l < j :: d[i, l] == Cell(s, t, i, l)
      {
        var cost := if s[i - 1] == t[j - 1] then 0 else 1;
        CellRecursion(s, t, i, j);
        d[i, j] := Min3(d[i - 1, j] + 1, d[i, j - 1] + 1, d[i - 1, j - 1] + cost);
      }
    }
    CornerCell(s, t);
    return d[|s|, |t|];
  }

  lemma CornerCell(s: Bytes, t: Bytes)
    ensures Cell(s, t, |s|, |t|) == Distance(s, t)
  {
    assert s[..|s|] == s && t[..|t|] == t;
  }

  // ---- fuzzy matching ----

  datatype Match = Match(word: Bytes, dist: nat)

  /** The distance is at most two fifths of the longer length. */
  predicate Close(dist: nat, input: Bytes, word: Bytes) {
    5 * dist <= 2 * if |input| < |word| then |word| else |input|
  }

  /** The close words of a dictionary, in its order. */
  function CloseWords(lower: Bytes -> Bytes, input: Bytes, dict: seq<Bytes>): seq<Match> {
    if dict == [] then []
    else
      var n := |dict| - 1;
      var dist := Distance(lower(input), lower(dict[n]));
      CloseWords(lower, input, dict[..n]) + if Close(dist, input, dict[n]) then [Match(dict[n], dist)] else []
  }

  predicate Ranked(ms: seq<Match>) {
    forall i, j | 0 <= i < j < |ms| :: ms[i].dist <= ms[j].dist
  }

  /** Puts one more match behind those that are no further away. */
  method InsertRanked(sorted: seq<Match>, m: Match) returns (more: seq<Match>)
    requires Ranked(sorted)
    ensures Ranked(more) && multiset(more) == multiset(sorted) + multiset{m}
  {
    var i := |sorted|;
    while i > 0 && sorted[i - 1].dist > m.dist
      invariant 0 <= i <= |sorted| && (i < |sorted| ==> m.dist < sorted[i].dist)
    {
      i := i - 1;
    }
    InPlace(sorted, m, i);
    SameItems(sorted, m, i);
    more := sorted[..i] + [m] + sorted[i..];
  }

  lemma SameItems<T>(xs: seq<T>, x: T, i: nat)
    requires i <= |xs|
    ensures multiset(xs[..i] + [x] + xs[i..]) == multiset(xs) + multiset{x}
  {
    assert xs == xs[..i] + xs[i..];
  }

  lemma InPlace(sorted: seq<Match>, m: Match, i: nat)
    requires Ranked(sorted) && i <= |sorted|
    requires i > 0 ==> sorted[i - 1].dist <= m.dist
    requires i < |sorted| ==> m.dist <= sorted[i].dist
    ensures Ranked(sorted[..i] + [m] + sorted[i..])
  {
    var more := sorted[..i] + [m] + sorted[i..];
    forall a, b | 0 <= a < b < |more| ensures more[a].dist <= more[b].dist {
      assert a < i ==> more[a] == sorted[a];
      assert b > i ==> more[b] == sorted[b - 1];
      assert a > i ==> more[a] == sorted[a - 1];
      assert b < i ==> more[b] == sorted[b];
    }
  }

  /** Sorts by distance; how equal distances are ordered is left open. */
  method SortMatches(ms: seq<Match>) returns (sorted: seq<Match>)
    ensures Ranked(sorted) && multiset(sorted) == multiset(ms)
  {
    hide Ranked;
    sorted := [];
    assert Ranked([]) by {
      NothingRanked();
    }
    for n := 0 to |ms|
      invariant Ranked(sorted) && multiset(sorted) == multiset(ms[..n])
    {
      sorted := InsertRanked(sorted, ms[n]);
      assert ms[..n + 1] == ms[..n] + [ms[n]];
    }
    assert ms[..|ms|] == ms;
  }

  lemma NothingRanked()
    ensures Ranked([])
  {
  }

  /** The nearest close words, at most `limit` of them. */
  method MatchWords(trim: Bytes -> Bytes, lower: Bytes -> Bytes, dict: seq<Bytes>, text: Bytes, limit: int)
    returns (words: seq<Bytes>, ghost ranked: seq<Match>)
    ensures trim(text) == [] ==> words == []
    ensures trim(text) != [] ==>
      && Ranked(ranked) && multiset(ranked) == multiset(CloseWords(lower, trim(text), dict))
      && |words| == (if limit < 0 then 0 else if limit < |ranked| then limit else |ranked|)
      && forall i | 0 <= i < |words| :: words[i] == ranked[i].word
  {
    var input := trim(text);
    words, ranked := [], [];
    if input == [] {
      return;
    }
    var matches: seq<Match> := [];
    for n := 0 to |dict|
      invariant matches == CloseWords(lower, input, dict[..n])
    {
      var dist := Levenshtein(lower, input, dict[n]);
      assert dict[..n + 1][..n] == dict[..n];
      if 5 * dist <= 2 * (if |input| < |dict[n]| then |dict[n]| else |input|) {
        matches := matches + [Match(dict[n], dist)];
      }
    }
    assert dict[..|dict|] == dict;
    var sorted := SortMatches(matches);
    ranked := sorted;
    var i := 0;
    while i < |sorted| && i < limit
      invariant 0 <= i <= |sorted| && (i == 0 || i <= limit) && |words| == i
      invariant forall k | 0 <= k < i :: words[k] == sorted[k].word
    {
      words := words + [sorted[i].word];
      i := i + 1;
    }
  }

  /** A dictionary word is kept, with its distance, exactly if that is at most two fifths of one of the lengths. */
  lemma {:induction false} KeptExactlyIfClose(lower: Bytes -> Bytes, input: Bytes, dict: seq<Bytes>, m: Match)
    ensures m in CloseWords(lower, input, dict) <==>
      && m.word in dict && m.dist == Distance(lower(input), lower(m.word))
      && (5 * m.dist <= 2 * |input| || 5 * m.dist <= 2 * |m.word|)
  {
    hide Distance;
    if dict != [] {
      var n := |dict| - 1;
      KeptExactlyIfClose(lower, input, dict[..n], m);
      assert dict == dict[..n] + [dict[n]];
    }
  }

  /** A close word that is not among the first `count` ranked is no nearer than any of those. */
  lemma NearestComeFirst(ranked: seq<Match>, kept: seq<Match>, count: nat, m: Match)
    requires Ranked(ranked) && multiset(ranked) == multiset(kept) && count <= |ranked|
    requires m in kept && m !in ranked[..count]
    ensures forall i | 0 <= i < count :: ranked[i].dist <= m.dist
  {
    assert m in multiset(ranked);
    assert forall i | 0 <= i < count :: ranked[..count][i] == ranked[i];
    var k :| 0 <= k < |ranked| && ranked[k] == m;
    assert count <= k;
  }
}
