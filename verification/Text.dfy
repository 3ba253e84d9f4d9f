/** String scanning shared by the modelled components: the few functions of Go's `strings`
    and `strconv` packages that they call, with the facts their callers rely on. */
module Text {
  datatype Option<+T> = None | Some(value: T)

  /** ASCII white space, as trimmed by strings.TrimSpace and strings.Fields. */
  predicate IsSpace(c: char) {
    c == ' ' || ('\t' <= c <= '\r')
  }

  lemma SpacesAre(c: char)
    ensures IsSpace(c) <==> c in {' ', '\t', '\n', '\U{000B}', '\U{000C}', '\r'}
  {
  }

  function TrimLeft(s: string): string {
    if s != "" && IsSpace(s[0]) then TrimLeft(s[1..]) else s
  }

  function TrimRight(s: string): string {
    if s != "" && IsSpace(s[|s| - 1]) then TrimRight(s[..|s| - 1]) else s
  }

  function TrimSpace(s: string): string {
    TrimRight(TrimLeft(s))
  }

  predicate HasPrefix(s: string, prefix: string) {
    |prefix| <= |s| && s[..|prefix|] == prefix
  }

  predicate HasSuffix(s: string, suffix: string) {
    |suffix| <= |s| && s[|s| - |suffix|..] == suffix
  }

  /** strings.Split with a one-character separator: always at least one piece. */
  function Split(s: string, sep: char): (pieces: seq<string>)
    ensures |pieces| > 0
  {
    if s == "" then [""]
    else
      var rest := Split(s[1..], sep);
      if s[0] == sep then [""] + rest else [[s[0]] + rest[0]] + rest[1..]
  }

  /** strings.Join with a one-character separator. */
  function Join(pieces: seq<string>, sep: char): string {
    if pieces == [] then ""
    else if |pieces| == 1 then pieces[0]
    else pieces[0] + [sep] + Join(pieces[1..], sep)
  }

  predicate Free(s: string, c: char) {
    forall i | 0 <= i < |s| :: s[i] != c
  }

  /** strings.IndexByte: the first place of a character, or -1. */
  function IndexOf(s: string, c: char): (i: int)
    ensures i == -1 ==> Free(s, c)
    ensures i != -1 ==> 0 <= i < |s| && s[i] == c && Free(s[..i], c)
  {
    if s == "" then -1
    else if s[0] == c then 0
    else
      var i := IndexOf(s[1..], c);
      if i == -1 then -1 else i + 1
  }

  lemma FirstAt(s: string, c: char, i: nat)
    requires i < |s| && s[i] == c && Free(s[..i], c)
    ensures IndexOf(s, c) == i
  {
    hide IndexOf;
    var found := IndexOf(s, c);
    assert found != -1;
    assert forall k | 0 <= k < i :: s[..i][k] == s[k];
    assert forall k | 0 <= k < found :: s[..found][k] == s[k];
  }

  /** A piece without separators is cut off whole, and the rest is split on its own. */
  lemma {:induction false} SplitPiece(piece: string, rest: string, sep: char)
    requires Free(piece, sep)
    ensures Split(piece + [sep] + rest, sep) == [piece] + Split(rest, sep)
    ensures Split(piece, sep) == [piece]
  {
    if piece == "" {
      assert (piece + [sep] + rest)[1..] == rest;
    } else {
      var text := piece + [sep] + rest;
      assert text[1..] == piece[1..] + [sep] + rest;
      SplitPiece(piece[1..], rest, sep);
      assert [piece[0]] + piece[1..] == piece;
    }
  }

  /** strings.Split undoes strings.Join on separator-free pieces. */
  lemma {:induction false} SplitJoin(pieces: seq<string>, sep: char)
    requires pieces != []
    requires forall p | p in pieces :: Free(p, sep)
    ensures Split(Join(pieces, sep), sep) == pieces
  {
    if |pieces| == 1 {
      SplitPiece(pieces[0], "", sep);
    } else {
      SplitPiece(pieces[0], Join(pieces[1..], sep), sep);
      SplitJoin(pieces[1..], sep);
    }
  }

  /** Text that starts and ends with something visible is left alone by TrimSpace. */
  lemma TrimSpaceKeeps(s: string)
    requires s != "" ==> !IsSpace(s[0]) && !IsSpace(s[|s| - 1])
    ensures TrimSpace(s) == s
  {
  }

  // ---- decimal numerals ----

  predicate IsDigit(c: char) {
    '0' <= c <= '9'
  }

  predicate AllDigits(s: string) {
    forall i | 0 <= i < |s| :: IsDigit(s[i])
  }

  function Digit(n: int): (c: char)
    requires 0 <= n < 10
    ensures IsDigit(c) && c as int - '0' as int == n
  {
    ('0' as int + n) as char
  }

  /** The `%d` form of a natural number. */
  function Print(n: nat): (s: string)
    ensures s != "" && AllDigits(s)
  {
    if n < 10 then [Digit(n)] else Print(n / 10) + [Digit(n % 10)]
  }

  function Value(s: string): nat
    requires AllDigits(s)
  {
    if s == "" then 0 else Value(s[..|s| - 1]) * 10 + (s[|s| - 1] as int - '0' as int)
  }

  lemma {:induction false} ValuePrint(n: nat)
    ensures Value(Print(n)) == n
  {
    if n >= 10 {
      ValuePrint(n / 10);
      var p := Print(n);
      assert p[..|p| - 1] == Print(n / 10);
    } else {
      assert Print(n)[..0] == "";
    }
  }

  /** The `%d` form of any integer. */
  function PrintInt(n: int): (s: string)
    ensures s != "" && (IsDigit(s[0]) || s[0] == '-')
    ensures IsDigit(s[|s| - 1])
  {
    if n < 0 then "-" + Print(-n) else Print(n)
  }

  /** Length of the longest run of digits at the front. */
  function DigitRun(s: string): (n: nat)
    ensures n <= |s| && AllDigits(s[..n])
    ensures n == |s| || !IsDigit(s[n])
  {
    if s != "" && IsDigit(s[0]) then 1 + DigitRun(s[1..]) else 0
  }

  lemma {:induction false} DigitRunStops(ds: string, rest: string)
    requires AllDigits(ds) && (rest == "" || !IsDigit(rest[0]))
    ensures DigitRun(ds + rest) == |ds| && (ds + rest)[..|ds|] == ds && (ds + rest)[|ds|..] == rest
  {
    if ds == "" {
      assert ds + rest == rest;
    } else {
      assert (ds + rest)[1..] == ds[1..] + rest;
      DigitRunStops(ds[1..], rest);
    }
  }

  const MAX_INT64: int := 0x7fff_ffff_ffff_ffff
  const MIN_INT64: int := -0x8000_0000_0000_0000

  /** strconv.Atoi: an optional sign, then digits only, within 64 bits. */
  function Atoi(s: string): (r: Option<int>)
    ensures r.Some? ==> MIN_INT64 <= r.value <= MAX_INT64
  {
    var digits := if s != "" && (s[0] == '-' || s[0] == '+') then s[1..] else s;
    if digits == "" || !AllDigits(digits) then None
    else
      var v: int := if s[0] == '-' then -(Value(digits) as int) else Value(digits);
      if MIN_INT64 <= v <= MAX_INT64 then Some(v) else None
  }

  /** The digits `ds`, with or without a sign, stand for `v`. */
  predicate Spells(s: string, ds: string, v: int) {
    && ds != "" && AllDigits(ds)
    && (((s == ds || s == "+" + ds) && v == Value(ds)) || (s == "-" + ds && v == -(Value(ds) as int)))
  }

  /** What is accepted: digits with or without a sign, if the number fits in 64 bits. */
  lemma AtoiMeans(s: string, v: int)
    ensures Atoi(s) == Some(v) <==>
      -0x8000_0000_0000_0000 <= v < 0x8000_0000_0000_0000 && exists ds: string :: Spells(s, ds, v)
  {
    hide Value;
    if Atoi(s) == Some(v) {
      var ds := if s != "" && (s[0] == '-' || s[0] == '+') then s[1..] else s;
      assert s != ds ==> s == [s[0]] + ds;
      assert Spells(s, ds, v);
    }
    if ds: string :| Spells(s, ds, v) {
      assert IsDigit(ds[0]);
      if s != ds {
        assert s[1..] == ds;
      }
    }
  }

  lemma AtoiPrintInt(n: int)
    requires MIN_INT64 <= n <= MAX_INT64
    ensures Atoi(PrintInt(n)) == Some(n)
  {
    var s := PrintInt(n);
    if n < 0 {
      ValuePrint(-n);
      assert s[0] == '-' && s[1..] == Print(-n);
    } else {
      ValuePrint(n);
      assert IsDigit(s[0]) && s == Print(n);
    }
  }
}
