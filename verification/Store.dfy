/** The internal database layer: placeholders for PostgreSQL, and lists kept as comma-separated text. */
module Store {
  import opened Text
  import opened Guard

  // ---- placeholders ----

  /** A query as a driver reads it: text without the inside of comments, and places for the k-th argument. */
  datatype Token = Lit(c: char) | Arg(k: nat)

  /** `?` in code stands for the next argument. */
  function PositionalTokens(query: string, p: Place, count: nat): seq<Token>
    decreases query
  {
    if query == "" then []
    else if InComment(p) then PositionalTokens(query[1..], Move(p, query[0]), count)
    else if InCode(p) && query[0] == '?' then [Arg(count + 1)] + PositionalTokens(query[1..], Code, count + 1)
    else [Lit(query[0])] + PositionalTokens(query[1..], Move(p, query[0]), count)
  }

  /** `$` in code and the longest run of digits behind it stand for the argument of that number. */
  function NumberedTokens(query: string, p: Place): seq<Token>
    decreases |query|
  {
    if query == "" then []
    else
      var n := DigitRun(query[1..]);
      if InComment(p) then NumberedTokens(query[1..], Move(p, query[0]))
      else if InCode(p) && query[0] == '$' && n > 0 then
        [Arg(Value(query[1..][..n]))] + NumberedTokens(query[1..][n..], Code)
      else [Lit(query[0])] + NumberedTokens(query[1..], Move(p, query[0]))
  }

  function Numbered(query: string, count: nat): string {
    if query == "" then ""
    else if query[0] == '?' then "$" + Print(count + 1) + Numbered(query[1..], count + 1)
    else [query[0]] + Numbered(query[1..], count)
  }

  /** Rewrites `?` to `$1`, `$2`, ... */
  method Placeholders(query: string) returns (out: string)
    ensures out == Numbered(query, 0)
  {
    out := "";
    var count := 0;
    for i := 0 to |query|
      invariant Numbered(query, 0) == out + Numbered(query[i..], count)
    {
      var c := query[i];
      assert query[i..][1..] == query[i + 1..];
      if c == '?' {
        count := count + 1;
        out := out + "$" + Print(count);
      } else {
        out := out + [c];
      }
    }
  }

  /** At position `i` there is a `?` in a literal, or a `$` or `?` in code with a digit behind it. */
  predicate Misread(query: string, p: Place, i: nat)
    requires i < |query|
  {
    var place := PlaceAfter(p, query[..i]);
    || (place.Literal? && query[i] == '?')
    || (InCode(place) && query[i] in {'$', '?'} && i + 1 < |query| && IsDigit(query[i + 1]))
  }

  predicate SomeMisread(query: string, p: Place) {
    exists i :: 0 <= i < |query| && Misread(query, p, i)
  }

  /** At position `i` there is a `?` in code, or one in a comment. */
  predicate MarkInCode(query: string, p: Place, i: nat)
    requires i < |query|
  {
    InCode(PlaceAfter(p, query[..i])) && query[i] == '?'
  }

  predicate MarkInComment(query: string, p: Place, i: nat)
    requires i < |query|
  {
    InComment(PlaceAfter(p, query[..i])) && query[i] == '?'
  }

  predicate HasArguments(query: string, p: Place) {
    exists i :: 0 <= i < |query| && MarkInCode(query, p, i)
  }

  /** A `?` in a comment comes before one in code. */
  predicate Shifted(query: string, p: Place) {
    exists i, j :: 0 <= i < j < |query| && MarkInComment(query, p, i) && MarkInCode(query, p, j)
  }

  lemma NumberedStarts(query: string, count: nat)
    ensures query == "" <==> Numbered(query, count) == ""
    ensures query != "" ==> (IsDigit(Numbered(query, count)[0]) <==> IsDigit(query[0]))
  {
  }

  lemma {:induction false} ValueOfLonger(a: string, b: string)
    requires AllDigits(a) && AllDigits(b)
    ensures Value(a + b) >= Value(a) && (b != "" ==> Value(a + b) >= 10 * Value(a))
  {
    if b != "" {
      ValueOfLonger(a, b[..|b| - 1]);
      assert (a + b)[..|a + b| - 1] == a + b[..|b| - 1];
    } else {
      assert a + b == a;
    }
  }

  lemma {:induction false} DigitRunGoesOn(ds: string, rest: string)
    requires AllDigits(ds) && rest != "" && IsDigit(rest[0])
    ensures DigitRun(ds + rest) > |ds|
  {
    if ds == "" {
      assert ds + rest == rest;
    } else {
      assert (ds + rest)[1..] == ds[1..] + rest;
      DigitRunGoesOn(ds[1..], rest);
    }
  }

  /** In code a placeholder is read as its argument exactly if no digit follows it, and else as a later one. */
  lemma PlaceholderRead(k: nat, rest: string, p: Place)
    requires k > 0 && InCode(p)
    ensures var tokens := NumberedTokens("$" + Print(k) + rest, p);
      if rest == "" || !IsDigit(rest[0]) then tokens == [Arg(k)] + NumberedTokens(rest, Code)
      else tokens != [] && tokens[0].Arg? && tokens[0].k > k
  {
    hide Print, Value;
    var ds := Print(k);
    var text := "$" + ds + rest;
    assert text[1..] == ds + rest;
    ValuePrint(k);
    if rest == "" || !IsDigit(rest[0]) {
      DigitRunStops(ds, rest);
    } else {
      DigitRunGoesOn(ds, rest);
      var n := DigitRun(ds + rest);
      var more := rest[..n - |ds|];
      assert (ds + rest)[..n] == ds + more;
      assert forall i | 0 <= i < |more| :: more[i] == (ds + rest)[..n][|ds| + i];
      ValueOfLonger(ds, more);
    }
  }

  /** In a literal it stays text. */
  lemma PlaceholderInside(k: nat, rest: string, p: Place)
    requires p.Literal?
    ensures var tokens := NumberedTokens("$" + Print(k) + rest, p); tokens != [] && tokens[0] == Lit('$')
  {
    assert ("$" + Print(k) + rest)[0] == '$';
  }

  /** In a comment it is passed over. */
  lemma PlaceholderCommented(k: nat, rest: string, p: Place)
    requires InComment(p)
    ensures NumberedTokens("$" + Print(k) + rest, p) == NumberedTokens(rest, Move(p, '?'))
  {
    hide Print;
    assert "$" + Print(k) + rest == ['$'] + (Print(k) + rest);
    assert (['$'] + (Print(k) + rest))[1..] == Print(k) + rest;
    DigitsCommented(Print(k), rest, Move(p, '$'));
  }

  lemma {:induction false} DigitsCommented(ds: string, rest: string, p: Place)
    requires AllDigits(ds) && p in {Line, Block}
    ensures NumberedTokens(ds + rest, p) == NumberedTokens(rest, p)
  {
    hide Value;
    if ds == "" {
      assert ds + rest == rest;
    } else {
      assert (ds + rest)[1..] == ds[1..] + rest;
      DigitsCommented(ds[1..], rest, p);
    }
  }

  lemma PlaceStep(query: string, p: Place, i: nat)
    requires i + 1 < |query|
    ensures PlaceAfter(p, query[..i + 1]) == PlaceAfter(Move(p, query[0]), query[1..][..i])
  {
    assert query[..i + 1][1..] == query[1..][..i];
  }

  lemma FirstPlace(query: string, p: Place)
    ensures PlaceAfter(p, query[..0]) == p
  {
  }

  /** How the conditions on a query follow from its first character and the rest. */
  lemma MisreadStep(query: string, p: Place)
    requires query != ""
    ensures SomeMisread(query, p) <==> Misread(query, p, 0) || SomeMisread(query[1..], Move(p, query[0]))
  {
    hide PlaceAfter;
    var rest, next := query[1..], Move(p, query[0]);
    if i :| 0 <= i < |rest| && Misread(rest, next, i) {
      PlaceStep(query, p, i);
      assert Misread(query, p, i + 1);
    }
    if i :| 0 <= i < |query| && Misread(query, p, i) {
      if i > 0 {
        PlaceStep(query, p, i - 1);
        assert Misread(rest, next, i - 1);
      }
    }
  }

  lemma MarksStep(query: string, p: Place)
    requires query != ""
    ensures var rest, next := query[1..], Move(p, query[0]);
      && (HasArguments(query, p) <==> (InCode(p) && query[0] == '?') || HasArguments(rest, next))
      && (Shifted(query, p) <==> (InComment(p) && query[0] == '?' && HasArguments(rest, next)) || Shifted(rest, next))
  {
    hide PlaceAfter;
    var rest, next := query[1..], Move(p, query[0]);
    FirstPlace(query, p);
    forall i | 0 <= i < |rest|
      ensures MarkInCode(query, p, i + 1) <==> MarkInCode(rest, next, i)
      ensures MarkInComment(query, p, i + 1) <==> MarkInComment(rest, next, i)
    {
      PlaceStep(query, p, i);
    }
    hide MarkInCode, MarkInComment;
    ShiftMarks(query, p, rest, next);
  }

  lemma ShiftMarks(query: string, p: Place, rest: string, next: Place)
    requires query != "" && rest == query[1..]
    requires forall i | 0 <= i < |rest| :: MarkInCode(query, p, i + 1) <==> MarkInCode(rest, next, i)
    requires forall i | 0 <= i < |rest| :: MarkInComment(query, p, i + 1) <==> MarkInComment(rest, next, i)
    ensures HasArguments(query, p) <==> MarkInCode(query, p, 0) || HasArguments(rest, next)
    ensures Shifted(query, p) <==> (MarkInComment(query, p, 0) && HasArguments(rest, next)) || Shifted(rest, next)
  {
    hide MarkInCode, MarkInComment;
    if i :| 0 <= i < |query| && MarkInCode(query, p, i) {
      if i > 0 {
        assert MarkInCode(rest, next, i - 1);
      }
    }
    if i :| 0 <= i < |rest| && MarkInCode(rest, next, i) {
      assert MarkInCode(query, p, i + 1);
    }
    if i, j :| 0 <= i < j < |query| && MarkInComment(query, p, i) && MarkInCode(query, p, j) {
      assert MarkInCode(rest, next, j - 1);
      if i > 0 {
        assert MarkInComment(rest, next, i - 1);
      }
    }
    if MarkInComment(query, p, 0) && HasArguments(rest, next) {
      var j :| 0 <= j < |rest| && MarkInCode(rest, next, j);
      assert MarkInCode(query, p, j + 1);
    }
    if i, j :| 0 <= i < j < |rest| && MarkInComment(rest, next, i) && MarkInCode(rest, next, j) {
      assert MarkInComment(query, p, i + 1) && MarkInCode(query, p, j + 1);
    }
  }

  /** Any other character is read as itself, unless it is a `$` in code with a digit behind it. */
  lemma CharacterRead(c: char, rest: string, p: Place)
    ensures var tokens := NumberedTokens([c] + rest, p);
      if InComment(p) then tokens == NumberedTokens(rest, Move(p, c))
      else if InCode(p) && c == '$' && rest != "" && IsDigit(rest[0]) then tokens != [] && tokens[0] != Lit(c)
      else tokens == [Lit(c)] + NumberedTokens(rest, Move(p, c))
  {
    hide Value;
    assert ([c] + rest)[1..] == rest;
  }

  lemma NoTokens(p: Place, count: nat)
    ensures NumberedTokens("", p) == [] && PositionalTokens("", p, count) == []
    ensures !SomeMisread("", p) && !Shifted("", p) && !HasArguments("", p)
  {
  }

  /** The number that the rewriting has reached, `count`, is never behind the number of arguments, `meant`; once it is
      ahead, no further argument may come. */
  lemma {:induction false} RewritingKeepsTokens(query: string, p: Place, count: nat, meant: nat)
    requires count >= meant
    ensures NumberedTokens(Numbered(query, count), p) == PositionalTokens(query, p, meant) <==>
      !SomeMisread(query, p) && if count == meant then !Shifted(query, p) else !HasArguments(query, p)
    decreases query
  {
    hide SomeMisread, Shifted, HasArguments, Print, NumberedTokens;
    if query == "" {
      NoTokens(p, meant);
    } else {
      MisreadStep(query, p);
      MarksStep(query, p);
      FirstPlace(query, p);
      var c, rest := query[0], query[1..];
      var next := if c == '?' then count + 1 else count;
      var text := Numbered(rest, next);
      NumberedStarts(rest, next);
      if InComment(p) {
        RewritingKeepsTokens(rest, Move(p, c), next, meant);
        if c == '?' {
          PlaceholderCommented(count + 1, text, p);
          NoShiftWithoutArguments(rest, Move(p, c));
        } else {
          CharacterRead(c, text, p);
        }
      } else if c == '?' {
        if p.Literal? {
          PlaceholderInside(count + 1, text, p);
        } else {
          RewritingKeepsTokens(rest, Code, count + 1, meant + 1);
          PlaceholderRead(count + 1, text, p);
          SameTail(Arg(count + 1), NumberedTokens(text, Code), PositionalTokens(rest, Code, meant + 1));
          assert PositionalTokens(query, p, meant)[0] == Arg(meant + 1);
        }
      } else {
        RewritingKeepsTokens(rest, Move(p, c), count, meant);
        CharacterRead(c, text, p);
        SameTail(Lit(c), NumberedTokens(text, Move(p, c)), PositionalTokens(rest, Move(p, c), meant));
      }
    }
  }

  lemma SameTail(t: Token, a: seq<Token>, b: seq<Token>)
    ensures [t] + a == [t] + b <==> a == b
  {
    assert ([t] + a)[1..] == a && ([t] + b)[1..] == b;
  }

  lemma NoShiftWithoutArguments(query: string, p: Place)
    ensures Shifted(query, p) ==> HasArguments(query, p)
  {
  }

  /** The rewritten query means what the original means exactly if no `?` stands in a literal, no digit behind a `$` or
      `?` in code, and no `?` in a comment before one in code. */
  lemma RewritingKeepsMeaningExactly(query: string)
    ensures NumberedTokens(Numbered(query, 0), Code) == PositionalTokens(query, Code, 0) <==>
      !SomeMisread(query, Code) && !Shifted(query, Code)
  {
    RewritingKeepsTokens(query, Code, 0, 0);
  }

  /** A question mark in a literal is rewritten too. */
  lemma QuestionMarkInLiteral()
    ensures NumberedTokens(Numbered("'?'=?", 0), Code) != PositionalTokens("'?'=?", Code, 0)
  {
    hide NumberedTokens, PositionalTokens, Numbered;
    var query := "'?'=?";
    assert query[..1] == "'" && query[1] == '?';
    assert PlaceAfter(Code, "'") == Literal('\'');
    assert Misread(query, Code, 1);
    RewritingKeepsMeaningExactly(query);
  }

  /** One in a comment is counted. */
  lemma QuestionMarkInComment()
    ensures NumberedTokens(Numbered("/*?*/?", 0), Code) != PositionalTokens("/*?*/?", Code, 0)
  {
    hide NumberedTokens, PositionalTokens, Numbered;
    var query := "/*?*/?";
    assert PlaceAfter(Code, "/*") == Block && PlaceAfter(Block, "?*/") == Code;
    assert PlaceAfter(Code, "/*?*/") == Code;
    assert query[..2] == "/*" && query[2] == '?' && query[..5] == "/*?*/" && query[5] == '?';
    assert MarkInComment(query, Code, 2) && MarkInCode(query, Code, 5);
    RewritingKeepsMeaningExactly(query);
  }

  /** The text a driver sees once the arguments are put in; a missing argument leaves nothing. */
  function Filled(tokens: seq<Token>, args: seq<string>): string {
    if tokens == [] then ""
    else
      (match tokens[0]
       case Lit(c) => [c]
       case Arg(k) => if 1 <= k <= |args| then args[k - 1] else "")
      + Filled(tokens[1..], args)
  }

  /** Under that condition every list of arguments goes to the same places. */
  lemma RewritingKeepsArguments(query: string, args: seq<string>)
    requires !SomeMisread(query, Code) && !Shifted(query, Code)
    ensures Filled(NumberedTokens(Numbered(query, 0), Code), args)
      == Filled(PositionalTokens(query, Code, 0), args)
  {
    RewritingKeepsMeaningExactly(query);
  }

  // ---- lists ----

  method JoinSlice(s: seq<string>) returns (result: string)
    ensures result == Join(s, ',')
  {
    if |s| == 0 {
      return "";
    }
    result := "";
    for i := 0 to |s|
      invariant result == Join(s[..i], ',')
    {
      JoinMore(s[..i], s[i]);
      assert s[..i] + [s[i]] == s[..i + 1];
      if i > 0 {
        result := result + ",";
      }
      result := result + s[i];
    }
    assert s[..|s|] == s;
  }

  lemma {:induction false} JoinMore(xs: seq<string>, x: string)
    ensures Join(xs + [x], ',') == (if xs == [] then "" else Join(xs, ',') + ",") + x
  {
    if xs == [] {
      assert xs + [x] == [x] && "" + x == x;
    } else {
      JoinMore(xs[1..], x);
      assert (xs + [x])[1..] == xs[1..] + [x];
    }
  }

  /** The pieces between commas, without an empty last one. */
  function ListOf(s: string): seq<string> {
    var ps := Split(s, ',');
    if ps[|ps| - 1] == "" then ps[..|ps| - 1] else ps
  }

  /** One more character of stored text, behind a piece begun. */
  lemma PieceStep(current: string, ch: char, rest: string)
    requires Free(current, ',')
    ensures ch == ',' ==> Split(current + ([ch] + rest), ',') == [current] + Split(rest, ',')
    ensures ch != ',' ==> Free(current + [ch], ',')
    ensures current + ([ch] + rest) == current + [ch] + rest
  {
    hide Split;
    if ch == ',' {
      SplitPiece(current, rest, ',');
      assert current + ([ch] + rest) == current + [','] + rest;
    }
  }

  lemma LastPiece(s: string, before: seq<string>, current: string)
    requires Free(current, ',') && Split(s, ',') == before + Split(current, ',')
    ensures ListOf(s) == if current != "" then before + [current] else before
  {
    hide Split;
    SplitPiece(current, "", ',');
  }

  method SplitSlice(s: string) returns (result: seq<string>)
    ensures result == ListOf(s)
  {
    hide Split, Free, ListOf;
    if s == "" {
      NothingStored();
      return [];
    }
    result := [];
    var current := "";
    NothingBegun();
    assert current + s[0..] == s && result + Split(s, ',') == Split(s, ',');
    for i := 0 to |s|
      invariant Free(current, ',')
      invariant Split(s, ',') == result + Split(current + s[i..], ',')
    {
      var ch := s[i];
      assert s[i..] == [ch] + s[i + 1..];
      PieceStep(current, ch, s[i + 1..]);
      if ch == ',' {
        result := result + [current];
        current := "";
        NothingBegun();
        assert "" + s[i + 1..] == s[i + 1..];
      } else {
        current := current + [ch];
      }
    }
    assert current + s[|s|..] == current;
    LastPiece(s, result, current);
    if current != "" {
      result := result + [current];
    }
  }

  lemma NothingBegun()
    ensures Free("", ',')
  {
  }

  lemma {:induction false} PiecesAreFree(s: string)
    ensures forall i | 0 <= i < |Split(s, ',')| :: Free(Split(s, ',')[i], ',')
  {
    if s != "" {
      PiecesAreFree(s[1..]);
      var rest := Split(s[1..], ',');
      assert Free(rest[0], ',');
    }
  }

  predicate CommaFree(xs: seq<string>) {
    forall i | 0 <= i < |xs| :: Free(xs[i], ',')
  }

  lemma ListOfParts(s: string)
    ensures CommaFree(ListOf(s))
    ensures var ps := Split(s, ',');
      ListOf(s) == if ps[|ps| - 1] == "" then ps[..|ps| - 1] else ps
  {
    PiecesAreFree(s);
  }

  /** A list survives being stored exactly if its items have no commas and the last is not empty. */
  lemma {:induction false} ListSurvivesExactly(xs: seq<string>)
    ensures ListOf(Join(xs, ',')) == xs <==> CommaFree(xs) && (xs != [] ==> xs[|xs| - 1] != "")
  {
    hide Split, Free, ListOf;
    ListOfParts(Join(xs, ','));
    if xs == [] {
      NothingStored();
    } else if CommaFree(xs) {
      forall p | p in xs ensures Free(p, ',') {
        var i :| 0 <= i < |xs| && xs[i] == p;
      }
      SplitJoin(xs, ',');
    }
  }

  lemma NothingStored()
    ensures ListOf("") == []
  {
  }

  lemma SplitStep(s: string)
    requires s != ""
    ensures var rest := Split(s[1..], ',');
      Split(s, ',') == if s[0] == ',' then [""] + rest else [[s[0]] + rest[0]] + rest[1..]
    ensures Split("", ',') == [""]
  {
  }

  lemma JoinFirst(x: string, xs: seq<string>)
    ensures Join([x] + xs, ',') == if xs == [] then x else x + "," + Join(xs, ',')
  {
    assert ([x] + xs)[1..] == xs;
  }

  lemma JoinLonger(c: char, x: string, xs: seq<string>)
    ensures Join([[c] + x] + xs, ',') == [c] + Join([x] + xs, ',')
  {
    hide Join;
    JoinFirst([c] + x, xs);
    JoinFirst(x, xs);
    if xs != [] {
      assert [c] + x + "," + Join(xs, ',') == [c] + (x + "," + Join(xs, ','));
    }
  }

  /** Joining what was split gives the text back. */
  lemma {:induction false} JoinSplit(s: string)
    ensures Join(Split(s, ','), ',') == s
  {
    hide Join, Split;
    if s == "" {
      SplitStep(",");
      JoinFirst("", []);
      assert [""] + [] == [""];
    } else {
      var rest := Split(s[1..], ',');
      JoinSplit(s[1..]);
      SplitStep(s);
      assert s == [s[0]] + s[1..];
      if s[0] == ',' {
        JoinFirst("", rest);
      } else {
        assert rest == [rest[0]] + rest[1..];
        JoinLonger(s[0], rest[0], rest[1..]);
      }
    }
  }

  lemma {:induction false} OnePieceIsFree(s: string)
    ensures |Split(s, ',')| == 1 <==> Free(s, ',')
  {
    hide Split;
    if s == "" {
      SplitStep(",");
    } else {
      SplitStep(s);
      OnePieceIsFree(s[1..]);
      FreeStep(s);
    }
  }

  lemma FreeStep(s: string)
    requires s != ""
    ensures Free(s, ',') <==> s[0] != ',' && Free(s[1..], ',')
  {
    assert forall i | 1 <= i < |s| :: s[i] == s[1..][i - 1];
    assert forall i | 0 <= i < |s| - 1 :: s[1..][i] == s[i + 1];
  }

  /** The last piece is empty exactly behind a comma, or if there is no text. */
  lemma {:induction false} LastPieceEmpty(s: string)
    ensures var ps := Split(s, ','); ps[|ps| - 1] == "" <==> s == "" || s[|s| - 1] == ','
    decreases |s|
  {
    hide Split;
    SplitStep(",");
    if s != "" {
      SplitStep(s);
      LastPieceEmpty(s[1..]);
      OnePieceIsFree(s[1..]);
      assert |s| > 1 ==> s[|s| - 1] == s[1..][|s| - 2];
    }
  }

  /** Reading stored text and writing it again drops exactly one trailing comma, if there is one. */
  lemma StoredTextSurvives(s: string)
    ensures Join(ListOf(s), ',') == if s != "" && s[|s| - 1] == ',' then s[..|s| - 1] else s
  {
    hide Split, Join, ListOf, Free;
    JoinSplit(s);
    LastPieceEmpty(s);
    ListOfParts(s);
    NothingJoined();
    var ps := Split(s, ',');
    var before := ps[..|ps| - 1];
    if ps[|ps| - 1] == "" {
      assert ps == before + [""];
      JoinMore(before, "");
      if before != [] {
        assert s == Join(before, ',') + ",";
      }
    }
  }

  lemma NothingJoined()
    ensures Join([], ',') == ""
  {
  }
}
