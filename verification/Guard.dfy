/** The command guard: cutting SQL text into statements and ranking what they do. */
module Guard {
  import opened Text

  // ---- statements ----

  /** Whether the scan is inside a literal, and which quote closes it. */
  datatype Scan = Outside | Inside(quote: char)

  predicate IsQuote(c: char) {
    c == '\'' || c == '"' || c == '`'
  }

  function Next(st: Scan, c: char): Scan {
    match st
    case Inside(q) => if c == q then Outside else st
    case Outside => if IsQuote(c) then Inside(c) else Outside
  }

  function After(st: Scan, s: string): Scan
    decreases s
  {
    if s == "" then st else After(Next(st, s[0]), s[1..])
  }

  /** No semicolon of `s` is outside literals, if the scan enters `s` in state `st`. */
  predicate Uncut(st: Scan, s: string)
    decreases s
  {
    s == "" || (!(st.Outside? && s[0] == ';') && Uncut(Next(st, s[0]), s[1..]))
  }

  /** The pieces of the text still to come, after `cur`. */
  function Pieces(cur: string, st: Scan, s: string): seq<string>
    decreases s
  {
    if s == "" then if cur == "" then [] else [cur]
    else if st.Outside? && s[0] == ';' then [cur] + Pieces("", Outside, s[1..])
    else Pieces(cur + [s[0]], Next(st, s[0]), s[1..])
  }

  function Statements(sql: string): seq<string> {
    Pieces("", Outside, sql)
  }

  method SplitStatements(sql: string) returns (out: seq<string>)
    ensures out == Statements(sql)
  {
    out := [];
    var cur := "";
    var inStr := false;
    var quote := '\0';
    for i := 0 to |sql|
      invariant Statements(sql) == out + Pieces(cur, if inStr then Inside(quote) else Outside, sql[i..])
    {
      var ch := sql[i];
      assert sql[i..][1..] == sql[i + 1..];
      if inStr {
        cur := cur + [ch];
        if ch == quote {
          inStr := false;
        }
        continue;
      }
      match ch
      case '\'' | '"' | '`' =>
        inStr := true;
        quote := ch;
        cur := cur + [ch];
      case ';' =>
        out := out + [cur];
        cur := "";
      case _ =>
        cur := cur + [ch];
    }
    if |cur| > 0 {
      out := out + [cur];
    }
  }

  /** A list of statements as the scan would leave it: no piece has a cut, every piece but the last closes
      its literals, and the last is not empty. */
  predicate WholePieces(ps: seq<string>) {
    && (forall i | 0 <= i < |ps| :: Uncut(Outside, ps[i]))
    && (forall i | 0 <= i < |ps| - 1 :: After(Outside, ps[i]) == Outside)
    && (ps != [] ==> ps[|ps| - 1] != "")
  }

  /** The text ends with a semicolon outside literals, if the scan enters it in state `st`. */
  predicate Terminated(st: Scan, s: string)
    decreases s
  {
    s != "" && if |s| == 1 then st.Outside? && s[0] == ';' else Terminated(Next(st, s[0]), s[1..])
  }

  lemma {:induction false} AfterConcat(st: Scan, a: string, b: string)
    ensures After(st, a + b) == After(After(st, a), b)
    ensures Uncut(st, a + b) <==> Uncut(st, a) && Uncut(After(st, a), b)
    decreases a
  {
    if a == "" {
      assert a + b == b;
    } else {
      assert (a + b)[1..] == a[1..] + b;
      AfterConcat(Next(st, a[0]), a[1..], b);
    }
  }

  /** Uncut text is carried over into the current piece. */
  lemma {:induction false} PiecesCarry(cur: string, st: Scan, s: string, rest: string)
    requires Uncut(st, s)
    ensures Pieces(cur, st, s + rest) == Pieces(cur + s, After(st, s), rest)
    decreases s
  {
    if s == "" {
      assert s + rest == rest && cur + s == cur;
    } else {
      assert (s + rest)[1..] == s[1..] + rest;
      assert cur + [s[0]] + s[1..] == cur + s;
      PiecesCarry(cur + [s[0]], Next(st, s[0]), s[1..], rest);
    }
  }

  /** Cutting the joined text, with or without a final semicolon, gives the pieces back. */
  lemma {:induction false} StatementsOfJoin(ps: seq<string>)
    requires WholePieces(ps)
    ensures Statements(Join(ps, ';')) == ps
    ensures ps != [] && After(Outside, ps[|ps| - 1]) == Outside ==> Statements(Join(ps, ';') + ";") == ps
  {
    if |ps| == 1 {
      PiecesCarry("", Outside, ps[0], "");
      PiecesCarry("", Outside, ps[0], ";");
      assert ps[0] + "" == ps[0] && "" + ps[0] == ps[0];
    } else if |ps| > 1 {
      var rest := ps[1..];
      assert forall i | 0 <= i < |rest| :: rest[i] == ps[i + 1];
      assert WholePieces(rest);
      StatementsOfJoin(rest);
      FirstPiece(ps[0], Join(rest, ';'));
      FirstPiece(ps[0], Join(rest, ';') + ";");
      assert Join(ps, ';') + ";" == ps[0] + [';'] + (Join(rest, ';') + ";");
      assert [ps[0]] + rest == ps;
    }
  }

  lemma FirstPiece(p: string, rest: string)
    requires Uncut(Outside, p) && After(Outside, p) == Outside
    ensures Statements(p + [';'] + rest) == [p] + Statements(rest)
  {
    PiecesCarry("", Outside, p, [';'] + rest);
    assert p + [';'] + rest == p + ([';'] + rest) && "" + p == p;
    assert ([';'] + rest)[1..] == rest;
  }

  /** Joined with semicolons the pieces are the text, up to one final semicolon outside literals. */
  lemma {:induction false} JoinOfPieces(cur: string, st: Scan, s: string)
    ensures cur + s == Join(Pieces(cur, st, s), ';') + (if Terminated(st, s) then ";" else "")
    ensures s != "" ==> Pieces(cur, st, s) != []
    decreases s
  {
    var ps := Pieces(cur, st, s);
    if s == "" {
      assert cur + s == cur && cur + "" == cur;
    } else {
      assert s == [s[0]] + s[1..];
      if st.Outside? && s[0] == ';' {
        var rest := Pieces("", Outside, s[1..]);
        JoinOfPieces("", Outside, s[1..]);
        assert ps == [cur] + rest && ps[1..] == rest;
        assert "" + s[1..] == s[1..];
      } else {
        JoinOfPieces(cur + [s[0]], Next(st, s[0]), s[1..]);
        assert cur + [s[0]] + s[1..] == cur + s;
      }
    }
  }

  /** No piece has a cut; every piece but the last closes its literals; only before a final semicolon may the
      last piece be empty. */
  lemma {:induction false} PiecesAreWhole(cur: string, st: Scan, s: string)
    requires Uncut(Outside, cur) && After(Outside, cur) == st
    ensures var ps := Pieces(cur, st, s);
      && (forall i | 0 <= i < |ps| :: Uncut(Outside, ps[i]))
      && (forall i | 0 <= i < |ps| - 1 :: After(Outside, ps[i]) == Outside)
      && (ps != [] && !Terminated(st, s) ==> ps[|ps| - 1] != "")
    decreases s
  {
    var ps := Pieces(cur, st, s);
    if s != "" {
      if st.Outside? && s[0] == ';' {
        var rest := Pieces("", Outside, s[1..]);
        PiecesAreWhole("", Outside, s[1..]);
        JoinOfPieces("", Outside, s[1..]);
        assert ps == [cur] + rest;
      } else {
        AfterConcat(Outside, cur, [s[0]]);
        assert [s[0]][1..] == "";
        PiecesAreWhole(cur + [s[0]], Next(st, s[0]), s[1..]);
        assert ps == Pieces(cur + [s[0]], Next(st, s[0]), s[1..]);
      }
    }
  }

  /** Splitting loses nothing: the pieces are single statements and their join is the text. */
  lemma SplitLosesNothing(sql: string)
    ensures var ps := Statements(sql);
      && sql == Join(ps, ';') + (if Terminated(Outside, sql) then ";" else "")
      && (!Terminated(Outside, sql) ==> WholePieces(ps))
      && forall i | 0 <= i < |ps| :: Uncut(Outside, ps[i])
  {
    JoinOfPieces("", Outside, sql);
    PiecesAreWhole("", Outside, sql);
    assert "" + sql == sql;
  }

  /** A non-empty piece is a single statement. */
  lemma SplitAgain(sql: string, i: nat)
    requires i < |Statements(sql)| && Statements(sql)[i] != ""
    ensures Statements(Statements(sql)[i]) == [Statements(sql)[i]]
  {
    SplitLosesNothing(sql);
    StatementsOfJoin([Statements(sql)[i]]);
  }

  // ---- commands ----

  datatype Command = Select | Insert | Update | Delete | Create | Drop | Alter | Truncate | Unknown

  function RiskLevel(c: Command): nat {
    match c
    case Drop | Truncate => 5
    case Delete | Alter => 4
    case Create | Update => 3
    case Insert => 2
    case Select => 1
    case Unknown => 0
  }

  function PrefixCommand(sql: string): Command {
    if HasPrefix(sql, "SELECT") then Select
    else if HasPrefix(sql, "INSERT") then Insert
    else if HasPrefix(sql, "UPDATE") then Update
    else if HasPrefix(sql, "DELETE") then Delete
    else if HasPrefix(sql, "CREATE") then Create
    else if HasPrefix(sql, "DROP") then Drop
    else if HasPrefix(sql, "ALTER") then Alter
    else if HasPrefix(sql, "TRUNCATE") then Truncate
    else Unknown
  }

  /** What one statement does. */
  function CommandOf(statement: string): Command {
    PrefixCommand(TrimSpace(statement))
  }

  /** The statement starts with the word, spaces aside. */
  predicate Starts(statement: string, word: string) {
    HasPrefix(TrimSpace(statement), word)
  }

  /** Of two words that differ somewhere, text starts with at most one. */
  lemma OneWord(s: string, a: string, b: string, i: nat)
    requires i < |a| && i < |b| && a[i] != b[i]
    ensures !(HasPrefix(s, a) && HasPrefix(s, b))
  {
    hide HasPrefix;
    PrefixAt(s, a, i);
    PrefixAt(s, b, i);
  }

  lemma PrefixAt(s: string, prefix: string, i: nat)
    requires i < |prefix|
    ensures HasPrefix(s, prefix) ==> i < |s| && s[i] == prefix[i]
  {
    if HasPrefix(s, prefix) {
      assert s[..|prefix|][i] == s[i];
    }
  }

  /** Each of the eight commands is found exactly where the statement starts with its word. */
  lemma CommandOfMeans(statement: string)
    ensures CommandOf(statement) == Select <==> Starts(statement, "SELECT")
    ensures CommandOf(statement) == Insert <==> Starts(statement, "INSERT")
    ensures CommandOf(statement) == Update <==> Starts(statement, "UPDATE")
    ensures CommandOf(statement) == Delete <==> Starts(statement, "DELETE")
    ensures CommandOf(statement) == Create <==> Starts(statement, "CREATE")
    ensures CommandOf(statement) == Drop <==> Starts(statement, "DROP")
    ensures CommandOf(statement) == Alter <==> Starts(statement, "ALTER")
    ensures CommandOf(statement) == Truncate <==> Starts(statement, "TRUNCATE")
  {
    hide HasPrefix, TrimSpace;
    var s := TrimSpace(statement);
    FirstLetters(s, "SELECT", "INSERT", "UPDATE", "DELETE");
    FirstLetters(s, "CREATE", "INSERT", "UPDATE", "DELETE");
    FirstLetters(s, "ALTER", "INSERT", "UPDATE", "DELETE");
    FirstLetters(s, "TRUNCATE", "INSERT", "UPDATE", "DELETE");
    FirstLetters(s, "SELECT", "CREATE", "ALTER", "TRUNCATE");
    FirstLetters(s, "DROP", "CREATE", "ALTER", "TRUNCATE");
    FirstLetters(s, "DROP", "INSERT", "UPDATE", "SELECT");
    OneWord(s, "DROP", "DELETE", 1);
  }

  lemma FirstLetters(s: string, a: string, b: string, c: string, d: string)
    requires a != "" && b != "" && c != "" && d != ""
    requires a[0] != b[0] && a[0] != c[0] && a[0] != d[0] && b[0] != c[0] && b[0] != d[0] && c[0] != d[0]
    ensures HasPrefix(s, a) ==> !HasPrefix(s, b) && !HasPrefix(s, c) && !HasPrefix(s, d)
    ensures HasPrefix(s, b) ==> !HasPrefix(s, c) && !HasPrefix(s, d)
    ensures HasPrefix(s, c) ==> !HasPrefix(s, d)
  {
    hide HasPrefix;
    OneWord(s, a, b, 0);
    OneWord(s, a, c, 0);
    OneWord(s, a, d, 0);
    OneWord(s, b, c, 0);
    OneWord(s, b, d, 0);
    OneWord(s, c, d, 0);
  }

  predicate SomeStarts(statements: seq<string>, word: string) {
    exists i :: 0 <= i < |statements| && Starts(statements[i], word)
  }

  /** strings.Index: the first place where `part` occurs, or -1. */
  function Index(s: string, part: string): (i: int)
    ensures -1 <= i <= |s|
    ensures i >= 0 ==> HasPrefix(s[i..], part)
    ensures forall j | 0 <= j < (if i >= 0 then i else |s|) :: !HasPrefix(s[j..], part)
  {
    if HasPrefix(s, part) then 0
    else if s == "" then -1
    else
      var i := Index(s[1..], part);
      assert forall j | 1 <= j <= |s| :: s[j..] == s[1..][j - 1..];
      if i == -1 then -1 else i + 1
  }

  lemma TrimShrinks(s: string)
    ensures |TrimSpace(s)| <= |s|
    ensures TrimSpace(s) != "" ==> !IsSpace(TrimSpace(s)[0]) && !IsSpace(TrimSpace(s)[|TrimSpace(s)| - 1])
  {
    TrimLeftFirst(s);
    TrimRightEnds(TrimLeft(s));
  }

  lemma TrimLeftFirst(s: string)
    ensures |TrimLeft(s)| <= |s| && (TrimLeft(s) != "" ==> !IsSpace(TrimLeft(s)[0]))
  {
  }

  lemma TrimRightEnds(s: string)
    ensures |TrimRight(s)| <= |s| && TrimRight(s) == s[..|TrimRight(s)|]
    ensures TrimRight(s) != "" ==> !IsSpace(TrimRight(s)[|TrimRight(s)| - 1])
  {
  }

  /** What is left of the text behind one leading comment, if the comment ends. */
  function AfterComment(s: string): (r: Option<string>)
    requires HasPrefix(s, "--") || HasPrefix(s, "/*")
    ensures r.Some? ==> |r.value| < |s|
  {
    if HasPrefix(s, "--") then
      var i := Index(s, "\n");
      if i >= 0 then Some(s[i + 1..]) else None
    else
      var i := Index(s, "*/");
      if i >= 0 then Some(s[i + 2..]) else None
  }

  /** Text that starts with neither white space nor a comment. */
  predicate StartsClean(s: string) {
    (s != "" ==> !IsSpace(s[0])) && !HasPrefix(s, "--") && !HasPrefix(s, "/*")
  }

  /** The text behind its leading white space and comments; nothing if the last of them never ends. */
  function Stripped(sql: string): (s: Option<string>)
    ensures s.Some? ==> StartsClean(s.value)
    decreases |sql|
  {
    TrimShrinks(sql);
    var s := TrimSpace(sql);
    if HasPrefix(s, "--") || HasPrefix(s, "/*") then
      var rest := AfterComment(s);
      if rest.None? then None else Stripped(rest.value)
    else Some(s)
  }

  /** The text that is classified: upper-cased, without what `Stripped` takes off. */
  function Trimmed(upper: string -> string, sql: string): string {
    match Stripped(sql)
    case None => ""
    case Some(s) => upper(s)
  }

  method TrimSQL(upper: string -> string, sql: string) returns (r: string)
    ensures r == Trimmed(upper, sql)
  {
    hide TrimSpace, Index;
    TrimShrinks(sql);
    var s := TrimSpace(sql);
    while true
      invariant Stripped(sql) ==
        if HasPrefix(s, "--") || HasPrefix(s, "/*") then
          var rest := AfterComment(s);
          if rest.None? then None else Stripped(rest.value)
        else Some(s)
      decreases |s|
    {
      if HasPrefix(s, "--") {
        var i := Index(s, "\n");
        if i < 0 {
          return "";
        }
        TrimShrinks(s[i + 1..]);
        s := TrimSpace(s[i + 1..]);
      } else if HasPrefix(s, "/*") {
        var i := Index(s, "*/");
        if i < 0 {
          return "";
        }
        TrimShrinks(s[i + 2..]);
        s := TrimSpace(s[i + 2..]);
      } else {
        return upper(s);
      }
    }
  }

  /** `cmd` is the first command of highest risk among the statements. */
  ghost predicate IsHighest(statements: seq<string>, cmd: Command) {
    && (forall i | 0 <= i < |statements| :: RiskLevel(CommandOf(statements[i])) <= RiskLevel(cmd))
    && (cmd != Unknown ==> exists i ::
          0 <= i < |statements| && CommandOf(statements[i]) == cmd
          && forall j | 0 <= j < i :: RiskLevel(CommandOf(statements[j])) < RiskLevel(cmd))
  }

  method DetectCommand(upper: string -> string, sql: string) returns (highest: Command)
    ensures IsHighest(Statements(Trimmed(upper, sql)), highest)
  {
    hide TrimSpace, PrefixCommand, Stripped;
    var trimmed := TrimSQL(upper, sql);
    highest := Unknown;
    var highestRisk := 0;
    var statements := SplitStatements(trimmed);
    EmptyIsUnknown();
    for n := 0 to |statements|
      invariant highestRisk == RiskLevel(highest)
      invariant IsHighest(statements[..n], highest)
    {
      assert statements[..n + 1] == statements[..n] + [statements[n]];
      HighestSoFar(statements[..n], highest, statements[n]);
      var statement := TrimSpace(statements[n]);
      if statement == "" {
        continue;
      }
      var c := PrefixCommand(statement);
      if c == Unknown {
        continue;
      }
      if RiskLevel(c) > highestRisk {
        highestRisk := RiskLevel(c);
        highest := c;
      }
    }
    assert statements[..|statements|] == statements;
  }

  lemma EmptyIsUnknown()
    ensures PrefixCommand("") == Unknown
  {
  }

  lemma HighestSoFar(statements: seq<string>, highest: Command, statement: string)
    requires IsHighest(statements, highest)
    ensures var c := CommandOf(statement);
      IsHighest(statements + [statement], if RiskLevel(c) > RiskLevel(highest) then c else highest)
  {
    hide CommandOf;
    var more := statements + [statement];
    if RiskLevel(CommandOf(statement)) > RiskLevel(highest) {
      assert CommandOf(more[|statements|]) == CommandOf(statement);
    } else if highest != Unknown {
      var i :| 0 <= i < |statements| && CommandOf(statements[i]) == highest
        && forall j | 0 <= j < i :: RiskLevel(CommandOf(statements[j])) < RiskLevel(highest);
      assert CommandOf(more[i]) == highest;
    }
  }

  /** The ranking by words: which words occur decides which commands can be found. */
  lemma {:induction false} FoundByWords(statements: seq<string>, cmd: Command)
    requires IsHighest(statements, cmd)
    ensures var high := SomeStarts(statements, "DROP") || SomeStarts(statements, "TRUNCATE");
      var above := high || SomeStarts(statements, "DELETE") || SomeStarts(statements, "ALTER");
      var middle := above || SomeStarts(statements, "CREATE") || SomeStarts(statements, "UPDATE");
      && (cmd in {Drop, Truncate} <==> high)
      && (cmd in {Delete, Alter} <==> above && !high)
      && (cmd in {Create, Update} <==> middle && !above)
      && (cmd == Insert <==> SomeStarts(statements, "INSERT") && !middle)
      && (cmd == Select <==> SomeStarts(statements, "SELECT") && !SomeStarts(statements, "INSERT") && !middle)
  {
    forall i | 0 <= i < |statements| ensures CommandByWord(statements[i], CommandOf(statements[i])) {
      CommandOfMeans(statements[i]);
    }
    hide CommandOf, Starts;
    FoundAmong(statements, cmd);
  }

  predicate CommandByWord(statement: string, c: Command) {
    && (c == Select <==> Starts(statement, "SELECT")) && (c == Insert <==> Starts(statement, "INSERT"))
    && (c == Update <==> Starts(statement, "UPDATE")) && (c == Delete <==> Starts(statement, "DELETE"))
    && (c == Create <==> Starts(statement, "CREATE")) && (c == Drop <==> Starts(statement, "DROP"))
    && (c == Alter <==> Starts(statement, "ALTER")) && (c == Truncate <==> Starts(statement, "TRUNCATE"))
  }

  lemma SomeCommand(statements: seq<string>, c: Command, word: string)
    requires forall i | 0 <= i < |statements| :: CommandOf(statements[i]) == c <==> Starts(statements[i], word)
    ensures SomeStarts(statements, word) <==> exists i :: 0 <= i < |statements| && CommandOf(statements[i]) == c
  {
    hide CommandOf, Starts;
    if i :| 0 <= i < |statements| && CommandOf(statements[i]) == c {
      assert Starts(statements[i], word);
    }
  }

  ghost predicate Has(statements: seq<string>, c: Command) {
    exists i :: 0 <= i < |statements| && CommandOf(statements[i]) == c
  }

  lemma FoundAmong(statements: seq<string>, cmd: Command)
    requires IsHighest(statements, cmd)
    requires forall i | 0 <= i < |statements| :: CommandByWord(statements[i], CommandOf(statements[i]))
    ensures var high := SomeStarts(statements, "DROP") || SomeStarts(statements, "TRUNCATE");
      var above := high || SomeStarts(statements, "DELETE") || SomeStarts(statements, "ALTER");
      var middle := above || SomeStarts(statements, "CREATE") || SomeStarts(statements, "UPDATE");
      && (cmd in {Drop, Truncate} <==> high)
      && (cmd in {Delete, Alter} <==> above && !high)
      && (cmd in {Create, Update} <==> middle && !above)
      && (cmd == Insert <==> SomeStarts(statements, "INSERT") && !middle)
      && (cmd == Select <==> SomeStarts(statements, "SELECT") && !SomeStarts(statements, "INSERT") && !middle)
  {
    hide CommandOf, Starts, SomeStarts;
    SomeCommand(statements, Drop, "DROP");
    SomeCommand(statements, Truncate, "TRUNCATE");
    SomeCommand(statements, Delete, "DELETE");
    SomeCommand(statements, Alter, "ALTER");
    SomeCommand(statements, Create, "CREATE");
    SomeCommand(statements, Update, "UPDATE");
    SomeCommand(statements, Insert, "INSERT");
    SomeCommand(statements, Select, "SELECT");
    hide CommandByWord;
    HighestHas(statements, cmd);
  }

  /** The command found occurs, and none of a higher risk does. */
  lemma HighestHas(statements: seq<string>, cmd: Command)
    requires IsHighest(statements, cmd)
    ensures cmd != Unknown ==> Has(statements, cmd)
    ensures forall c | Has(statements, c) :: RiskLevel(c) <= RiskLevel(cmd)
  {
    hide CommandOf;
  }

  // ---- comments in front of later statements ----

  predicate StartsWithComment(s: string) {
    HasPrefix(s, "--") || HasPrefix(s, "/*")
  }

  /** What one statement does when the comments in front of it are passed over. */
  function CommandBehindComments(statement: string): Command {
    match Stripped(statement)
    case None => Unknown
    case Some(s) => PrefixCommand(s)
  }

  lemma CommentIsNoCommand(s: string)
    requires StartsWithComment(s)
    ensures PrefixCommand(s) == Unknown
  {
    assert s[0] == s[..2][0];
    PrefixAt(s, "SELECT", 0);
    PrefixAt(s, "INSERT", 0);
    PrefixAt(s, "UPDATE", 0);
    PrefixAt(s, "DELETE", 0);
    PrefixAt(s, "CREATE", 0);
    PrefixAt(s, "DROP", 0);
    PrefixAt(s, "ALTER", 0);
    PrefixAt(s, "TRUNCATE", 0);
  }

  /** The command of a statement is missed exactly if a comment stands in front of it. */
  lemma CommentHidesCommandExactly(statement: string)
    ensures CommandOf(statement) != CommandBehindComments(statement) <==>
      StartsWithComment(TrimSpace(statement)) && CommandBehindComments(statement) != Unknown
  {
    hide PrefixCommand, TrimSpace;
    var s := TrimSpace(statement);
    if StartsWithComment(s) {
      CommentIsNoCommand(s);
    }
  }

  /** So no statement does more than the command found, comments passed over, exactly if every command behind a
      comment is matched in risk by one that is not. */
  lemma HighestBehindCommentsExactly(statements: seq<string>, cmd: Command)
    requires IsHighest(statements, cmd)
    ensures (forall i | 0 <= i < |statements| :: RiskLevel(CommandBehindComments(statements[i])) <= RiskLevel(cmd))
      <==> forall i | 0 <= i < |statements| && StartsWithComment(TrimSpace(statements[i]))
                      && CommandBehindComments(statements[i]) != Unknown ::
             exists j :: 0 <= j < |statements|
               && RiskLevel(CommandBehindComments(statements[i])) <= RiskLevel(CommandOf(statements[j]))
  {
    hide CommandOf, CommandBehindComments, StartsWithComment, TrimSpace;
    forall i | 0 <= i < |statements|
      ensures !StartsWithComment(TrimSpace(statements[i])) ==>
        RiskLevel(CommandBehindComments(statements[i])) <= RiskLevel(cmd)
    {
      CommentHidesCommandExactly(statements[i]);
    }
    if cmd != Unknown {
      var j :| 0 <= j < |statements| && CommandOf(statements[j]) == cmd;
      assert forall i | 0 <= i < |statements| && RiskLevel(CommandBehindComments(statements[i])) <= RiskLevel(cmd) ::
        RiskLevel(CommandBehindComments(statements[i])) <= RiskLevel(CommandOf(statements[j]));
    }
  }

  predicate OtherThanSelect(c: Command) {
    c != Select && c != Unknown
  }

  /** A caller who may query but not execute passes with a statement that does more than select, comments passed over,
      exactly if such a statement stands behind a comment beside a SELECT, and no recognised one is anything else. */
  lemma QueryOnlyCallerRunsMoreExactly(statements: seq<string>, cmd: Command, permissions: seq<string>)
    requires IsHighest(statements, cmd) && QUERY in permissions && EXECUTE !in permissions
    ensures
      && CommandPermission(cmd).Some? && CommandPermission(cmd).value in permissions
      && (exists i :: 0 <= i < |statements| && OtherThanSelect(CommandBehindComments(statements[i])))
      <==>
      && (exists i :: 0 <= i < |statements| && CommandOf(statements[i]) == Select)
      && (forall i | 0 <= i < |statements| :: !OtherThanSelect(CommandOf(statements[i])))
      && (exists i :: 0 <= i < |statements| && StartsWithComment(TrimSpace(statements[i]))
            && OtherThanSelect(CommandBehindComments(statements[i])))
  {
    hide CommandOf, CommandBehindComments, StartsWithComment, TrimSpace, IsHighest, CommandPermission;
    QueryOnlyCallerRunsSelects(statements, cmd, permissions);
    if i :| 0 <= i < |statements| && OtherThanSelect(CommandBehindComments(statements[i])) {
      CommentHidesCommandExactly(statements[i]);
    }
  }

  lemma NothingToTrim(s: string)
    requires s != "" && !IsSpace(s[0]) && !IsSpace(s[|s| - 1])
    ensures TrimSpace(s) == s
  {
  }

  lemma IndexIs(s: string, part: string, i: nat)
    requires i < |s| && HasPrefix(s[i..], part) && forall j | 0 <= j < i :: !HasPrefix(s[j..], part)
    ensures Index(s, part) == i
  {
    hide Index, HasPrefix;
  }

  lemma EmptyCommentEnds(rest: string)
    ensures var s := "/**/" + rest; HasPrefix(s, "/*") && !HasPrefix(s, "--") && AfterComment(s) == Some(rest)
  {
    hide Index;
    var s := "/**/" + rest;
    assert s[..2] == "/*" && s[4..] == rest;
    assert s[0..][..2] == "/*" && s[1..][..2] == "**" && s[2..][..2] == "*/";
    IndexIs(s, "*/", 2);
  }

  lemma BehindEmptyComment(rest: string)
    requires StartsClean(rest) && rest != "" && !IsSpace(rest[|rest| - 1])
    ensures Stripped("/**/" + rest) == Some(rest)
    ensures TrimSpace("/**/" + rest) == "/**/" + rest && StartsWithComment("/**/" + rest)
  {
    hide TrimSpace, Index, HasPrefix, AfterComment;
    EmptyCommentEnds(rest);
    NothingToTrim("/**/" + rest);
    NothingToTrim(rest);
    assert Stripped(rest) == Some(rest);
  }

  /** Only the text as a whole is stripped: a statement behind a later comment is missed, and the text is taken for a
      SELECT. */
  lemma CommentedStatementIsMissed(upper: string -> string, cmd: Command)
    requires upper("SELECT 1;/**/DROP") == "SELECT 1;/**/DROP"
    requires IsHighest(Statements(Trimmed(upper, "SELECT 1;/**/DROP")), cmd)
    ensures Statements(Trimmed(upper, "SELECT 1;/**/DROP")) == ["SELECT 1", "/**/DROP"]
    ensures CommandBehindComments("/**/DROP") == Drop && cmd == Select
  {
    hide Stripped, StartsWithComment, TrimSpace, Statements, IsHighest;
    MissedText();
    assert "/**/" + "DROP" == "/**/DROP";
    assert StartsClean("DROP");
    BehindEmptyComment("DROP");
    CommentIsNoCommand("/**/DROP");
    NothingToTrim("SELECT 1");
    assert "SELECT 1"[..6] == "SELECT";
    SelectThenUnknown("SELECT 1", "/**/DROP", cmd);
  }

  lemma SelectThenUnknown(first: string, second: string, cmd: Command)
    requires CommandOf(first) == Select && CommandOf(second) == Unknown && IsHighest([first, second], cmd)
    ensures cmd == Select
  {
    hide CommandOf;
    assert CommandOf([first, second][0]) == Select && CommandOf([first, second][1]) == Unknown;
  }

  lemma MissedText()
    ensures Stripped("SELECT 1;/**/DROP") == Some("SELECT 1;/**/DROP")
    ensures Statements("SELECT 1;/**/DROP") == ["SELECT 1", "/**/DROP"]
  {
    hide TrimSpace, Uncut, After, Statements, Stripped, Join;
    PlainIsWhole("SELECT 1");
    PlainIsWhole("/**/DROP");
    JoinTwo("SELECT 1", "/**/DROP");
    assert "SELECT 1" + ";" + "/**/DROP" == "SELECT 1;/**/DROP";
    StatementsOfJoin(["SELECT 1", "/**/DROP"]);
    NothingToStrip("SELECT 1;/**/DROP");
  }

  lemma JoinTwo(a: string, b: string)
    ensures Join([a, b], ';') == a + ";" + b
  {
  }

  lemma NothingToStrip(s: string)
    requires s != "" && IsQuiet(s[0]) && !IsSpace(s[|s| - 1])
    ensures Stripped(s) == Some(s)
  {
    hide TrimSpace;
    NothingToTrim(s);
    assert |s| >= 2 ==> s[..2][0] == s[0];
  }

  /** A character that starts neither white space nor a comment. */
  predicate IsQuiet(c: char) {
    !IsSpace(c) && c != '-' && c != '/'
  }

  /** Text without quotes and semicolons. */
  predicate Plain(s: string) {
    forall i | 0 <= i < |s| :: s[i] != ';' && !IsQuote(s[i])
  }

  lemma {:induction false} PlainIsWhole(s: string)
    requires Plain(s)
    ensures Uncut(Outside, s) && After(Outside, s) == Outside
  {
    if s != "" {
      PlainIsWhole(s[1..]);
    }
  }

  // ---- quotes and semicolons in comments ----

  /** Where a scan that knows comments is: in code, behind a first `-` or `/` that may open a comment, in a literal, in
      a comment to the end of the line, or in a block comment, behind a `*` that may close it. */
  datatype Place = Code | Dash | Slash | Literal(quote: char) | Line | Block | Star

  predicate InCode(p: Place) {
    p.Code? || p.Dash? || p.Slash?
  }

  predicate InComment(p: Place) {
    p.Line? || p.Block? || p.Star?
  }

  function Move(p: Place, c: char): Place {
    match p
    case Literal(q) => if c == q then Code else p
    case Line => if c == '\n' then Code else Line
    case Block => if c == '*' then Star else Block
    case Star => if c == '/' then Code else if c == '*' then Star else Block
    case _ =>
      if p.Dash? && c == '-' then Line
      else if p.Slash? && c == '*' then Block
      else if IsQuote(c) then Literal(c)
      else if c == '-' then Dash
      else if c == '/' then Slash
      else Code
  }

  function PlaceAfter(p: Place, s: string): Place
    decreases s
  {
    if s == "" then p else PlaceAfter(Move(p, s[0]), s[1..])
  }

  // What opens and closes literals and comments.

  lemma {:induction false} PlaceConcat(p: Place, a: string, b: string)
    ensures PlaceAfter(p, a + b) == PlaceAfter(PlaceAfter(p, a), b)
    decreases a
  {
    if a == "" {
      assert a + b == b;
    } else {
      assert (a + b)[1..] == a[1..] + b;
      PlaceConcat(Move(p, a[0]), a[1..], b);
    }
  }

  /** Two dashes comment out the rest of the line. */
  lemma {:induction false} LineComments(text: string)
    requires Free(text, '\n')
    ensures PlaceAfter(Code, "--" + text) == Line && PlaceAfter(Code, "--" + text + "\n") == Code
  {
    StaysInLine(text);
    PlaceConcat(Code, "--", text);
    PlaceConcat(Code, "--" + text, "\n");
    assert "--"[1..] == "-";
  }

  lemma {:induction false} StaysInLine(text: string)
    requires Free(text, '\n')
    ensures PlaceAfter(Line, text) == Line
  {
    if text != "" {
      StaysInLine(text[1..]);
    }
  }

  /** A slash and a star comment out what follows up to the first star and slash. */
  lemma {:induction false} BlockComments(text: string)
    requires forall i | 0 <= i < |text| - 1 :: !(text[i] == '*' && text[i + 1] == '/')
    ensures PlaceAfter(Code, "/*" + text) in {Block, Star} && PlaceAfter(Code, "/*" + text + "*/") == Code
  {
    StaysInBlock(Block, text);
    PlaceConcat(Code, "/*", text);
    PlaceConcat(Code, "/*" + text, "*/");
    assert "/*"[1..] == "*" && "*/"[1..] == "/";
  }

  lemma {:induction false} StaysInBlock(p: Place, text: string)
    requires p in {Block, Star} && (p.Star? && text != "" ==> text[0] != '/')
    requires forall i | 0 <= i < |text| - 1 :: !(text[i] == '*' && text[i + 1] == '/')
    ensures PlaceAfter(p, text) in {Block, Star}
    decreases text
  {
    if text != "" {
      assert forall i | 0 <= i < |text| - 1 :: text[1..][i] == text[i + 1];
      StaysInBlock(Move(p, text[0]), text[1..]);
    }
  }

  /** A quote opens a literal up to the next one of its kind. */
  lemma {:induction false} Literals(q: char, text: string)
    requires q in {'\'', '"', '`'} && Free(text, q)
    ensures PlaceAfter(Code, [q] + text) == Literal(q) && PlaceAfter(Code, [q] + text + [q]) == Code
  {
    StaysInLiteral(q, text);
    assert [q][1..] == "";
    PlaceConcat(Code, [q], text);
    PlaceConcat(Code, [q] + text, [q]);
  }

  lemma {:induction false} StaysInLiteral(q: char, text: string)
    requires Free(text, q)
    ensures PlaceAfter(Literal(q), text) == Literal(q)
  {
    if text != "" {
      StaysInLiteral(q, text[1..]);
    }
  }

  /** Nothing else does: a single dash or slash makes no difference to what follows it. */
  lemma SingleMarks(c: char)
    ensures c != '-' ==> PlaceAfter(Code, "-" + [c]) == PlaceAfter(Code, [c])
    ensures c != '*' ==> PlaceAfter(Code, "/" + [c]) == PlaceAfter(Code, [c])
    ensures InCode(PlaceAfter(Code, [c])) <==> c !in {'\'', '"', '`'}
  {
    assert ("-" + [c])[1..] == [c] && ("/" + [c])[1..] == [c] && [c][1..] == "";
  }

  /** The pieces between the semicolons in code. */
  function CodePieces(cur: string, p: Place, s: string): seq<string>
    decreases s
  {
    if s == "" then if cur == "" then [] else [cur]
    else if InCode(p) && s[0] == ';' then [cur] + CodePieces("", Code, s[1..])
    else CodePieces(cur + [s[0]], Move(p, s[0]), s[1..])
  }

  /** No comment of `s` contains a quote or a semicolon. */
  predicate QuietComments(p: Place, s: string) {
    forall i | 0 <= i < |s| && InComment(PlaceAfter(p, s[..i])) :: s[i] != ';' && !IsQuote(s[i])
  }

  /** What the splitter takes the place for. */
  function Taken(p: Place): Scan {
    if p.Literal? then Inside(p.quote) else Outside
  }

  /** The splitter cuts where a scan that knows comments does, if no quote or semicolon stands in a comment. */
  lemma {:induction false} CommentsDoNotMatter(cur: string, p: Place, s: string)
    requires QuietComments(p, s)
    ensures Pieces(cur, Taken(p), s) == CodePieces(cur, p, s)
    decreases s
  {
    if s != "" {
      assert s[..0] == "";
      var next := if InCode(p) && s[0] == ';' then Code else Move(p, s[0]);
      assert next == Move(p, s[0]);
      forall i | 0 <= i < |s[1..]| && InComment(PlaceAfter(next, s[1..][..i]))
        ensures s[1..][i] != ';' && !IsQuote(s[1..][i])
      {
        assert s[..i + 1][1..] == s[1..][..i];
      }
      CommentsDoNotMatter(if InCode(p) && s[0] == ';' then "" else cur + [s[0]], next, s[1..]);
    }
  }

  /** With quotes in two comments, two statements are taken for one, which is a SELECT. */
  lemma QuotesInComments()
    ensures Statements("SELECT/*'*/;DROP/*'*/") == ["SELECT/*'*/;DROP/*'*/"]
    ensures CodePieces("", Code, "SELECT/*'*/;DROP/*'*/") == ["SELECT/*'*/", "DROP/*'*/"]
    ensures CommandOf("SELECT/*'*/;DROP/*'*/") == Select && !StartsWithComment("SELECT/*'*/;DROP/*'*/")
  {
    hide CodePieces, Statements, TrimSpace;
    var text := "SELECT/*'*/;DROP/*'*/";
    TakenForOne();
    TwoInCode();
    NothingToTrim(text);
    assert text[..6] == "SELECT" && text[..2] == "SE";
  }

  lemma TakenForOne()
    ensures Statements("SELECT/*'*/;DROP/*'*/") == ["SELECT/*'*/;DROP/*'*/"]
  {
    hide Uncut, After, Statements;
    var text := "SELECT/*'*/;DROP/*'*/";
    PlainIsWhole("SELECT/*");
    PlainIsWhole("*/");
    OneLiteral('\'', "*/;DROP/*");
    AfterConcat(Outside, "SELECT/*", "'*/;DROP/*'");
    AfterConcat(Outside, "SELECT/*" + "'*/;DROP/*'", "*/");
    assert "SELECT/*" + "'*/;DROP/*'" + "*/" == text;
    assert ['\''] + "*/;DROP/*" + ['\''] == "'*/;DROP/*'";
    assert Join([text], ';') == text;
    StatementsOfJoin([text]);
  }

  lemma OneLiteral(q: char, s: string)
    requires IsQuote(q) && Free(s, q)
    ensures Uncut(Outside, [q] + s + [q]) && After(Outside, [q] + s + [q]) == Outside
  {
    assert [q][1..] == "";
    StaysInside(q, s);
    AfterConcat(Outside, [q], s);
    AfterConcat(Outside, [q] + s, [q]);
  }

  lemma {:induction false} StaysInside(q: char, s: string)
    requires Free(s, q)
    ensures Uncut(Inside(q), s) && After(Inside(q), s) == Inside(q)
  {
    if s != "" {
      StaysInside(q, s[1..]);
    }
  }

  lemma TwoInCode()
    ensures CodePieces("", Code, "SELECT/*'*/;DROP/*'*/") == ["SELECT/*'*/", "DROP/*'*/"]
  {
    hide CodePieces;
    CodeThenQuoteInComment("SELECT", ";DROP/*'*/");
    CodeThenQuoteInComment("DROP", "");
    assert "SELECT" + "/*'*/" + ";DROP/*'*/" == "SELECT/*'*/;DROP/*'*/";
    assert "DROP" + "/*'*/" + "" == "DROP/*'*/";
    assert "SELECT" + "/*'*/" == "SELECT/*'*/" && "DROP" + "/*'*/" == "DROP/*'*/";
    assert ";" + "DROP/*'*/" == ";DROP/*'*/";
    CutHere("SELECT/*'*/", "DROP/*'*/");
    NothingMore("DROP/*'*/");
  }

  lemma CutHere(cur: string, rest: string)
    ensures CodePieces(cur, Code, ";" + rest) == [cur] + CodePieces("", Code, rest)
  {
    assert (";" + rest)[1..] == rest;
  }

  lemma NothingMore(cur: string)
    ensures CodePieces(cur, Code, "") == if cur == "" then [] else [cur]
  {
  }

  lemma CodeThenQuoteInComment(word: string, rest: string)
    requires forall i | 0 <= i < |word| :: 'A' <= word[i] <= 'Z'
    ensures CodePieces("", Code, word + "/*'*/" + rest) == CodePieces(word + "/*'*/", Code, rest)
  {
    hide CodePieces;
    var cur := word;
    WordIsCarried("", word, "/*'*/" + rest);
    assert word + "/*'*/" + rest == word + ("/*'*/" + rest) && "" + word == word;
    OneCarried(cur, Code, '/', "*'*/" + rest);
    OneCarried(cur + "/", Slash, '*', "'*/" + rest);
    OneCarried(cur + "/*", Block, '\'', "*/" + rest);
    OneCarried(cur + "/*'", Block, '*', "/" + rest);
    OneCarried(cur + "/*'*", Star, '/', rest);
    assert "/*'*/" + rest == ['/'] + ("*'*/" + rest) && "*'*/" + rest == ['*'] + ("'*/" + rest);
    assert "'*/" + rest == ['\''] + ("*/" + rest) && "*/" + rest == ['*'] + ("/" + rest);
    assert cur + ['/'] == cur + "/" && cur + "/" + ['*'] == cur + "/*" && cur + "/*" + ['\''] == cur + "/*'";
    assert cur + "/*'" + ['*'] == cur + "/*'*" && cur + "/*'*" + ['/'] == cur + "/*'*/";
  }

  lemma OneCarried(cur: string, p: Place, c: char, rest: string)
    requires c != ';'
    ensures CodePieces(cur, p, [c] + rest) == CodePieces(cur + [c], Move(p, c), rest)
  {
    assert ([c] + rest)[1..] == rest;
  }

  lemma {:induction false} WordIsCarried(cur: string, word: string, rest: string)
    requires forall i | 0 <= i < |word| :: 'A' <= word[i] <= 'Z'
    ensures CodePieces(cur, Code, word + rest) == CodePieces(cur + word, Code, rest)
    decreases word
  {
    if word == "" {
      assert word + rest == rest && cur + word == cur;
    } else {
      assert (word + rest)[1..] == word[1..] + rest && cur + [word[0]] + word[1..] == cur + word;
      WordIsCarried(cur + [word[0]], word[1..], rest);
    }
  }

  // ---- permissions ----

  const QUERY := "connections:query"
  const EXECUTE := "connections:execute"

  function CommandPermission(c: Command): Option<string> {
    match c
    case Unknown => None
    case Select => Some(QUERY)
    case _ => Some(EXECUTE)
  }

  /** Some statement starts with a word that changes data or tables. */
  predicate SomeChange(statements: seq<string>) {
    || SomeStarts(statements, "INSERT") || SomeStarts(statements, "UPDATE") || SomeStarts(statements, "DELETE")
    || SomeStarts(statements, "CREATE") || SomeStarts(statements, "DROP") || SomeStarts(statements, "ALTER")
    || SomeStarts(statements, "TRUNCATE")
  }

  method CheckCommand(upper: string -> string, sql: string, permissions: seq<string>)
    returns (cmd: Command, allowed: bool)
    ensures IsHighest(Statements(Trimmed(upper, sql)), cmd)
    ensures allowed <==> CommandPermission(cmd).Some? && CommandPermission(cmd).value in permissions
    ensures var statements := Statements(Trimmed(upper, sql));
      allowed <==>
        if SomeChange(statements) then "connections:execute" in permissions
        else SomeStarts(statements, "SELECT") && "connections:query" in permissions
  {
    hide Starts, SomeStarts, Trimmed, Statements, IsHighest;
    cmd := DetectCommand(upper, sql);
    FoundByWords(Statements(Trimmed(upper, sql)), cmd);
    var perm := CommandPermission(cmd);
    if perm.None? {
      return cmd, false;
    }
    for i := 0 to |permissions|
      invariant perm.value !in permissions[..i]
    {
      if permissions[i] == perm.value {
        return cmd, true;
      }
    }
    return cmd, false;
  }

  /** The command found for a text is the only one that can be found, and it is unknown exactly if no
      statement is recognised. */
  lemma {:induction false} HighestIsUnique(statements: seq<string>, a: Command, b: Command)
    requires IsHighest(statements, a) && IsHighest(statements, b)
    ensures a == b
    ensures a == Unknown <==> forall i | 0 <= i < |statements| :: CommandOf(statements[i]) == Unknown
  {
    hide CommandOf;
    if a != Unknown && b != Unknown {
      var i :| 0 <= i < |statements| && CommandOf(statements[i]) == a
        && forall j | 0 <= j < i :: RiskLevel(CommandOf(statements[j])) < RiskLevel(a);
      var k :| 0 <= k < |statements| && CommandOf(statements[k]) == b
        && forall j | 0 <= j < k :: RiskLevel(CommandOf(statements[j])) < RiskLevel(b);
      assert i == k;
    }
  }

  /** A caller who may query but not execute passes exactly with text of which some statement starts with SELECT and
      none with a word for a change. */
  lemma {:induction false} QueryOnlyCallerRunsSelects(statements: seq<string>, cmd: Command, permissions: seq<string>)
    requires IsHighest(statements, cmd) && QUERY in permissions && EXECUTE !in permissions
    ensures CommandPermission(cmd).Some? && CommandPermission(cmd).value in permissions <==>
      SomeStarts(statements, "SELECT") && !SomeChange(statements)
    ensures CommandPermission(cmd).Some? && CommandPermission(cmd).value in permissions <==>
      && (exists i :: 0 <= i < |statements| && CommandOf(statements[i]) == Select)
      && forall i | 0 <= i < |statements| :: CommandOf(statements[i]) in {Select, Unknown}
  {
    hide CommandOf, SomeStarts;
    FoundByWords(statements, cmd);
    HighestHas(statements, cmd);
    if cmd == Select {
      assert forall i | 0 <= i < |statements| :: RiskLevel(CommandOf(statements[i])) <= 1;
    }
  }
}
