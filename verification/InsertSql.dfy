/** INSERT statements as the transfer engine prints them, and a reader that undoes the printing. */
module InsertSql {
  import opened Text
  import Guard

  predicate IsNumeralChar(c: char) {
    IsDigit(c) || c in {'.', 'e', '+', '-'}
  }

  /** Text of the characters of decimal numerals that starts with a digit, or with a minus sign and one. */
  predicate IsNumeral(s: string) {
    && s != "" && (IsDigit(s[0]) || (s[0] == '-' && |s| > 1 && IsDigit(s[1])))
    && forall i | 0 <= i < |s| :: IsNumeralChar(s[i])
  }

  lemma NumeralForms()
    ensures IsNumeral("3.14") && IsNumeral("-7") && IsNumeral("1e+21") && IsNumeral("-2.5e-07")
    ensures !IsNumeral("NaN") && !IsNumeral("+Inf") && !IsNumeral("-Inf") && !IsNumeral("") && !IsNumeral("-")
    ensures !IsNumeral(".5") && !IsNumeral("1,5") && !IsNumeral("1)")
  {
    assert "NaN"[0] == 'N' && "+Inf"[0] == '+' && "-Inf"[1] == 'I' && ".5"[0] == '.';
    assert "1,5"[1] == ',' && "1)"[1] == ')';
  }

  /** The `%v` form of a floating-point number. */
  type FloatText = s: string | IsNumeral(s) || s in {"NaN", "+Inf", "-Inf"} witness "0"

  /** A value of a row. Floating-point numbers are known by their `%v` form, and so is `Other`, which stands for a
      value of any further type. */
  datatype Value = Null | Bool(b: bool) | Int(n: int) | Float(text: FloatText) | Str(s: string) | Other(shown: string)

  type Row = map<string, Value>

  // ---- printing ----

  function QuoteIdent(name: string): string {
    "\"" + name + "\""
  }

  /** strings.ReplaceAll of a quote by two of them. */
  function Doubled(q: char, s: string): string {
    if s == "" then "" else (if s[0] == q then [q, q] else [s[0]]) + Doubled(q, s[1..])
  }

  function Literal(s: string): string {
    "'" + Doubled('\'', s) + "'"
  }

  function EscapeValue(v: Value): string {
    match v
    case Null => "NULL"
    case Bool(b) => if b then "TRUE" else "FALSE"
    case Int(n) => PrintInt(n)
    case Float(text) => text
    case Str(s) => Literal(s)
    case Other(shown) => Literal(shown)
  }

  function JoinWith(sep: string, parts: seq<string>): string {
    if parts == [] then ""
    else if |parts| == 1 then parts[0]
    else parts[0] + sep + JoinWith(sep, parts[1..])
  }

  /** A column the row does not have is nil. */
  function Get(row: Row, column: string): Value {
    if column in row then row[column] else Null
  }

  function Cells(columns: seq<string>, row: Row): seq<string> {
    seq(|columns|, i requires 0 <= i < |columns| => EscapeValue(Get(row, columns[i])))
  }

  function TupleText(columns: seq<string>, row: Row): string {
    "(" + JoinWith(",", Cells(columns, row)) + ")"
  }

  function QuotedColumns(columns: seq<string>): seq<string> {
    seq(|columns|, i requires 0 <= i < |columns| => QuoteIdent(columns[i]))
  }

  function TupleTexts(columns: seq<string>, rows: seq<Row>): seq<string> {
    seq(|rows|, i requires 0 <= i < |rows| => TupleText(columns, rows[i]))
  }

  function Ending(postgres: bool): string {
    if postgres then "\nON CONFLICT DO NOTHING" else ""
  }

  function InsertText(table: string, columns: seq<string>, rows: seq<Row>, postgres: bool): string {
    "INSERT INTO " + QuoteIdent(table) + " (" + JoinWith(",", QuotedColumns(columns)) + ") VALUES\n"
    + JoinWith(",\n", TupleTexts(columns, rows)) + Ending(postgres) + ";"
  }

  // ---- the order of the columns ----

  /** The byte order of sort.Strings. */
  predicate Below(a: string, b: string) {
    b != "" && (a == "" || a[0] < b[0] || (a[0] == b[0] && Below(a[1..], b[1..])))
  }

  lemma {:induction false} BelowTotal(a: string, b: string)
    ensures a == b || Below(a, b) || Below(b, a)
    ensures !(Below(a, b) && Below(b, a)) && !Below(a, a)
  {
    if a != "" && b != "" {
      BelowTotal(a[1..], b[1..]);
      assert a == [a[0]] + a[1..] && b == [b[0]] + b[1..];
    }
    if a != "" {
      BelowTotal(a[1..], a[1..]);
    }
  }

  lemma {:induction false} BelowTransitive(a: string, b: string, c: string)
    requires Below(a, b) && Below(b, c)
    ensures Below(a, c)
  {
    if a != "" && a[0] == b[0] == c[0] {
      BelowTransitive(a[1..], b[1..], c[1..]);
    }
  }

  predicate Ascending(xs: seq<string>) {
    forall i, j | 0 <= i < j < |xs| :: Below(xs[i], xs[j])
  }

  /** `xs` lists exactly the members of a set, in ascending order. */
  ghost predicate Enumerates(xs: seq<string>, members: set<string>) {
    Ascending(xs) && forall x :: x in xs <==> x in members
  }

  /** Puts one more name in its place. */
  method InsertSorted(xs: seq<string>, x: string) returns (ys: seq<string>)
    requires Ascending(xs) && x !in xs
    ensures Ascending(ys) && forall y :: y in ys <==> y in xs || y == x
  {
    var i := 0;
    while i < |xs| && Below(xs[i], x)
      invariant 0 <= i <= |xs| && forall j | 0 <= j < i :: Below(xs[j], x)
    {
      i := i + 1;
    }
    ys := xs[..i] + [x] + xs[i..];
    if i < |xs| {
      BelowTotal(xs[i], x);
    }
    forall j | i <= j < |xs| ensures Below(x, xs[j]) {
      if i < j {
        BelowTransitive(x, xs[i], xs[j]);
      }
    }
    assert xs == xs[..i] + xs[i..];
  }

  /** The column names of the first row, sorted, whatever order the map gives them in. */
  method ColumnNames(row: Row) returns (columns: seq<string>)
    ensures Enumerates(columns, row.Keys)
  {
    columns := [];
    var rest := row.Keys;
    while rest != {}
      invariant rest <= row.Keys && Enumerates(columns, row.Keys - rest)
      decreases rest
    {
      var k :| k in rest;
      columns := InsertSorted(columns, k);
      rest := rest - {k};
    }
  }

  method GenerateInsertSQL(table: string, rows: seq<Row>, postgres: bool)
    returns (sql: string, ghost columns: seq<string>)
    ensures rows == [] ==> sql == ""
    ensures rows != [] ==>
      Enumerates(columns, rows[0].Keys) && sql == InsertText(table, columns, rows, postgres)
  {
    if |rows| == 0 {
      return "", [];
    }
    var colNames := ColumnNames(rows[0]);
    columns := colNames;
    var quotedCols: seq<string> := [];
    for i := 0 to |colNames|
      invariant quotedCols == QuotedColumns(colNames)[..i]
    {
      quotedCols := quotedCols + [QuoteIdent(colNames[i])];
    }
    var values: seq<string> := [];
    for n := 0 to |rows|
      invariant values == TupleTexts(colNames, rows)[..n]
    {
      var vals: seq<string> := [];
      for i := 0 to |colNames|
        invariant vals == Cells(colNames, rows[n])[..i]
      {
        vals := vals + [EscapeValue(Get(rows[n], colNames[i]))];
      }
      assert vals == Cells(colNames, rows[n]);
      values := values + ["(" + JoinWith(",", vals) + ")"];
    }
    assert quotedCols == QuotedColumns(colNames) && values == TupleTexts(colNames, rows);
    sql := "INSERT INTO " + QuoteIdent(table) + " (" + JoinWith(",", quotedCols) + ") VALUES\n"
      + JoinWith(",\n", values) + (if postgres then "\nON CONFLICT DO NOTHING;" else ";");
    if postgres {
      assert "\nON CONFLICT DO NOTHING" + ";" == "\nON CONFLICT DO NOTHING;";
    }
  }

  // ---- reading ----

  /** What has been read, and the text behind it. */
  datatype Read<+T> = Fail | Got(value: T, rest: string)

  function Expect(s: string, prefix: string): (r: Read<()>)
    ensures r.Got? ==> |r.rest| == |s| - |prefix|
  {
    if HasPrefix(s, prefix) then Got((), s[|prefix|..]) else Fail
  }

  /** The inside of a quoted token, two quotes standing for one, up to and with the closing quote. */
  function ReadQuoted(q: char, s: string): (r: Read<string>)
    ensures r.Got? ==> |r.rest| < |s|
  {
    if s == "" then Fail
    else if s[0] == q then
      if |s| > 1 && s[1] == q then
        match ReadQuoted(q, s[2..])
        case Fail => Fail
        case Got(x, rest) => Got([q] + x, rest)
      else Got("", s[1..])
    else
      match ReadQuoted(q, s[1..])
      case Fail => Fail
      case Got(x, rest) => Got([s[0]] + x, rest)
  }

  function ReadIdent(s: string): (r: Read<string>)
    ensures r.Got? ==> |r.rest| < |s|
  {
    if s != "" && s[0] == '"' then ReadQuoted('"', s[1..]) else Fail
  }

  function ReadValue(s: string): (r: Read<Value>)
    ensures r.Got? ==> |r.rest| < |s|
  {
    if HasPrefix(s, "NULL") then Got(Null, s[4..])
    else if HasPrefix(s, "TRUE") then Got(Bool(true), s[4..])
    else if HasPrefix(s, "FALSE") then Got(Bool(false), s[5..])
    else if s != "" && s[0] == '\'' then
      match ReadQuoted('\'', s[1..])
      case Fail => Fail
      case Got(x, rest) => Got(Str(x), rest)
    else ReadNumber(s)
  }

  /** Length of the longest run of numeral characters at the front. */
  function NumeralRun(s: string): (n: nat)
    ensures n <= |s|
  {
    if s != "" && IsNumeralChar(s[0]) then 1 + NumeralRun(s[1..]) else 0
  }

  /** What a numeral means: an integer if it has only digits behind its sign. */
  function NumberOf(text: string): Value
    requires IsNumeral(text)
  {
    var digits := if text[0] == '-' then text[1..] else text;
    if AllDigits(digits) then Int(if text[0] == '-' then -(Text.Value(digits) as int) else Text.Value(digits))
    else Float(text)
  }

  function ReadNumber(s: string): (r: Read<Value>)
    ensures r.Got? ==> |r.rest| < |s|
  {
    var n := NumeralRun(s);
    if IsNumeral(s[..n]) then Got(NumberOf(s[..n]), s[n..]) else Fail
  }

  /** Comma-separated items up to and with the closing parenthesis. */
  function ReadItems<T>(item: string -> Read<T>, s: string): (r: Read<seq<T>>)
    ensures r.Got? ==> |r.rest| < |s|
    decreases |s|
  {
    match item(s)
    case Fail => Fail
    case Got(x, rest) =>
      if |rest| >= |s| || rest == "" then Fail
      else if rest[0] == ')' then Got([x], rest[1..])
      else if rest[0] == ',' then
        match ReadItems(item, rest[1..])
        case Fail => Fail
        case Got(xs, end) => Got([x] + xs, end)
      else Fail
  }

  /** A parenthesised list, behind its opening parenthesis. */
  function ReadList<T>(item: string -> Read<T>, s: string): (r: Read<seq<T>>)
    ensures r.Got? ==> |r.rest| < |s|
  {
    if s != "" && s[0] == ')' then Got([], s[1..]) else ReadItems(item, s)
  }

  function ReadTuples(s: string): (r: Read<seq<seq<Value>>>)
    ensures r.Got? ==> |r.rest| < |s|
    decreases |s|
  {
    if s == "" || s[0] != '(' then Fail
    else
      match ReadList(ReadValue, s[1..])
      case Fail => Fail
      case Got(t, rest) =>
        if HasPrefix(rest, ",\n") then
          match ReadTuples(rest[2..])
          case Fail => Fail
          case Got(ts, end) => Got([t] + ts, end)
        else Got([t], rest)
  }

  datatype Insert = Insert(table: string, columns: seq<string>, tuples: seq<seq<Value>>, ignoreConflicts: bool)

  /** Reads one INSERT statement. */
  function ReadInsert(s: string): Option<Insert> {
    match Expect(s, "INSERT INTO ")
    case Fail => None
    case Got(_, s1) =>
    match ReadIdent(s1)
    case Fail => None
    case Got(table, s2) =>
    match Expect(s2, " (")
    case Fail => None
    case Got(_, s3) =>
    match ReadList(ReadIdent, s3)
    case Fail => None
    case Got(columns, s4) =>
    match Expect(s4, " VALUES\n")
    case Fail => None
    case Got(_, s5) =>
    match ReadTuples(s5)
    case Fail => None
    case Got(tuples, s6) =>
      if s6 == ";" then Some(Insert(table, columns, tuples, false))
      else if s6 == "\nON CONFLICT DO NOTHING;" then Some(Insert(table, columns, tuples, true))
      else None
  }

  // ---- reading undoes printing ----

  /** Quoting with doubled quotes is undone by reading, whatever the text. */
  lemma {:induction false} ReadQuotedBack(q: char, x: string, rest: string)
    requires rest == "" || rest[0] != q
    ensures ReadQuoted(q, Doubled(q, x) + [q] + rest) == Got(x, rest)
  {
    var s := Doubled(q, x) + [q] + rest;
    if x == "" {
      assert s[1..] == rest;
    } else {
      ReadQuotedBack(q, x[1..], rest);
      var tail := Doubled(q, x[1..]) + [q] + rest;
      assert [x[0]] + x[1..] == x;
      if x[0] == q {
        assert s == [q, q] + tail;
        assert s[2..] == tail;
      } else {
        assert s == [x[0]] + tail;
        assert s[1..] == tail;
      }
    }
  }

  lemma {:induction false} DoubledPlain(q: char, x: string)
    requires Free(x, q)
    ensures Doubled(q, x) == x
  {
    if x != "" {
      DoubledPlain(q, x[1..]);
      assert [x[0]] + x[1..] == x;
    }
  }

  /** If a name with leading extra quotes is its own doubled form as far as text `b` goes, it has no quotes. */
  lemma {:induction false} OwnDoubleIsPlain(q: char, extra: nat, x: string, a: string, b: string)
    requires seq(extra, _ => q) + Doubled(q, x) + [q] + a == x + [q] + b
    requires b == "" || b[0] != q
    ensures extra == 0 && Free(x, q)
    decreases x
  {
    var quotes := seq(extra, _ => q);
    var left, right := quotes + Doubled(q, x) + [q] + a, x + [q] + b;
    if x == "" {
      assert right[1..] == b && left[1..] == right[1..];
    } else {
      var y := x[1..];
      assert right[1..] == y + [q] + b;
      if x[0] == q {
        var more := seq(extra + 1, _ => q);
        assert left[1..] == more + Doubled(q, y) + [q] + a;
        OwnDoubleIsPlain(q, extra + 1, y, a, b);
      } else {
        assert left[0] == right[0];
        assert left[1..] == quotes + Doubled(q, y) + [q] + a;
        OwnDoubleIsPlain(q, 0, y, a, b);
      }
    }
  }

  lemma DoubledFirst(q: char, c: char, x: string)
    ensures Doubled(q, [c] + x) == (if c == q then [q, q] else [c]) + Doubled(q, x)
  {
    assert ([c] + x)[1..] == x;
  }

  /** Whatever is read was printed as its doubled form. */
  lemma {:induction false} ReadIsDoubled(q: char, s: string)
    ensures var r := ReadQuoted(q, s); r.Got? ==> s == Doubled(q, r.value) + [q] + r.rest
  {
    hide Doubled;
    if s == "" {
      assert ReadQuoted(q, s).Fail?;
    } else if s[0] != q {
      ReadIsDoubled(q, s[1..]);
      assert s == [s[0]] + s[1..];
      if ReadQuoted(q, s).Got? {
        DoubledFirst(q, s[0], ReadQuoted(q, s[1..]).value);
      }
    } else if |s| > 1 && s[1] == q {
      ReadIsDoubled(q, s[2..]);
      assert s == [q, q] + s[2..];
      if ReadQuoted(q, s).Got? {
        DoubledFirst(q, q, ReadQuoted(q, s[2..]).value);
      }
    } else {
      EmptyDoubled(q);
      assert s == [q] + s[1..];
    }
  }

  lemma EmptyDoubled(q: char)
    ensures Doubled(q, "") == ""
  {
  }

  /** A quoted identifier reads back as itself exactly if it contains no quote. */
  lemma IdentReadsBackExactly(name: string, rest: string)
    requires rest == "" || rest[0] != '"'
    ensures ReadIdent(QuoteIdent(name) + rest) == Got(name, rest) <==> Free(name, '"')
  {
    var s := QuoteIdent(name) + rest;
    assert s[1..] == name + ['"'] + rest;
    if Free(name, '"') {
      DoubledPlain('"', name);
      ReadQuotedBack('"', name, rest);
    } else if ReadQuoted('"', s[1..]) == Got(name, rest) {
      ReadIsDoubled('"', s[1..]);
      assert seq(0, _ => '"') + Doubled('"', name) == Doubled('"', name);
      OwnDoubleIsPlain('"', 0, name, rest, rest);
    }
  }

  // ---- targets that read backslashes ----

  /** What a backslash and the character behind it stand for in MySQL; most stand for the character itself. */
  function Escaped(c: char): (x: string)
    ensures x != "" && (x[0] == '\\' <==> c in {'\\', '%', '_'})
  {
    match c
    case '0' => "\0"
    case 'b' => "\U{0008}"
    case 'n' => "\n"
    case 'r' => "\r"
    case 't' => "\t"
    case 'Z' => "\U{001A}"
    case '%' => "\\%"
    case '_' => "\\_"
    case _ => [c]
  }

  /** The inside of a literal as such a target reads it. */
  function ReadEscaped(q: char, s: string): (r: Read<string>)
    ensures r.Got? ==> |r.rest| < |s|
  {
    if s == "" then Fail
    else if s[0] == '\\' then
      if |s| == 1 then Fail
      else
        match ReadEscaped(q, s[2..])
        case Fail => Fail
        case Got(x, rest) => Got(Escaped(s[1]) + x, rest)
    else if s[0] == q then
      if |s| > 1 && s[1] == q then
        match ReadEscaped(q, s[2..])
        case Fail => Fail
        case Got(x, rest) => Got([q] + x, rest)
      else Got("", s[1..])
    else
      match ReadEscaped(q, s[1..])
      case Fail => Fail
      case Got(x, rest) => Got([s[0]] + x, rest)
  }

  /** Every backslash stands before a `%` or an `_`, where it is kept. */
  predicate Tame(x: string) {
    forall i | 0 <= i < |x| && x[i] == '\\' :: i + 1 < |x| && x[i + 1] in {'%', '_'}
  }

  /** What is read of a printed string with `rest` behind it. */
  function Reading(x: string, rest: string): Read<string> {
    ReadEscaped('\'', Doubled('\'', x) + "'" + rest)
  }

  lemma ReadingNothing(rest: string)
    requires rest == "" || rest[0] != '\''
    ensures Reading("", rest) == Got("", rest)
  {
    assert Doubled('\'', "") + "'" + rest == "'" + rest && ("'" + rest)[1..] == rest;
  }

  /** How many characters of `x` are read at once. */
  function ReadTogether(x: string): (n: nat)
    requires x != "" && (x[0] == '\\' ==> |x| > 1)
    ensures 0 < n <= |x|
  {
    if x[0] == '\\' then 2 else 1
  }

  /** The first character, or the first two at a backslash, are read, and then the rest. */
  lemma ReadsOn(x: string, rest: string)
    requires x != "" && (x[0] == '\\' ==> |x| > 1 && x[1] != '\'')
    ensures Reading(x, rest) ==
      match Reading(x[ReadTogether(x)..], rest)
      case Fail => Fail
      case Got(y, more) => Got((if x[0] == '\\' then Escaped(x[1]) else [x[0]]) + y, more)
  {
    var s := Doubled('\'', x) + "'" + rest;
    if x[0] == '\\' {
      var tail := Doubled('\'', x[2..]) + "'" + rest;
      assert x[1..][1..] == x[2..];
      assert Doubled('\'', x) == ['\\'] + Doubled('\'', x[1..]);
      assert Doubled('\'', x[1..]) == [x[1]] + Doubled('\'', x[2..]);
      assert s == ['\\', x[1]] + tail && s[2..] == tail;
    } else {
      var tail := Doubled('\'', x[1..]) + "'" + rest;
      if x[0] == '\'' {
        assert s == ['\'', '\''] + tail && s[2..] == tail;
      } else {
        assert s == [x[0]] + tail && s[1..] == tail;
      }
    }
  }

  lemma SlashBeforeQuote(x: string, rest: string)
    requires x != "" && x[0] == '\\' && (|x| == 1 || x[1] == '\'')
    ensures Reading(x, rest).Got? ==> Reading(x, rest).value != "" && Reading(x, rest).value[0] == '\''
  {
    var s := Doubled('\'', x) + "'" + rest;
    assert Doubled('\'', x) == ['\\'] + Doubled('\'', x[1..]);
    assert s[0] == '\\' && s[1] == '\'';
  }

  lemma TameFirst(x: string)
    requires x != "" && (x[0] == '\\' ==> |x| > 1)
    ensures Tame(x) <==> (x[0] == '\\' ==> x[1] in {'%', '_'}) && Tame(x[ReadTogether(x)..])
  {
    var n := ReadTogether(x);
    if Tame(x) {
      assert forall i | 0 <= i < |x| - n :: x[n..][i] == x[i + n];
    }
    if (x[0] == '\\' ==> x[1] in {'%', '_'}) && Tame(x[n..]) {
      assert forall i | n <= i < |x| :: x[i] == x[n..][i - n];
    }
  }

  lemma {:induction false} TameReadsBack(x: string, rest: string)
    requires Tame(x) && (rest == "" || rest[0] != '\'')
    ensures Reading(x, rest) == Got(x, rest)
    decreases |x|
  {
    hide Reading;
    if x == "" {
      ReadingNothing(rest);
    } else {
      TameFirst(x);
      TameReadsBack(x[ReadTogether(x)..], rest);
      ReadsOn(x, rest);
      assert x == x[..ReadTogether(x)] + x[ReadTogether(x)..];
      if x[0] == '\\' {
        assert Escaped(x[1]) == ['\\', x[1]] == x[..2];
      } else {
        assert [x[0]] == x[..1];
      }
    }
  }

  function Slashes(n: nat): string {
    seq(n, _ => '\\')
  }

  lemma PlainFirst(extra: nat, x: string, y: string)
    requires x != "" && x[0] != '\\' && [x[0]] + y == Slashes(extra) + x
    ensures extra == 0 && y == Slashes(0) + x[1..]
  {
    assert ([x[0]] + y)[0] == x[0];
    assert y == ([x[0]] + y)[1..];
  }

  lemma SlashesFirst(extra: nat, x: string, y: string)
    requires |x| > 1 && x[0] == x[1] == '\\' && ['\\'] + y == Slashes(extra) + x
    ensures y == Slashes(extra + 1) + x[2..]
  {
    assert y == (['\\'] + y)[1..];
    assert Slashes(extra) + x == ['\\'] + (Slashes(extra + 1) + x[2..]);
  }

  lemma WildcardFirst(extra: nat, x: string, y: string)
    requires |x| > 1 && x[0] == '\\' && x[1] in {'%', '_'} && ['\\', x[1]] + y == Slashes(extra) + x
    ensures extra == 0 && y == Slashes(0) + x[2..]
  {
    assert (['\\', x[1]] + y)[1] == x[1];
    assert y == (['\\', x[1]] + y)[2..];
  }

  /** Text that reads back as itself behind extra backslashes has no extra ones, and is tame. */
  lemma {:induction false} OwnReadingIsTame(extra: nat, x: string, rest: string)
    requires rest == "" || rest[0] != '\''
    requires Reading(x, rest).Got? && Reading(x, rest).value == Slashes(extra) + x
    ensures extra == 0 && Tame(x)
    decreases |x|
  {
    hide Reading, Slashes, Tame;
    if x == "" {
      ReadingNothing(rest);
      NoSlashes(extra);
    } else if x[0] == '\\' && (|x| == 1 || x[1] == '\'') {
      SlashBeforeQuote(x, rest);
      FirstSlash(extra, x);
      assert false;
    } else {
      ReadsOn(x, rest);
      TameFirst(x);
      var shorter := x[ReadTogether(x)..];
      var y := Reading(shorter, rest).value;
      if x[0] != '\\' {
        PlainFirst(extra, x, y);
        OwnReadingIsTame(0, shorter, rest);
      } else {
        FirstSlash(extra, x);
        assert (Escaped(x[1]) + y)[0] == '\\';
        if x[1] == '\\' {
          SlashesFirst(extra, x, y);
          OwnReadingIsTame(extra + 1, shorter, rest);
        } else {
          WildcardFirst(extra, x, y);
          OwnReadingIsTame(0, shorter, rest);
        }
      }
    }
  }

  lemma NoSlashes(extra: nat)
    ensures Slashes(extra) + "" == "" ==> extra == 0
    ensures Tame("")
  {
    assert |Slashes(extra) + ""| == extra;
  }

  lemma FirstSlash(extra: nat, x: string)
    requires x != "" && x[0] == '\\'
    ensures (Slashes(extra) + x)[0] == '\\'
  {
  }

  /** To a target that reads backslashes, a string is printed so that it reads back exactly if it is tame. */
  lemma BackslashReadsBackExactly(x: string, rest: string)
    requires rest == "" || rest[0] != '\''
    ensures
      var r := ReadEscaped('\'', (Literal(x) + rest)[1..]);
      (r == Got(x, rest) <==> Tame(x)) && (r.Got? && r.value == x ==> Tame(x))
  {
    assert (Literal(x) + rest)[1..] == Doubled('\'', x) + "'" + rest;
    hide Doubled, ReadEscaped, Tame;
    if Tame(x) {
      TameReadsBack(x, rest);
    }
    if Reading(x, rest).Got? && Reading(x, rest).value == x {
      assert Slashes(0) + x == x;
      OwnReadingIsTame(0, x, rest);
    }
  }

  // ---- rows and statements ----

  /** Whether the text of a value can be read at all: the printed forms of no number and of infinity cannot. */
  predicate Legible(v: Value) {
    v.Float? ==> IsNumeral(v.text)
  }

  /** What a value is once it has been printed and read. */
  function Shown(v: Value): Value {
    match v
    case Other(shown) => Str(shown)
    case Float(text) => if IsNumeral(text) then NumberOf(text) else v
    case _ => v
  }

  predicate Separator(c: char) {
    c == ',' || c == ')'
  }

  lemma LiteralReadsBack(x: string, rest: string)
    requires rest != "" && Separator(rest[0])
    ensures ReadValue(Literal(x) + rest) == Got(Str(x), rest)
  {
    hide Doubled, ReadQuoted, ReadNumber;
    var s := Literal(x) + rest;
    ReadQuotedBack('\'', x, rest);
    assert s[0] == '\'' && s[1..] == Doubled('\'', x) + ['\''] + rest;
  }

  /** A legible value reads back as what it shows, and an illegible one does not read at all. */
  lemma ValueReadsBack(v: Value, rest: string)
    requires rest != "" && Separator(rest[0])
    ensures ReadValue(EscapeValue(v) + rest) == if Legible(v) then Got(Shown(v), rest) else Fail
  {
    hide ReadQuoted, ReadNumber, Literal, PrintInt, IsNumeral, NumberOf;
    match v
    case Null => assert ("NULL" + rest)[..4] == "NULL" && ("NULL" + rest)[4..] == rest;
    case Bool(b) =>
      if b {
        assert ("TRUE" + rest)[..4] == "TRUE" && ("TRUE" + rest)[4..] == rest;
      } else {
        var s := "FALSE" + rest;
        assert s[0] == 'F' && s[..5] == "FALSE" && s[5..] == rest;
      }
    case Int(n) =>
      NumeralOfInt(n);
      NumeralReadsBack(PrintInt(n), rest);
    case Float(text) =>
      if IsNumeral(text) {
        NumeralReadsBack(text, rest);
      } else {
        NotANumeral(text, rest);
      }
    case Str(x) => LiteralReadsBack(x, rest);
    case Other(x) => LiteralReadsBack(x, rest);
  }

  lemma {:induction false} NumeralRunStops(text: string, rest: string)
    requires (forall i | 0 <= i < |text| :: IsNumeralChar(text[i])) && rest != "" && !IsNumeralChar(rest[0])
    ensures NumeralRun(text + rest) == |text|
  {
    if text == "" {
      assert text + rest == rest;
    } else {
      assert (text + rest)[1..] == text[1..] + rest;
      NumeralRunStops(text[1..], rest);
    }
  }

  lemma NumeralReadsBack(text: string, rest: string)
    requires IsNumeral(text) && rest != "" && Separator(rest[0])
    ensures ReadValue(text + rest) == Got(NumberOf(text), rest)
  {
    hide NumeralRun, NumberOf;
    NumeralRunStops(text, rest);
    var s := text + rest;
    assert s[..|text|] == text && s[|text|..] == rest && s[0] == text[0];
    ReadsNumber(s);
  }

  lemma ReadsNumber(s: string)
    requires s != "" && s[0] !in {'N', 'T', 'F', '\''}
    ensures ReadValue(s) == ReadNumber(s)
  {
    hide ReadNumber, ReadQuoted;
  }

  lemma NumeralOfInt(n: int)
    ensures IsNumeral(PrintInt(n)) && NumberOf(PrintInt(n)) == Int(n)
  {
    hide Print, Text.Value;
    var text := PrintInt(n);
    ValuePrint(if n < 0 then -n else n);
    if n < 0 {
      assert text[0] == '-' && text[1..] == Print(-n);
      assert forall i | 1 <= i < |text| :: text[i] == text[1..][i - 1];
    } else {
      assert text == Print(n) && IsDigit(text[0]);
    }
  }

  lemma NotANumeral(text: FloatText, rest: string)
    requires !IsNumeral(text) && rest != "" && Separator(rest[0])
    ensures ReadValue(text + rest) == Fail
  {
    var s := text + rest;
    assert s[0] == text[0] && s[1] == text[1];
    if text == "NaN" {
      assert s[..4][1] == 'a';
    } else {
      ReadsNumber(s);
      assert s[1..][0] == 'I';
      assert NumeralRun(s) == 1 && s[..1] == [text[0]];
    }
  }

  predicate LegibleCells(columns: seq<string>, row: Row) {
    forall i | 0 <= i < |columns| :: Legible(Get(row, columns[i]))
  }

  predicate LegibleRows(columns: seq<string>, rows: seq<Row>) {
    forall i | 0 <= i < |rows| :: LegibleCells(columns, rows[i])
  }

  /** The tuple a row is printed as. */
  function TupleOf(columns: seq<string>, row: Row): seq<Value> {
    seq(|columns|, i requires 0 <= i < |columns| => Shown(Get(row, columns[i])))
  }

  lemma TupleFirst(columns: seq<string>, row: Row)
    requires columns != []
    ensures TupleOf(columns, row) == [Shown(Get(row, columns[0]))] + TupleOf(columns[1..], row)
    ensures Cells(columns, row) == [EscapeValue(Get(row, columns[0]))] + Cells(columns[1..], row)
    ensures QuotedColumns(columns) == [QuoteIdent(columns[0])] + QuotedColumns(columns[1..])
  {
  }

  lemma {:induction false} ItemsReadBack(columns: seq<string>, row: Row, rest: string)
    requires columns != []
    ensures ReadItems(ReadValue, JoinWith(",", Cells(columns, row)) + ")" + rest)
      == if LegibleCells(columns, row) then Got(TupleOf(columns, row), rest) else Fail
  {
    hide ReadValue, EscapeValue, Shown, TupleOf, Cells, Get, Legible;
    TupleFirst(columns, row);
    var v, others := Get(row, columns[0]), columns[1..];
    assert LegibleCells(columns, row) <==> Legible(v) && LegibleCells(others, row) by {
      LegibleFirst(columns, row);
    }
    var text := JoinWith(",", Cells(columns, row)) + ")" + rest;
    if others == [] {
      NoCells(row);
      assert Cells(columns, row) == [EscapeValue(v)] && TupleOf(columns, row) == [Shown(v)];
      ValueReadsBack(v, ")" + rest);
      assert text == EscapeValue(v) + (")" + rest);
      assert (")" + rest)[1..] == rest;
    } else {
      CellCount(others, row);
      var tail := JoinWith(",", Cells(others, row)) + ")" + rest;
      assert text == EscapeValue(v) + ("," + tail);
      ValueReadsBack(v, "," + tail);
      assert ("," + tail)[1..] == tail;
      ItemsReadBack(others, row, rest);
    }
  }

  lemma LegibleFirst(columns: seq<string>, row: Row)
    requires columns != []
    ensures LegibleCells(columns, row) <==> Legible(Get(row, columns[0])) && LegibleCells(columns[1..], row)
  {
    hide Legible, Get;
    if Legible(Get(row, columns[0])) && LegibleCells(columns[1..], row) {
      forall i | 0 <= i < |columns| ensures Legible(Get(row, columns[i])) {
        if i > 0 {
          assert columns[i] == columns[1..][i - 1];
        }
      }
    }
    if LegibleCells(columns, row) {
      forall i | 0 <= i < |columns[1..]| ensures Legible(Get(row, columns[1..][i])) {
        assert columns[1..][i] == columns[i + 1];
      }
    }
  }

  lemma NoCells(row: Row)
    ensures Cells([], row) == [] && TupleOf([], row) == [] && QuotedColumns([]) == []
  {
  }

  lemma CellCount(columns: seq<string>, row: Row)
    ensures |Cells(columns, row)| == |columns| == |QuotedColumns(columns)|
  {
  }

  predicate QuoteFree(names: seq<string>) {
    forall i | 0 <= i < |names| :: Free(names[i], '"')
  }

  lemma {:induction false} IdentsReadBack(columns: seq<string>, rest: string)
    requires columns != [] && QuoteFree(columns)
    ensures ReadItems(ReadIdent, JoinWith(",", QuotedColumns(columns)) + ")" + rest) == Got(columns, rest)
  {
    hide ReadIdent, QuoteIdent, QuotedColumns;
    TupleFirst(columns, map[]);
    var name, others := columns[0], columns[1..];
    var text := JoinWith(",", QuotedColumns(columns)) + ")" + rest;
    if others == [] {
      NoCells(map[]);
      assert QuotedColumns(columns) == [QuoteIdent(name)] && columns == [name];
      IdentReadsBackExactly(name, ")" + rest);
      assert text == QuoteIdent(name) + (")" + rest);
      assert (")" + rest)[1..] == rest;
    } else {
      CellCount(others, map[]);
      var tail := JoinWith(",", QuotedColumns(others)) + ")" + rest;
      assert text == QuoteIdent(name) + ("," + tail);
      IdentReadsBackExactly(name, "," + tail);
      assert ("," + tail)[1..] == tail;
      IdentsReadBack(others, rest);
      assert columns == [name] + others;
    }
  }

  /** No item starts with a closing parenthesis, so an empty list is told from others. */
  lemma ListsReadBack(columns: seq<string>, row: Row, rest: string)
    ensures ReadList(ReadValue, JoinWith(",", Cells(columns, row)) + ")" + rest)
      == if LegibleCells(columns, row) then Got(TupleOf(columns, row), rest) else Fail
    ensures QuoteFree(columns) ==>
      ReadList(ReadIdent, JoinWith(",", QuotedColumns(columns)) + ")" + rest) == Got(columns, rest)
  {
    hide ReadValue, ReadIdent, ReadItems, Cells, TupleOf, QuotedColumns, QuoteIdent, EscapeValue, Legible;
    var cells := JoinWith(",", Cells(columns, row)) + ")" + rest;
    var idents := JoinWith(",", QuotedColumns(columns)) + ")" + rest;
    if columns == [] {
      NoCells(row);
      assert cells == ")" + rest && idents == ")" + rest && (")" + rest)[1..] == rest;
    } else {
      TupleFirst(columns, row);
      ItemsReadBack(columns, row, rest);
      if QuoteFree(columns) {
        IdentsReadBack(columns, rest);
      }
      ItemStarts(Get(row, columns[0]), columns[0]);
      assert cells[0] == EscapeValue(Get(row, columns[0]))[0];
      assert idents[0] == QuoteIdent(columns[0])[0];
    }
  }

  lemma ItemStarts(v: Value, name: string)
    ensures EscapeValue(v) != "" && EscapeValue(v)[0] != ')'
    ensures QuoteIdent(name) != "" && QuoteIdent(name)[0] != ')'
  {
    hide Doubled, Print;
  }

  /** The tuples the rows are printed as. */
  function TuplesOf(columns: seq<string>, rows: seq<Row>): seq<seq<Value>> {
    seq(|rows|, i requires 0 <= i < |rows| => TupleOf(columns, rows[i]))
  }

  lemma RowFirst(columns: seq<string>, rows: seq<Row>)
    requires rows != []
    ensures TuplesOf(columns, rows) == [TupleOf(columns, rows[0])] + TuplesOf(columns, rows[1..])
    ensures TupleTexts(columns, rows) == [TupleText(columns, rows[0])] + TupleTexts(columns, rows[1..])
    ensures |TupleTexts(columns, rows)| == |rows|
    ensures TuplesOf(columns, []) == [] && TupleTexts(columns, []) == []
  {
    hide TupleOf, TupleText;
  }

  lemma {:induction false} TuplesReadBack(columns: seq<string>, rows: seq<Row>, rest: string)
    requires rows != [] && !HasPrefix(rest, ",\n")
    ensures ReadTuples(JoinWith(",\n", TupleTexts(columns, rows)) + rest)
      == if LegibleRows(columns, rows) then Got(TuplesOf(columns, rows), rest) else Fail
  {
    hide ReadList, TupleOf, TuplesOf, TupleTexts, Cells, LegibleCells;
    RowFirst(columns, rows);
    var row, others := rows[0], rows[1..];
    assert LegibleRows(columns, rows) <==> LegibleCells(columns, row) && LegibleRows(columns, others) by {
      LegibleFirstRow(columns, rows);
    }
    var text := JoinWith(",\n", TupleTexts(columns, rows)) + rest;
    if others == [] {
      assert TupleTexts(columns, rows) == [TupleText(columns, row)];
      assert TuplesOf(columns, rows) == [TupleOf(columns, row)];
      ListsReadBack(columns, row, rest);
      assert text[1..] == JoinWith(",", Cells(columns, row)) + ")" + rest;
    } else {
      RowFirst(columns, others);
      var tail := JoinWith(",\n", TupleTexts(columns, others)) + rest;
      assert text == TupleText(columns, row) + ",\n" + tail;
      ListsReadBack(columns, row, ",\n" + tail);
      assert text[1..] == JoinWith(",", Cells(columns, row)) + ")" + (",\n" + tail);
      assert (",\n" + tail)[..2] == ",\n" && (",\n" + tail)[2..] == tail;
      TuplesReadBack(columns, others, rest);
    }
  }

  lemma LegibleFirstRow(columns: seq<string>, rows: seq<Row>)
    requires rows != []
    ensures LegibleRows(columns, rows) <==> LegibleCells(columns, rows[0]) && LegibleRows(columns, rows[1..])
  {
    hide LegibleCells;
    if LegibleCells(columns, rows[0]) && LegibleRows(columns, rows[1..]) {
      forall i | 0 <= i < |rows| ensures LegibleCells(columns, rows[i]) {
        if i > 0 {
          assert rows[i] == rows[1..][i - 1];
        }
      }
    }
    if LegibleRows(columns, rows) {
      forall i | 0 <= i < |rows[1..]| ensures LegibleCells(columns, rows[1..][i]) {
        assert rows[1..][i] == rows[i + 1];
      }
    }
  }

  lemma ExpectPrefix(prefix: string, rest: string)
    ensures Expect(prefix + rest, prefix) == Got((), rest)
  {
    assert (prefix + rest)[..|prefix|] == prefix && (prefix + rest)[|prefix|..] == rest;
  }

  /** The text of a statement, cut where the reader cuts it. */
  lemma InsertTextParts(table: string, columns: seq<string>, rows: seq<Row>, postgres: bool)
    ensures InsertText(table, columns, rows, postgres) ==
      "INSERT INTO " + (QuoteIdent(table) + (" (" + (JoinWith(",", QuotedColumns(columns)) + ")" + (" VALUES\n"
      + (JoinWith(",\n", TupleTexts(columns, rows)) + (Ending(postgres) + ";"))))))
  {
    hide QuoteIdent, QuotedColumns, TupleTexts, JoinWith, Ending;
  }

  lemma EndingStarts(postgres: bool)
    ensures !HasPrefix(Ending(postgres) + ";", ",\n")
    ensures Ending(postgres) + ";" == if postgres then "\nON CONFLICT DO NOTHING;" else ";"
  {
    assert (Ending(postgres) + ";")[0] != ',';
  }

  /** Reading a printed statement gives back the table, the columns and every row, unless some value is illegible. */
  lemma {:induction false} InsertReadsBack(table: string, columns: seq<string>, rows: seq<Row>, postgres: bool)
    requires rows != [] && Free(table, '"') && QuoteFree(columns)
    ensures ReadInsert(InsertText(table, columns, rows, postgres))
      == if LegibleRows(columns, rows) then Some(Insert(table, columns, TuplesOf(columns, rows), postgres)) else None
  {
    hide Expect, ReadIdent, ReadList, ReadTuples, QuoteIdent, QuotedColumns, TupleTexts, JoinWith, TuplesOf;
    hide InsertText, Ending, HasPrefix, LegibleRows, LegibleCells;
    var s6 := Ending(postgres) + ";";
    var s5 := JoinWith(",\n", TupleTexts(columns, rows)) + s6;
    var s4 := " VALUES\n" + s5;
    var s3 := JoinWith(",", QuotedColumns(columns)) + ")" + s4;
    var s2 := " (" + s3;
    var s1 := QuoteIdent(table) + s2;
    InsertTextParts(table, columns, rows, postgres);
    ExpectPrefix("INSERT INTO ", s1);
    IdentReadsBackExactly(table, s2);
    ExpectPrefix(" (", s3);
    ListsReadBack(columns, map[], s4);
    ExpectPrefix(" VALUES\n", s5);
    EndingStarts(postgres);
    TuplesReadBack(columns, rows, s6);
  }

  /** A quoted name that reads as itself, wherever the reading ends, contains no quote. */
  lemma IdentIsQuoteFree(name: string, rest: string)
    requires rest == "" || rest[0] != '"'
    requires ReadIdent(QuoteIdent(name) + rest).Got? && ReadIdent(QuoteIdent(name) + rest).value == name
    ensures Free(name, '"')
  {
    var s := QuoteIdent(name) + rest;
    assert s[1..] == name + ['"'] + rest;
    ReadIsDoubled('"', s[1..]);
    assert seq(0, _ => '"') + Doubled('"', name) == Doubled('"', name);
    OwnDoubleIsPlain('"', 0, name, ReadQuoted('"', s[1..]).rest, rest);
  }

  lemma {:induction false} IdentsAreQuoteFree(columns: seq<string>, rest: string)
    requires columns != []
    requires var r := ReadItems(ReadIdent, JoinWith(",", QuotedColumns(columns)) + ")" + rest);
      r.Got? && r.value == columns
    ensures QuoteFree(columns)
  {
    hide ReadIdent, QuoteIdent, QuotedColumns;
    TupleFirst(columns, map[]);
    var name, others := columns[0], columns[1..];
    var text := JoinWith(",", QuotedColumns(columns)) + ")" + rest;
    if others == [] {
      NoCells(map[]);
      assert QuotedColumns(columns) == [QuoteIdent(name)];
      assert text == QuoteIdent(name) + (")" + rest);
      IdentIsQuoteFree(name, ")" + rest);
    } else {
      CellCount(others, map[]);
      var tail := JoinWith(",", QuotedColumns(others)) + ")" + rest;
      assert text == QuoteIdent(name) + ("," + tail);
      IdentIsQuoteFree(name, "," + tail);
      IdentReadsBackExactly(name, "," + tail);
      assert ("," + tail)[1..] == tail;
      assert ReadItems(ReadIdent, text).value[1..] == others;
      IdentsAreQuoteFree(others, rest);
      assert columns == [name] + others;
    }
  }

  lemma ColumnsAreQuoteFree(columns: seq<string>, rest: string)
    requires var r := ReadList(ReadIdent, JoinWith(",", QuotedColumns(columns)) + ")" + rest);
      r.Got? && r.value == columns
    ensures QuoteFree(columns)
  {
    hide ReadIdent, ReadItems, QuotedColumns, QuoteIdent;
    if columns != [] {
      TupleFirst(columns, map[]);
      ItemStarts(Null, columns[0]);
      var text := JoinWith(",", QuotedColumns(columns)) + ")" + rest;
      assert text[0] == QuoteIdent(columns[0])[0];
      IdentsAreQuoteFree(columns, rest);
    }
  }

  /** A printed statement reads back as what was printed exactly if no name contains a quote and every value is
      legible. */
  lemma {:induction false} InsertReadsBackExactly(table: string, columns: seq<string>, rows: seq<Row>, postgres: bool)
    requires rows != []
    ensures ReadInsert(InsertText(table, columns, rows, postgres))
         == Some(Insert(table, columns, TuplesOf(columns, rows), postgres))
      <==> Free(table, '"') && QuoteFree(columns) && LegibleRows(columns, rows)
  {
    hide Expect, ReadIdent, ReadList, ReadTuples, QuoteIdent, QuotedColumns, TupleTexts, JoinWith, TuplesOf;
    hide InsertText, Ending, HasPrefix, LegibleRows, LegibleCells, Free;
    if Free(table, '"') && QuoteFree(columns) {
      InsertReadsBack(table, columns, rows, postgres);
    } else if ReadInsert(InsertText(table, columns, rows, postgres))
                == Some(Insert(table, columns, TuplesOf(columns, rows), postgres)) {
      var s4 := " VALUES\n" + (JoinWith(",\n", TupleTexts(columns, rows)) + (Ending(postgres) + ";"));
      var s3 := JoinWith(",", QuotedColumns(columns)) + ")" + s4;
      var s2 := " (" + s3;
      InsertTextParts(table, columns, rows, postgres);
      ExpectPrefix("INSERT INTO ", QuoteIdent(table) + s2);
      IdentIsQuoteFree(table, s2);
      IdentReadsBackExactly(table, s2);
      ExpectPrefix(" (", s3);
      ColumnsAreQuoteFree(columns, s4);
    }
  }

  function Position(columns: seq<string>, c: string): (i: nat)
    requires c in columns
    ensures i < |columns| && columns[i] == c
  {
    if columns[0] == c then 0 else 1 + Position(columns[1..], c)
  }

  /** A tuple read back as a row. */
  function AsRow(columns: seq<string>, tuple: seq<Value>): Row
    requires |tuple| == |columns|
  {
    map c | c in columns :: tuple[Position(columns, c)]
  }

  function ShownRow(row: Row): Row {
    map c | c in row :: Shown(row[c])
  }

  /** A row comes back as itself exactly if it has the columns of the statement. */
  lemma RowReadsBackExactly(columns: seq<string>, row: Row)
    ensures AsRow(columns, TupleOf(columns, row)) == ShownRow(row) <==> forall c :: c in columns <==> c in row
  {
    hide Shown;
    var back := AsRow(columns, TupleOf(columns, row));
    assert back.Keys == set c | c in columns;
    assert ShownRow(row).Keys == row.Keys;
    if forall c :: c in columns <==> c in row {
      assert back.Keys == ShownRow(row).Keys;
    }
  }

  // ---- the printed text as one statement ----

  /** Text that leaves the statement scan outside literals, without a cut. */
  predicate Closed(s: string) {
    Guard.Uncut(Guard.Outside, s) && Guard.After(Guard.Outside, s) == Guard.Outside
  }

  lemma ClosedConcat(a: string, b: string)
    requires Closed(a) && Closed(b)
    ensures Closed(a + b)
  {
    Guard.AfterConcat(Guard.Outside, a, b);
  }

  lemma PlainClosed(s: string)
    requires Guard.Plain(s)
    ensures Closed(s)
  {
    Guard.PlainIsWhole(s);
  }

  /** Inside a literal, doubled quotes close and open it again, and nothing in it is a cut. */
  lemma {:induction false} DoubledStaysInside(q: char, x: string)
    requires Guard.IsQuote(q)
    ensures Guard.Uncut(Guard.Inside(q), Doubled(q, x))
    ensures Guard.After(Guard.Inside(q), Doubled(q, x)) == Guard.Inside(q)
  {
    if x != "" {
      DoubledStaysInside(q, x[1..]);
      var c := x[0];
      if c == q {
        QuotePair(q);
        Guard.AfterConcat(Guard.Inside(q), [q, q], Doubled(q, x[1..]));
      } else {
        assert [c][1..] == "";
        Guard.AfterConcat(Guard.Inside(q), [c], Doubled(q, x[1..]));
      }
    }
  }

  lemma QuotePair(q: char)
    requires Guard.IsQuote(q)
    ensures Guard.Uncut(Guard.Inside(q), [q, q]) && Guard.After(Guard.Inside(q), [q, q]) == Guard.Inside(q)
  {
    assert [q, q][1..] == [q] && [q][1..] == "";
    assert Guard.After(Guard.Outside, [q]) == Guard.Inside(q) && Guard.Uncut(Guard.Outside, [q]);
  }

  lemma QuotedClosed(q: char, x: string)
    requires Guard.IsQuote(q)
    ensures Closed([q] + Doubled(q, x) + [q])
  {
    hide Doubled;
    DoubledStaysInside(q, x);
    assert [q][1..] == "";
    Guard.AfterConcat(Guard.Outside, [q] + Doubled(q, x), [q]);
    Guard.AfterConcat(Guard.Outside, [q], Doubled(q, x));
  }

  lemma ValueClosed(v: Value)
    ensures Closed(EscapeValue(v))
  {
    hide Doubled, Closed, Print;
    match v
    case Null => PlainClosed("NULL");
    case Bool(b) => PlainClosed(if b then "TRUE" else "FALSE");
    case Int(n) => PlainClosed(PrintInt(n));
    case Float(text) =>
      assert forall i | 0 <= i < |text| && IsNumeralChar(text[i]) :: text[i] != ';' && !Guard.IsQuote(text[i]);
      PlainClosed(text);
    case Str(x) => QuotedClosed('\'', x);
    case Other(x) => QuotedClosed('\'', x);
  }

  lemma IdentClosed(name: string)
    requires Free(name, '"')
    ensures Closed(QuoteIdent(name))
  {
    hide Doubled, Closed;
    DoubledPlain('"', name);
    QuotedClosed('"', name);
  }

  lemma {:induction false} JoinClosed(sep: string, parts: seq<string>)
    requires Closed(sep) && forall i | 0 <= i < |parts| :: Closed(parts[i])
    ensures Closed(JoinWith(sep, parts))
  {
    if |parts| > 1 {
      JoinClosed(sep, parts[1..]);
      ClosedConcat(parts[0], sep);
      ClosedConcat(parts[0] + sep, JoinWith(sep, parts[1..]));
    }
  }

  lemma TupleClosed(columns: seq<string>, row: Row)
    ensures Closed(TupleText(columns, row))
  {
    hide Closed, EscapeValue;
    var cells := Cells(columns, row);
    forall i | 0 <= i < |cells| ensures Closed(cells[i]) {
      ValueClosed(Get(row, columns[i]));
    }
    PlainClosed(",");
    PlainClosed("(");
    PlainClosed(")");
    JoinClosed(",", cells);
    ClosedConcat("(", JoinWith(",", cells));
    ClosedConcat("(" + JoinWith(",", cells), ")");
  }

  /** A statement up to its rows, and everything but the final semicolon. */
  function Header(table: string, columns: seq<string>): string {
    "INSERT INTO " + QuoteIdent(table) + " (" + JoinWith(",", QuotedColumns(columns)) + ") VALUES\n"
  }

  function Tuples(columns: seq<string>, rows: seq<Row>, postgres: bool): string {
    JoinWith(",\n", TupleTexts(columns, rows)) + Ending(postgres)
  }

  function Body(table: string, columns: seq<string>, rows: seq<Row>, postgres: bool): string {
    Header(table, columns) + Tuples(columns, rows, postgres)
  }

  lemma TuplesClosed(columns: seq<string>, rows: seq<Row>, postgres: bool)
    ensures Closed(Tuples(columns, rows, postgres))
  {
    hide Closed, JoinWith, TupleText;
    forall i | 0 <= i < |rows| ensures Closed(TupleTexts(columns, rows)[i]) {
      TupleClosed(columns, rows[i]);
    }
    PlainClosed(",\n");
    JoinClosed(",\n", TupleTexts(columns, rows));
    PlainClosed(Ending(postgres));
    ClosedConcat(JoinWith(",\n", TupleTexts(columns, rows)), Ending(postgres));
  }

  /** Names without quotes are closed, and so are all names whose quotes come in pairs, for example. */
  lemma HeaderClosed(table: string, columns: seq<string>)
    requires Closed(QuoteIdent(table)) && forall i | 0 <= i < |columns| :: Closed(QuoteIdent(columns[i]))
    ensures Closed(Header(table, columns))
  {
    hide Closed, QuoteIdent, JoinWith;
    var columnList := JoinWith(",", QuotedColumns(columns));
    PlainClosed(",");
    JoinClosed(",", QuotedColumns(columns));
    PlainClosed("INSERT INTO ");
    PlainClosed(" (");
    PlainClosed(") VALUES\n");
    ClosedConcat("INSERT INTO ", QuoteIdent(table));
    ClosedConcat("INSERT INTO " + QuoteIdent(table), " (");
    ClosedConcat("INSERT INTO " + QuoteIdent(table) + " (", columnList);
    ClosedConcat("INSERT INTO " + QuoteIdent(table) + " (" + columnList, ") VALUES\n");
  }

  /** The statement splitter sees the printed text as one statement exactly if all its literals are closed and hold its
      semicolons; it is enough that the names are so, whatever the values are. Its command is always an INSERT. */
  lemma InsertIsOneStatement(table: string, columns: seq<string>, rows: seq<Row>, postgres: bool)
    ensures
      var text, body := InsertText(table, columns, rows, postgres), Body(table, columns, rows, postgres);
      && (Guard.Statements(text) == [body] <==> Closed(body))
      && (Closed(Header(table, columns)) ==> Closed(body))
      && Guard.CommandOf(body) == Guard.Insert
    ensures Free(table, '"') && QuoteFree(columns) ==> Closed(Header(table, columns))
  {
    hide QuoteIdent, JoinWith, TupleTexts, QuotedColumns, Ending, Closed;
    var body := Body(table, columns, rows, postgres);
    BodyStarts(table, columns, rows, postgres);
    assert InsertText(table, columns, rows, postgres) == body + ";";
    OnePiece(body);
    if Free(table, '"') && QuoteFree(columns) {
      IdentClosed(table);
      forall i | 0 <= i < |columns| ensures Closed(QuoteIdent(columns[i])) {
        IdentClosed(columns[i]);
      }
      HeaderClosed(table, columns);
    }
    if Closed(Header(table, columns)) {
      TuplesClosed(columns, rows, postgres);
      ClosedConcat(Header(table, columns), Tuples(columns, rows, postgres));
    }
  }

  lemma OnePiece(body: string)
    requires body != ""
    ensures Guard.Statements(body + ";") == [body] <==> Closed(body)
  {
    hide Guard.Statements;
    if Closed(body) {
      Guard.StatementsOfJoin([body]);
    }
    if Guard.Statements(body + ";") == [body] {
      Guard.SplitLosesNothing(body + ";");
      Terminates(Guard.Outside, body);
    }
  }

  lemma {:induction false} Terminates(st: Guard.Scan, s: string)
    ensures Guard.Terminated(st, s + ";") <==> Guard.After(st, s) == Guard.Outside
    decreases s
  {
    if s != "" {
      assert (s + ";")[1..] == s[1..] + ";";
      Terminates(Guard.Next(st, s[0]), s[1..]);
    }
  }

  lemma BodyStarts(table: string, columns: seq<string>, rows: seq<Row>, postgres: bool)
    ensures Body(table, columns, rows, postgres) != ""
    ensures Guard.CommandOf(Body(table, columns, rows, postgres)) == Guard.Insert
  {
    hide QuoteIdent, JoinWith, TupleTexts, QuotedColumns, Ending;
    var body := Body(table, columns, rows, postgres);
    assert body[..6] == "INSERT" && body[0] == 'I';
    KeepsStart(body, 6);
    var trimmed := TrimSpace(body);
    assert trimmed[..6] == "INSERT" && trimmed[0] == 'I';
  }

  /** Trimming does not reach text in front of which and at whose end there is no space. */
  lemma {:induction false} KeepsStart(s: string, n: nat)
    requires 0 < n <= |s| && !IsSpace(s[0]) && !IsSpace(s[n - 1])
    ensures |TrimSpace(s)| >= n && TrimSpace(s)[..n] == s[..n]
    decreases |s|
  {
    assert TrimLeft(s) == s;
    if n < |s| && IsSpace(s[|s| - 1]) {
      var shorter := s[..|s| - 1];
      KeepsStart(shorter, n);
      assert TrimLeft(shorter) == shorter;
      assert shorter[..n] == s[..n];
    }
  }
}
