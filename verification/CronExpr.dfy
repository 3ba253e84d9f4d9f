/** Cron expressions: five fields of numbers, lists, stars and steps, and the search they start. */
module CronExpr {
  import opened Text
  import opened Calendar
  import opened CronSearch
  import opened Division

  datatype Error = FieldCount | BadStep | BadValue | OutOfRange | NoMatch

  datatype Result<+T> = Ok(value: T) | Err(error: Error)

  const TWO_64: int := 0x1_0000_0000_0000_0000

  /** Adding a positive step to an `int`: 64 bits wrap around. */
  function AddStep(i: int, step: int): int {
    if i + step > MAX_INT64 then i + step - TWO_64 else i + step
  }

  /** Decreases along `i, i + step, ...` as long as the values stay at most `max`: a step of nearly 2^63
      throws a small value far below zero, and the next step brings it back smaller than it was. */
  function StepMeasure(i: int, step: int, max: int): int {
    if step <= MAX_INT64 - max then max - i
    else if i < -0x4000_0000_0000_0000 then 2 * (i - MIN_INT64) + 1
    else if i + step <= MAX_INT64 then 0
    else 2 * i + 1
  }

  /** The values the step loop sets. */
  function StepValues(i: int, step: int, max: int): set<int>
    requires MIN_INT64 <= i <= MAX_INT64 && 0 < step <= MAX_INT64 && 0 <= max < 0x1000
    decreases if i <= max then 1 + StepMeasure(i, step, max) else 0
  {
    if i <= max then {i} + StepValues(AddStep(i, step), step, max) else {}
  }

  function Range(min: int, max: int): (r: set<int>)
    ensures forall v :: v in r <==> min <= v <= max
    decreases max - min
  {
    if min > max then {} else Range(min, max - 1) + {max}
  }

  /** Start and step of `base/step`. */
  function ParseStep(part: string, min: int): (r: Result<(int, int)>)
    requires '/' in part && 0 <= min < 0x1000
    ensures r.Ok? ==> MIN_INT64 <= r.value.0 <= MAX_INT64 && 0 < r.value.1 <= MAX_INT64
  {
    var slash := IndexOf(part, '/');
    var base, step := part[..slash], Atoi(part[slash + 1..]);
    if step.None? || step.value <= 0 then Err(BadStep)
    else if base == "*" then Ok((min, step.value))
    else match Atoi(base)
      case None => Err(BadValue)
      case Some(start) => Ok((start, step.value))
  }

  function ParseNumber(part: string, min: int, max: int): Result<int> {
    match Atoi(part)
    case None => Err(BadValue)
    case Some(v) => if v < min || v > max then Err(OutOfRange) else Ok(v)
  }

  /** A field's parts are taken in order until one of them is `*` or has a step. */
  function ParseParts(parts: seq<string>, min: int, max: int, acc: set<int>): Result<set<int>>
    requires 0 <= min <= max < 0x1000
  {
    if parts == [] then Ok(acc)
    else
      var part := TrimSpace(parts[0]);
      if part == "*" then Ok(acc + Range(min, max))
      else if '/' in part then
        match ParseStep(part, min)
        case Err(e) => Err(e)
        case Ok((start, step)) =>
          Ok(acc + StepValues(start, step, max))
      else match ParseNumber(part, min, max)
        case Err(e) => Err(e)
        case Ok(v) => ParseParts(parts[1..], min, max, acc + {v})
  }

  lemma StepDecreases(i: int, step: int, max: int)
    requires MIN_INT64 <= i <= max && 0 < step <= MAX_INT64 && 0 <= max < 0x1000
    ensures 0 <= StepMeasure(i, step, max)
    ensures var next := AddStep(i, step);
            && MIN_INT64 <= next <= MAX_INT64
            && (next <= max ==> 0 <= StepMeasure(next, step, max) < StepMeasure(i, step, max))
  {
  }

  function FieldSet(field: string, min: int, max: int): Result<set<int>>
    requires 0 <= min <= max < 0x1000
  {
    ParseParts(Split(field, ','), min, max, {})
  }

  method ParseField(field: string, min: int, max: int) returns (r: Result<set<int>>)
    requires 0 <= min <= max < 0x1000
    ensures r == FieldSet(field, min, max)
  {
    hide StepMeasure, AddStep, ParseStep, ParseNumber, TrimSpace, Split;
    var parts := Split(field, ',');
    var values: set<int> := {};
    var n := 0;
    while n < |parts|
      invariant n <= |parts|
      invariant FieldSet(field, min, max) == ParseParts(parts[n..], min, max, values)
    {
      var part := TrimSpace(parts[n]);
      if part == "*" {
        var i := min;
        ghost var before := values;
        while i <= max
          invariant min <= i <= max + 1
          invariant values == before + Range(min, i - 1)
        {
          values := values + {i};
          i := i + 1;
        }
        return Ok(values);
      }
      if '/' in part {
        var bounds := ParseStep(part, min);
        if bounds.Err? {
          return Err(bounds.error);
        }
        var (i, step) := bounds.value;
        ghost var all := values + StepValues(i, step, max);
        assert FieldSet(field, min, max) == Ok(all);
        while i <= max
          invariant MIN_INT64 <= i <= MAX_INT64
          invariant all == values + if i <= max then StepValues(i, step, max) else {}
          decreases if i <= max then 1 + StepMeasure(i, step, max) else 0
        {
          StepDecreases(i, step, max);
          values := values + {i};
          i := AddStep(i, step);
        }
        assert values == all;
        return Ok(values);
      }
      var v := ParseNumber(part, min, max);
      if v.Err? {
        return Err(v.error);
      }
      values := values + {v.value};
      n := n + 1;
    }
    return Ok(values);
  }

  // ---- what a field means ----

  /** Parsing looks no further than a part of this kind. */
  predicate Closes(part: string) {
    var p := TrimSpace(part);
    p == "*" || '/' in p
  }

  /** How many parts are looked at. */
  function Consulted(parts: seq<string>): (n: nat)
    ensures n <= |parts|
  {
    if parts == [] then 0 else if Closes(parts[0]) then 1 else 1 + Consulted(parts[1..])
  }

  predicate WellFormed(part: string, min: int, max: int)
    requires 0 <= min <= max < 0x1000
  {
    var p := TrimSpace(part);
    p == "*" || if '/' in p then ParseStep(p, min).Ok? else ParseNumber(p, min, max).Ok?
  }

  /** The values a part stands for. */
  predicate Names(part: string, min: int, max: int, v: int)
    requires 0 <= min <= max < 0x1000
  {
    var p := TrimSpace(part);
    if p == "*" then min <= v <= max
    else if '/' in p then
      var bounds := ParseStep(p, min);
      bounds.Ok? && v in StepValues(bounds.value.0, bounds.value.1, max)
    else ParseNumber(p, min, max) == Ok(v)
  }

  /** A field is accepted exactly if every part up to the first `*` or step is well formed, whatever comes
      after; it then stands for exactly the values these parts name. */
  lemma {:induction false} PartsMean(parts: seq<string>, min: int, max: int, acc: set<int>)
    requires 0 <= min <= max < 0x1000
    ensures var r := ParseParts(parts, min, max, acc);
            && (r.Ok? <==> forall j | 0 <= j < Consulted(parts) :: WellFormed(parts[j], min, max))
            && (r.Ok? ==> forall v :: v in r.value <==>
                  v in acc || exists j | 0 <= j < Consulted(parts) :: Names(parts[j], min, max, v))
  {
    hide StepValues, ParseStep, ParseNumber, TrimSpace;
    if parts != [] {
      if !Closes(parts[0]) {
        var rest := parts[1..];
        var head := ParseNumber(TrimSpace(parts[0]), min, max);
        assert WellFormed(parts[0], min, max) <==> head.Ok?;
        assert forall j | 0 <= j < Consulted(rest) :: rest[j] == parts[j + 1];
        assert forall j | 1 <= j < Consulted(parts) :: parts[j] == rest[j - 1];
        if head.Ok? {
          PartsMean(rest, min, max, acc + {head.value});
        }
      }
    }
  }

  /** The members of the arithmetic progression from `start` up to `max`. */
  predicate InProgression(start: int, step: int, max: int, v: int)
    requires 0 < step
  {
    start <= v <= max && (v - start) % step == 0
  }

  /** The loop leaves the range before a sum passes 64 bits: it does not start, or the first value beyond `max`
      still fits. */
  predicate NeverWraps(start: int, step: int, max: int)
    requires 0 < step
  {
    start > max || start + ((max - start) / step + 1) * step <= MAX_INT64
  }

  lemma QuotientStep(start: int, step: int, max: int)
    requires 0 < step && start + step <= max
    ensures (max - start) / step == (max - (start + step)) / step + 1
    ensures NeverWraps(start, step, max) <==> NeverWraps(start + step, step, max)
  {
    var q, r := (max - (start + step)) / step, (max - (start + step)) % step;
    assert max - (start + step) == q * step + r;
    assert max - start == (q + 1) * step + r;
    UniqueQuotient(max - start, step, q + 1, r);
    assert start + (q + 1 + 1) * step == start + step + (q + 1) * step;
  }

  lemma LastStep(start: int, step: int, max: int)
    requires 0 < step && start <= max < start + step
    ensures (max - start) / step == 0
    ensures NeverWraps(start, step, max) <==> start + step <= MAX_INT64
  {
    UniqueQuotient(max - start, step, 0, max - start);
  }

  /** Without wrapping around the loop sets the arithmetic progression. */
  lemma {:induction false} StepValuesMeaning(start: int, step: int, max: int, v: int)
    requires MIN_INT64 <= start <= MAX_INT64 && 0 < step <= MAX_INT64 && 0 <= max < 0x1000
    requires NeverWraps(start, step, max)
    ensures v in StepValues(start, step, max) <==> InProgression(start, step, max, v)
    decreases max - start
  {
    hide NeverWraps;
    if start <= max {
      if start + step <= max {
        QuotientStep(start, step, max);
      } else {
        LastStep(start, step, max);
      }
      assert AddStep(start, step) == start + step;
      if start + step <= max {
        StepValuesMeaning(start + step, step, max, v);
      }
      if start <= v {
        RemainderStep(v - start, step);
      }
    }
  }

  /** Wrapping around sets a value below the one the loop started from. */
  lemma {:induction false} WrappedValue(start: int, step: int, max: int) returns (v: int)
    requires MIN_INT64 <= start <= MAX_INT64 && 0 < step <= MAX_INT64 && 0 <= max < 0x1000
    requires !NeverWraps(start, step, max)
    ensures v in StepValues(start, step, max) && v < start
    decreases max - start
  {
    hide NeverWraps;
    assert start <= max by {
      StartsInRange(start, step, max);
    }
    if start + step <= max {
      QuotientStep(start, step, max);
      if start + step + step <= max {
        // Steps this small cannot wrap around from a value of at most `max`.
        SmallStepsFit(start, step, max);
        assert false;
      } else {
        LastStep(start + step, step, max);
        v := start + step + step - TWO_64;
        assert AddStep(start, step) == start + step && AddStep(start + step, step) == v;
        assert v in StepValues(start + step, step, max);
      }
    } else {
      LastStep(start, step, max);
      v := start + step - TWO_64;
      assert AddStep(start, step) == v;
      assert v in StepValues(v, step, max);
    }
  }

  lemma StartsInRange(start: int, step: int, max: int)
    requires 0 < step && !NeverWraps(start, step, max)
    ensures start <= max
  {
  }

  lemma SmallStepsFit(start: int, step: int, max: int)
    requires MIN_INT64 <= start && 0 < step && 0 <= max < 0x1000 && start + step + step <= max
    ensures NeverWraps(start, step, max)
  {
    var q := (max - start) / step;
    assert q * step <= max - start;
    assert start + (q + 1) * step == start + q * step + step;
  }

  /** The loop sets exactly the arithmetic progression if and only if no sum wraps around. */
  lemma {:induction false} StepValuesMeanExactly(start: int, step: int, max: int)
    requires MIN_INT64 <= start <= MAX_INT64 && 0 < step <= MAX_INT64 && 0 <= max < 0x1000
    ensures (forall v :: v in StepValues(start, step, max) <==> InProgression(start, step, max, v))
      <==> NeverWraps(start, step, max)
  {
    hide NeverWraps, StepValues;
    if NeverWraps(start, step, max) {
      forall v ensures v in StepValues(start, step, max) <==> InProgression(start, step, max, v) {
        StepValuesMeaning(start, step, max, v);
      }
    } else {
      var v := WrappedValue(start, step, max);
      assert !InProgression(start, step, max, v);
    }
  }

  lemma RemainderStep(d: int, step: int)
    requires 0 <= d && 0 < step
    ensures d % step == 0 <==> d == 0 || (step <= d && (d - step) % step == 0)
  {
    if d < step {
      assert d / step == 0;
    } else {
      var q, r := d / step, d % step;
      UniqueQuotient(d - step, step, q - 1, r);
    }
  }

  /** The largest step from 5 does not leave 5 alone: the sum wraps around, and the loop sets 3 and 1 too. */
  lemma {:induction false} LargestStepWraps()
    ensures StepValues(5, MAX_INT64, 59) * Range(0, 59) == {1, 3, 5}
  {
    var s := MAX_INT64;
    assert AddStep(5, s) == 4 + MIN_INT64 && AddStep(4 + MIN_INT64, s) == 3;
    assert AddStep(3, s) == 2 + MIN_INT64 && AddStep(2 + MIN_INT64, s) == 1;
    assert AddStep(1, s) == MIN_INT64 && AddStep(MIN_INT64, s) == -1;
    assert AddStep(-1, s) == MAX_INT64 - 1;
    assert StepValues(-1, s, 59) == {-1};
    assert StepValues(MIN_INT64, s, 59) == {MIN_INT64, -1};
    assert StepValues(1, s, 59) == {1, MIN_INT64, -1};
    assert StepValues(3, s, 59) == {3, 2 + MIN_INT64, 1, MIN_INT64, -1};
    assert StepValues(5, s, 59) == {5, 4 + MIN_INT64, 3, 2 + MIN_INT64, 1, MIN_INT64, -1};
  }

  // ---- whole expressions ----

  predicate Spaceless(s: string) {
    forall i | 0 <= i < |s| :: !IsSpace(s[i])
  }

  /** Length of the word at the front. */
  function WordLength(s: string): (n: nat)
    ensures n <= |s| && Spaceless(s[..n]) && (n == |s| || IsSpace(s[n]))
    ensures s != "" && !IsSpace(s[0]) ==> n > 0
  {
    if s == "" || IsSpace(s[0]) then 0 else 1 + WordLength(s[1..])
  }

  lemma TrimLeftShrinks(s: string)
    ensures |TrimLeft(s)| <= |s| && (TrimLeft(s) != "" ==> !IsSpace(TrimLeft(s)[0]))
  {
  }

  /** strings.Fields: the words between runs of white space. */
  function Fields(s: string): seq<string>
    decreases |s|
  {
    TrimLeftShrinks(s);
    var t := TrimLeft(s);
    if t == "" then [] else [t[..WordLength(t)]] + Fields(t[WordLength(t)..])
  }

  function ParseSpec(expr: string): Result<Spec> {
    var fields := Fields(expr);
    if |fields| != 5 then Err(FieldCount)
    else
      match FieldSet(fields[0], 0, 59)
      case Err(e) => Err(e)
      case Ok(minutes) =>
      match FieldSet(fields[1], 0, 23)
      case Err(e) => Err(e)
      case Ok(hours) =>
      match FieldSet(fields[2], 1, 31)
      case Err(e) => Err(e)
      case Ok(days) =>
      match FieldSet(fields[3], 1, 12)
      case Err(e) => Err(e)
      case Ok(months) =>
      match FieldSet(fields[4], 0, 6)
      case Err(e) => Err(e)
      case Ok(weekdays) => Ok(Spec(minutes, hours, days, months, weekdays))
  }

  method NextTime(expr: string, after: Instant) returns (r: Result<Instant>)
    ensures match ParseSpec(expr)
            case Err(e) => r == Err(e)
            case Ok(spec) =>
              if r.Ok? then Answer(spec, after, Some(r.value)) else r.error == NoMatch && Answer(spec, after, None)
  {
    hide FieldSet, Answer;
    var fields := Fields(expr);
    if |fields| != 5 {
      return Err(FieldCount);
    }
    var minutes := ParseField(fields[0], 0, 59);
    if minutes.Err? {
      return Err(minutes.error);
    }
    var hours := ParseField(fields[1], 0, 23);
    if hours.Err? {
      return Err(hours.error);
    }
    var days := ParseField(fields[2], 1, 31);
    if days.Err? {
      return Err(days.error);
    }
    var months := ParseField(fields[3], 1, 12);
    if months.Err? {
      return Err(months.error);
    }
    var weekdays := ParseField(fields[4], 0, 6);
    if weekdays.Err? {
      return Err(weekdays.error);
    }
    var spec := Spec(minutes.value, hours.value, days.value, months.value, weekdays.value);
    var found := Search(spec, after);
    if found.None? {
      return Err(NoMatch);
    }
    return Ok(found.value);
  }

  // ---- writing a specification out as an expression ----

  function Numerals(values: seq<int>): seq<string> {
    seq(|values|, i requires 0 <= i < |values| => PrintInt(values[i]))
  }

  /** The comma list of some values. */
  function PrintList(values: seq<int>): string {
    Join(Numerals(values), ',')
  }

  predicate Within(values: seq<int>, min: int, max: int) {
    values != [] && forall i | 0 <= i < |values| :: min <= values[i] <= max
  }

  function Elements(values: seq<int>): set<int> {
    set v | v in values
  }

  lemma NumeralText(n: int, c: char)
    requires MIN_INT64 <= n <= MAX_INT64
    ensures var s := PrintInt(n);
            && s != "" && TrimSpace(s) == s && Atoi(s) == Some(n) && s != "*"
            && (c != '-' && !IsDigit(c) ==> Free(s, c)) && Spaceless(s)
  {
    AtoiPrintInt(n);
    TrimSpaceKeeps(PrintInt(n));
  }

  lemma {:induction false} NumeralsParse(values: seq<int>, min: int, max: int, acc: set<int>)
    requires 0 <= min <= max < 0x1000 && (values == [] || Within(values, min, max))
    ensures ParseParts(Numerals(values), min, max, acc) == Ok(acc + Elements(values))
  {
    hide Atoi, TrimSpace, PrintInt;
    if values == [] {
      assert acc + Elements(values) == acc;
    } else {
      NumeralText(values[0], '/');
      assert Numerals(values)[1..] == Numerals(values[1..]);
      NumeralsParse(values[1..], min, max, acc + {values[0]});
      assert acc + {values[0]} + Elements(values[1..]) == acc + Elements(values);
    }
  }

  /** A comma list parses to exactly its values. */
  lemma ListField(values: seq<int>, min: int, max: int)
    requires 0 <= min <= max < 0x1000 && Within(values, min, max)
    ensures FieldSet(PrintList(values), min, max) == Ok(Elements(values))
  {
    hide PrintInt, Atoi, TrimSpace;
    forall p | p in Numerals(values) ensures Free(p, ',') {
      var i :| 0 <= i < |values| && p == PrintInt(values[i]);
      NumeralText(values[i], ',');
    }
    SplitJoin(Numerals(values), ',');
    NumeralsParse(values, min, max, {});
    assert {} + Elements(values) == Elements(values);
  }

  /** A single number is accepted exactly within the range. */
  lemma NumberField(n: int, min: int, max: int)
    requires 0 <= min <= max < 0x1000 && MIN_INT64 <= n <= MAX_INT64
    ensures FieldSet(PrintInt(n), min, max) == if min <= n <= max then Ok({n}) else Err(OutOfRange)
  {
    hide PrintInt, Atoi, TrimSpace;
    NumeralText(n, ',');
    NumeralText(n, '/');
    SplitPiece(PrintInt(n), "", ',');
    assert '/' !in PrintInt(n);
    OnePart(PrintInt(n), n, min, max);
  }

  lemma OnePart(s: string, n: int, min: int, max: int)
    requires 0 <= min <= max < 0x1000 && TrimSpace(s) == s && s != "*" && '/' !in s && Atoi(s) == Some(n)
    ensures ParseParts([s], min, max, {}) == if min <= n <= max then Ok({n}) else Err(OutOfRange)
  {
    hide Atoi, TrimSpace;
    var nothing: set<int> := {};
    assert nothing + {n} == {n};
    assert [s][1..] == [];
    assert ParseParts([], min, max, {n}) == Ok({n});
    assert ParseNumber(s, min, max) == if min <= n <= max then Ok(n) else Err(OutOfRange);
  }

  /** A step that is not positive is refused. */
  lemma BadSteps(n: int, min: int, max: int)
    requires 0 <= min <= max < 0x1000 && MIN_INT64 <= n <= 0
    ensures FieldSet("*/" + PrintInt(n), min, max) == Err(BadStep)
  {
    hide PrintInt, Atoi, TrimSpace, IndexOf;
    var s := PrintInt(n);
    NumeralText(n, ',');
    var field := "*/" + s;
    SplitPiece(field, "", ',');
    assert field[0] == '*' && field[1] == '/' && field[|field| - 1] == s[|s| - 1] && field[2..] == s;
    TrimSpaceKeeps(field);
    FirstAt(field, '/', 1);
  }

  // "*/N" parses to every N-th value of the range, from its lower end.
  lemma {:induction false} StarStepField(n: int, min: int, max: int)
    requires 0 <= min <= max < 0x1000 && 0 < n <= MAX_INT64 && NeverWraps(min, n, max)
    ensures var r := FieldSet("*/" + PrintInt(n), min, max);
            r.Ok? && forall v :: v in r.value <==> min <= v <= max && (v - min) % n == 0
  {
    hide PrintInt, Atoi, StepValues;
    var s := PrintInt(n);
    NumeralText(n, ',');
    var field := "*/" + s;
    assert Free(field, ',');
    SplitPiece(field, "", ',');
    assert !IsSpace(field[0]) && field[|field| - 1] == s[|s| - 1];
    TrimSpaceKeeps(field);
    assert IndexOf(field, '/') == 1;
    assert field[2..] == s && field[..1] == "*" && '/' in field;
    assert ParseStep(field, min) == Ok((min, n));
    assert FieldSet(field, min, max) == Ok({} + StepValues(min, n, max));
    forall v ensures v in StepValues(min, n, max) <==> min <= v <= max && (v - min) % n == 0 {
      StepValuesMeaning(min, n, max, v);
    }
  }

  /** "S/N" parses to every N-th value from S on, whatever the lower end of the range. */
  lemma {:induction false} StartStepField(start: int, n: int, min: int, max: int)
    requires 0 <= min <= max < 0x1000 && MIN_INT64 <= start <= MAX_INT64
    requires 0 < n <= MAX_INT64 && NeverWraps(start, n, max)
    ensures var r := FieldSet(PrintInt(start) + "/" + PrintInt(n), min, max);
            r.Ok? && forall v :: v in r.value <==> start <= v <= max && (v - start) % n == 0
  {
    hide PrintInt, ParseStep, StepValues, NeverWraps, TrimSpace, Split;
    var field := PrintInt(start) + "/" + PrintInt(n);
    StepText(start, n, min);
    assert FieldSet(field, min, max) == Ok({} + StepValues(start, n, max));
    forall v ensures v in StepValues(start, n, max) <==> start <= v <= max && (v - start) % n == 0 {
      StepValuesMeaning(start, n, max, v);
    }
  }

  lemma StepText(start: int, n: int, min: int)
    requires 0 <= min < 0x1000 && MIN_INT64 <= start <= MAX_INT64 && 0 < n <= MAX_INT64
    ensures var field := PrintInt(start) + "/" + PrintInt(n);
      && Split(field, ',') == [field] && TrimSpace(field) == field && field != "*" && '/' in field
      && ParseStep(field, min) == Ok((start, n))
  {
    hide PrintInt, Atoi, TrimSpace, Split, IndexOf;
    var base, s := PrintInt(start), PrintInt(n);
    NumeralText(n, ',');
    NumeralText(start, ',');
    NumeralText(start, '/');
    var field := base + "/" + s;
    SplitPiece(field, "", ',');
    assert field[0] == base[0] && field[|field| - 1] == s[|s| - 1];
    TrimSpaceKeeps(field);
    assert field[|base|] == '/' && field[|base| + 1..] == s && field[..|base|] == base;
    FirstAt(field, '/', |base|);
  }

  lemma {:induction false} FieldsJoin(words: seq<string>)
    requires forall i | 0 <= i < |words| :: words[i] != "" && Spaceless(words[i])
    ensures Fields(Join(words, ' ')) == words
  {
    if words != [] {
      var w, rest := words[0], words[1..];
      var tail := if rest == [] then "" else " " + Join(rest, ' ');
      assert Join(words, ' ') == w + tail;
      WordStops(w, tail);
      FieldsJoin(rest);
      assert TrimLeft(w + tail) == w + tail;
      if rest != [] {
        assert tail[1..] == Join(rest, ' ');
        assert TrimLeft(tail) == TrimLeft(Join(rest, ' '));
      }
    }
  }

  lemma {:induction false} WordStops(w: string, tail: string)
    requires Spaceless(w) && (tail == "" || IsSpace(tail[0]))
    ensures WordLength(w + tail) == |w| && (w + tail)[..|w|] == w && (w + tail)[|w|..] == tail
  {
    if w == "" {
      assert w + tail == tail;
    } else {
      assert (w + tail)[1..] == w[1..] + tail;
      WordStops(w[1..], tail);
    }
  }

  lemma {:induction false} PrintListSpaceless(values: seq<int>)
    requires Within(values, 0, 0xfff)
    ensures PrintList(values) != "" && Spaceless(PrintList(values))
  {
    hide PrintInt;
    NumeralText(values[0], ' ');
    if |values| > 1 {
      assert Numerals(values)[1..] == Numerals(values[1..]);
      PrintListSpaceless(values[1..]);
    }
  }

  /** Writing five comma lists out as an expression and parsing it gives the specification back. */
  lemma {:induction false} SpecRoundTrip(
    minutes: seq<int>, hours: seq<int>, days: seq<int>, months: seq<int>, weekdays: seq<int>)
    requires Within(minutes, 0, 59) && Within(hours, 0, 23) && Within(days, 1, 31)
    requires Within(months, 1, 12) && Within(weekdays, 0, 6)
    ensures ParseSpec(Join([PrintList(minutes), PrintList(hours), PrintList(days),
                            PrintList(months), PrintList(weekdays)], ' '))
         == Ok(Spec(Elements(minutes), Elements(hours), Elements(days), Elements(months), Elements(weekdays)))
  {
    hide FieldSet, PrintList;
    PrintListSpaceless(minutes);
    PrintListSpaceless(hours);
    PrintListSpaceless(days);
    PrintListSpaceless(months);
    PrintListSpaceless(weekdays);
    FieldsJoin([PrintList(minutes), PrintList(hours), PrintList(days), PrintList(months), PrintList(weekdays)]);
    ListField(minutes, 0, 59);
    ListField(hours, 0, 23);
    ListField(days, 1, 31);
    ListField(months, 1, 12);
    ListField(weekdays, 0, 6);
  }

  lemma StarField(min: int, max: int)
    requires 0 <= min <= max < 0x1000
    ensures FieldSet("*", min, max) == Ok(Range(min, max))
  {
    SplitPiece("*", "", ',');
    TrimSpaceKeeps("*");
    assert Split("*", ',') == ["*"];
    assert {} + Range(min, max) == Range(min, max);
  }

  function DailyText(minutes: seq<int>, hours: seq<int>): string {
    Join([PrintList(minutes), PrintList(hours), "*", "*", "*"], ' ')
  }

  /** An expression with stars for day, month and weekday fires on every day. */
  lemma {:induction false} DailyExpression(minutes: seq<int>, hours: seq<int>)
    requires Within(minutes, 0, 59) && Within(hours, 0, 23)
    ensures ParseSpec(DailyText(minutes, hours))
         == Ok(Spec(Elements(minutes), Elements(hours), Range(1, 31), Range(1, 12), Range(0, 6)))
    ensures Daily(Spec(Elements(minutes), Elements(hours), Range(1, 31), Range(1, 12), Range(0, 6)))
  {
    hide FieldSet, PrintList, Range;
    PrintListSpaceless(minutes);
    PrintListSpaceless(hours);
    FieldsJoin([PrintList(minutes), PrintList(hours), "*", "*", "*"]);
    ListField(minutes, 0, 59);
    ListField(hours, 0, 23);
    StarField(1, 31);
    StarField(1, 12);
    StarField(0, 6);
    assert minutes[0] in Elements(minutes) && hours[0] in Elements(hours);
  }

  /** Five single numbers are accepted exactly within the ranges of minute, hour, day, month and weekday. */
  lemma {:induction false} FiveNumbers(minute: int, hour: int, day: int, month: int, weekday: int)
    requires MIN_INT64 <= minute <= MAX_INT64 && MIN_INT64 <= hour <= MAX_INT64 && MIN_INT64 <= day <= MAX_INT64
    requires MIN_INT64 <= month <= MAX_INT64 && MIN_INT64 <= weekday <= MAX_INT64
    ensures
      var text := Join([PrintInt(minute), PrintInt(hour), PrintInt(day), PrintInt(month), PrintInt(weekday)], ' ');
      ParseSpec(text) ==
        if 0 <= minute < 60 && 0 <= hour < 24 && 1 <= day <= 31 && 1 <= month <= 12 && 0 <= weekday <= 6 then
          Ok(Spec({minute}, {hour}, {day}, {month}, {weekday}))
        else Err(OutOfRange)
  {
    hide PrintInt, FieldSet, Join, Fields, Range, StepValues;
    NumbersAreFields([minute, hour, day, month, weekday]);
    assert Numerals([minute, hour, day, month, weekday])
      == [PrintInt(minute), PrintInt(hour), PrintInt(day), PrintInt(month), PrintInt(weekday)];
    NumberField(minute, 0, 59);
    NumberField(hour, 0, 23);
    NumberField(day, 1, 31);
    NumberField(month, 1, 12);
    NumberField(weekday, 0, 6);
  }

  lemma NumbersAreFields(values: seq<int>)
    requires forall i | 0 <= i < |values| :: MIN_INT64 <= values[i] <= MAX_INT64
    ensures Fields(Join(Numerals(values), ' ')) == Numerals(values)
  {
    hide PrintInt, Join, Fields, Spaceless;
    forall i | 0 <= i < |values| ensures PrintInt(values[i]) != "" && Spaceless(PrintInt(values[i])) {
      NumeralText(values[i], ',');
    }
    FieldsJoin(Numerals(values));
  }

  /** Five stars stand for all values of the five ranges. */
  lemma {:induction false} FiveStars()
    ensures ParseSpec("* * * * *") == Ok(Spec(Range(0, 59), Range(0, 23), Range(1, 31), Range(1, 12), Range(0, 6)))
  {
    hide FieldSet, Range, Fields;
    FiveStarFields();
    StarField(0, 59);
    StarField(0, 23);
    StarField(1, 31);
    StarField(1, 12);
    StarField(0, 6);
  }

  lemma FiveStarFields()
    ensures Fields("* * * * *") == ["*", "*", "*", "*", "*"]
  {
    hide Fields;
    var words := ["*", "*", "*", "*", "*"];
    assert words[1..][1..][1..][1..] == ["*"] && words[1..][1..][1..] == ["*", "*"];
    assert Join(["*", "*"], ' ') == "* *";
    assert Join(words[1..][1..], ' ') == "* * *";
    assert Join(words[1..], ' ') == "* * * *";
    assert Join(words, ' ') == "* * * * *";
    FieldsJoin(words);
  }

  /** The expression for midnight on 29 February. */
  const LEAP_DAY_TEXT: string := "0 0 29 2 *"

  lemma {:induction false} LeapDayExpression()
    ensures ParseSpec(LEAP_DAY_TEXT) == Ok(FEBRUARY_29)
  {
    hide FieldSet, Fields, PrintInt;
    LeapDayFields();
    Digits();
    OneNumber("0", 0, 0, 59);
    OneNumber("0", 0, 0, 23);
    OneNumber("29", 29, 1, 31);
    OneNumber("2", 2, 1, 12);
    StarField(0, 6);
    assert Range(0, 6) == {0, 1, 2, 3, 4, 5, 6};
  }

  lemma LeapDayFields()
    ensures Fields(LEAP_DAY_TEXT) == ["0", "0", "29", "2", "*"]
  {
    hide Fields;
    var words := ["0", "0", "29", "2", "*"];
    assert words[1..][1..][1..][1..] == ["*"] && words[1..][1..][1..] == ["2", "*"];
    assert Join(["2", "*"], ' ') == "2 *";
    assert Join(words[1..][1..], ' ') == "29 2 *";
    assert Join(words[1..], ' ') == "0 29 2 *";
    assert Join(words, ' ') == LEAP_DAY_TEXT;
    FieldsJoin(words);
  }

  lemma Digits()
    ensures PrintInt(0) == "0" && PrintInt(2) == "2" && PrintInt(29) == "29"
  {
    assert Print(29) == Print(2) + [Digit(9)];
  }

  lemma OneNumber(text: string, n: int, min: int, max: int)
    requires 0 <= min <= n <= max < 0x1000 && text == PrintInt(n)
    ensures FieldSet(text, min, max) == Ok({n})
  {
    hide FieldSet, PrintInt;
    ListField([n], min, max);
    assert PrintList([n]) == text;
    assert Elements([n]) == {n};
  }
}
