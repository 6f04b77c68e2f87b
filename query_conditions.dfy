/** The Query engine's configuration vocabulary and its five row-condition
    evaluators (`_equality`, `_date`, `_empty`, `_contains`, `_in` in
    src/Segmentation/Query.php). Each evaluator decides, for the trimmed
    value of the `where` field of one row, whether the row is kept. */
module QueryConditions {
  import opened Wrappers
  import opened Text

  /** A parsed date, as a point on the time line. */
  type Instant = int

  /** `DateTime::createFromFormat($format, $text)` (and the date validation
      that wraps it): the instant `text` denotes under `format`, or `None`
      where PHP returns `false`. Calendar arithmetic is not modelled. */
  type DateParser = (string, string) -> Option<Instant>

  datatype Comparison = Equals | Greater | Less | Not

  datatype DateTest = After | Before | On | Between | NotBetween

  /** The condition keywords `condition()` accepts. */
  datatype Condition =
    | Compare(op: Comparison)
    | OnDate(test: DateTest)
    | Empty
    | NotEmpty
    | Contains
    | In

  /** What `value()` stores: a string, a number (a numeric string is cast),
      a list, one parsed date, or a (start, end) pair of parsed dates. */
  datatype QueryValue =
    | Literal(s: string)
    | Number(n: int)
    | Items(items: seq<string>)
    | Moment(at: Instant)
    | Period(start: Instant, end: Instant)

  /** What the Query engine throws. */
  datatype QueryError =
    | InvalidFields                 // select() with no field
    | InvalidCondition              // condition() with an unknown keyword
    | InvalidDateValue              // value() with a date that does not parse
    | NoSource                      // execute() before fromSource()
    | AlreadyOpen(source: string)   // a source or sink that already holds a file pointer
    | MissingField(field: string)   // trim(null) on a row without the `where` field (strict types)
    | WrongValueType                // a built-in given a value of the wrong type (strict types)
    | NoDateFormat                  // a date condition without a format set by where()
    | Incomparable                  // a date compared with a value of another type

  function Keyword(c: Condition): string {
    match c
    case Compare(Equals) => "EQUALS"
    case Compare(Greater) => "GREATER"
    case Compare(Less) => "LESS"
    case Compare(Not) => "NOT"
    case OnDate(After) => "AFTER"
    case OnDate(Before) => "BEFORE"
    case OnDate(On) => "ON"
    case OnDate(Between) => "BETWEEN"
    case OnDate(NotBetween) => "NOT_BETWEEN"
    case Empty => "EMPTY"
    case NotEmpty => "NOT_EMPTY"
    case Contains => "CONTAINS"
    case In => "IN"
  }

  /** The allowed-keyword check: the condition a keyword names, if any. */
  function ParseKeyword(s: string): (c: Option<Condition>)
    ensures c.Some? ==> Keyword(c.value) == s
  {
    if s == "EQUALS" then Some(Compare(Equals))
    else if s == "GREATER" then Some(Compare(Greater))
    else if s == "LESS" then Some(Compare(Less))
    else if s == "NOT" then Some(Compare(Not))
    else if s == "AFTER" then Some(OnDate(After))
    else if s == "BEFORE" then Some(OnDate(Before))
    else if s == "ON" then Some(OnDate(On))
    else if s == "BETWEEN" then Some(OnDate(Between))
    else if s == "NOT_BETWEEN" then Some(OnDate(NotBetween))
    else if s == "EMPTY" then Some(Empty)
    else if s == "NOT_EMPTY" then Some(NotEmpty)
    else if s == "CONTAINS" then Some(Contains)
    else if s == "IN" then Some(In)
    else None
  }

  /** Every condition's keyword is accepted, and names that condition. */
  lemma KeywordRoundTrip(c: Condition)
    ensures ParseKeyword(Keyword(c)) == Some(c)
  {
  }

  /** `condition()` upper-cases before checking, so a keyword is accepted in
      any letter case: the accepted spellings of a condition are exactly
      those that upper-case to its keyword. */
  lemma ConditionIgnoresCase(s: string, c: Condition)
    ensures ParseKeyword(ToUpper(s)) == Some(c) <==> ToUpper(s) == Keyword(c)
  {
    if ToUpper(s) == Keyword(c) {
      KeywordRoundTrip(c);
    }
  }

  /** `_empty`: EMPTY holds of the empty string, NOT_EMPTY of every other. */
  function Emptiness(wantEmpty: bool, rowValue: string): (r: bool)
    ensures r <==> (wantEmpty <==> |rowValue| == 0)
  {
    var blank := rowValue == "";
    if wantEmpty then blank else !blank
  }

  /** `_contains`: PHP 7 `strpos` finds the needle in the row value. A
      string needle is searched as text; a number stands for the one
      character whose code is its low byte; a date object converts (with a
      notice) to 1; a list is refused with a warning and `false`. */
  function ContainsTest(rowValue: string, v: QueryValue): (r: Result<bool, QueryError>)
    ensures v.Literal? ==> r == Ok(v.s != [] && exists i :: OccursAt(rowValue, v.s, i))
    ensures v.Number? ==> r == Ok((v.n % 256) as char in rowValue)
    ensures v.Moment? ==> r == Ok(1 as char in rowValue)
    ensures v.Items? || v.Period? ==> r == Ok(false)
  {
    match v
    case Literal(s) => Ok(Strpos(rowValue, s) != None)
    case Number(n) => Ok(CharFound(rowValue, (n % 256) as char))
    case Moment(_) => Ok(CharFound(rowValue, 1 as char))
    case _ => Ok(false)
  }

  /** `strpos` with a one-character needle. */
  function CharFound(hay: string, c: char): (r: bool)
    ensures r <==> c in hay
  {
    var p := Strpos(hay, [c]);
    if p.Some? then
      assert hay[p.value..p.value + 1] == [c];
      assert hay[p.value] == c;
      true
    else
      assert forall i :: 0 <= i < |hay| ==> !OccursAt(hay, [c], i);
      assert forall i :: 0 <= i < |hay| ==> hay[i] != c by {
        forall i | 0 <= i < |hay| ensures hay[i] != c {
          assert !OccursAt(hay, [c], i);
          assert hay[i..i + 1] == [hay[i]];
        }
      }
      false
  }

  /** `in_array($x, $xs)` with its default loose comparison. */
  function InArray(x: string, xs: seq<string>): (r: bool)
    ensures r <==> exists i :: 0 <= i < |xs| && LooseEquals(x, xs[i])
  {
    if xs == [] then false
    else
      var rest := InArray(x, xs[1..]);
      assert forall i :: 1 <= i < |xs| ==> xs[i] == xs[1..][i - 1];
      LooseEquals(x, xs[0]) || rest
  }

  /** `array_map('trim', $xs)`. */
  function TrimAll(xs: seq<string>): (r: seq<string>)
    ensures |r| == |xs| && forall i :: 0 <= i < |xs| ==> r[i] == Trim(xs[i])
  {
    seq(|xs|, i requires 0 <= i < |xs| => Trim(xs[i]))
  }

  /** `_in`: a string query value is first split on commas; every candidate
      is trimmed; the row matches when it loosely equals one of them. A
      number or a single date is not an array, so it reaches `str_getcsv`,
      which refuses it under strict types. A pair of dates is an array:
      `array_map` calls `trim` in weak mode, which warns on each date and
      yields `null`, and `null` loosely equals only the empty string. */
  function InTest(rowValue: string, v: QueryValue): (r: Result<bool, QueryError>)
    ensures v.Literal? ==> r == Ok(exists p :: p in SplitOn(v.s, ',') && LooseEquals(rowValue, Trim(p)))
    ensures v.Items? ==> r == Ok(exists p :: p in v.items && LooseEquals(rowValue, Trim(p)))
    ensures v.Period? ==> r == Ok(rowValue == "")
    ensures r.Err? <==> v.Number? || v.Moment?
    ensures r.Err? ==> r == Err(WrongValueType)
  {
    match v
    case Literal(s) =>
      var ps := SplitOn(s, ',');
      var r := InArray(rowValue, TrimAll(ps));
      assert r <==> exists p :: p in ps && LooseEquals(rowValue, Trim(p)) by {
        if r {
          var i :| 0 <= i < |ps| && LooseEquals(rowValue, TrimAll(ps)[i]);
          assert ps[i] in ps;
        }
      }
      Ok(r)
    case Items(xs) =>
      var r := InArray(rowValue, TrimAll(xs));
      assert r <==> exists p :: p in xs && LooseEquals(rowValue, Trim(p)) by {
        if r {
          var i :| 0 <= i < |xs| && LooseEquals(rowValue, TrimAll(xs)[i]);
          assert xs[i] in xs;
        }
      }
      Ok(r)
    case Period(_, _) => Ok(rowValue == "")
    case _ => Err(WrongValueType)
  }

  function CompareNumbers(op: Comparison, x: int, y: int): bool {
    match op
    case Equals => x == y
    case Not => x != y
    case Less => x < y
    case Greater => x > y
  }

  /** `_equality` as written. A numeric query value was cast when it was
      set, so the row value is cast too, with `(float)`: the guard
      `false === ($rowValue = (float) $rowValue)` never fires, because the
      cast yields a number for every string. A string query value is
      compared as a string (it is not numeric, so `<` is `strcmp` order).
      A list, a date or a pair of dates is never identical to a string,
      and PHP 7 orders every array, and every object that has no string
      conversion, above a string. */
  function EqualityAsWritten(op: Comparison, rowValue: string, v: QueryValue): (r: Result<bool, QueryError>)
    ensures r.Ok?
    ensures v.Number? ==> r == Ok(CompareNumbers(op, ToNumber(rowValue), v.n))
    ensures v.Literal? && op == Equals ==> r == Ok(rowValue == v.s)
    ensures v.Literal? && op == Not ==> r == Ok(rowValue != v.s)
    ensures v.Literal? && op == Less ==> r == Ok(LexLess(rowValue, v.s))
    ensures v.Literal? && op == Greater ==> r == Ok(LexLess(v.s, rowValue))
    ensures !v.Number? && !v.Literal? ==> r == Ok(op == Not || op == Less)
  {
    match v
    case Number(n) => Ok(CompareNumbers(op, ToNumber(rowValue), n))
    case Literal(s) =>
      Ok(match op
         case Equals => rowValue == s
         case Not => rowValue != s
         case Less => LexLess(rowValue, s)
         case Greater => LexLess(s, rowValue))
    case _ => Ok(op == Not || op == Less)
  }

  /** `_equality` as its guard intends: a row value that is not numeric,
      compared against a numeric query value, matches nothing. */
  function Equality(op: Comparison, rowValue: string, v: QueryValue): (r: Result<bool, QueryError>)
    ensures v.Number? && r == Ok(true) ==> IsNumeric(rowValue)
  {
    if v.Number? && !IsNumeric(rowValue) then Ok(false)
    else EqualityAsWritten(op, rowValue, v)
  }

  /** As written, NOT is exactly the negation of EQUALS. */
  lemma NotNegatesEqualsAsWritten(rowValue: string, v: QueryValue)
    ensures EqualityAsWritten(Equals, rowValue, v).Ok? == EqualityAsWritten(Not, rowValue, v).Ok?
    ensures EqualityAsWritten(Equals, rowValue, v).Ok? ==>
              EqualityAsWritten(Not, rowValue, v).value == !EqualityAsWritten(Equals, rowValue, v).value
  {
  }

  /** The dead guard: with the numeric query value 0, the non-numeric row
      value "abc" casts to 0 and EQUALS holds; the intended evaluator
      rejects it. */
  lemma EqualityGuardNeverFires()
    ensures EqualityAsWritten(Equals, "abc", Number(0)) == Ok(true)
    ensures Equality(Equals, "abc", Number(0)) == Ok(false)
  {
    assert LeadingDigits("abc") == [];
    assert !IsNumeric("abc") by { assert !IsDigit("abc"[0]); }
  }

  /** NOT is the negation of EQUALS, except that a non-numeric row value
      compared against a number satisfies neither. */
  lemma NotNegatesEquals(rowValue: string, v: QueryValue)
    ensures Equality(Equals, rowValue, v).Ok? == Equality(Not, rowValue, v).Ok?
    ensures v.Number? && !IsNumeric(rowValue) ==>
              Equality(Equals, rowValue, v) == Equality(Not, rowValue, v) == Ok(false)
    ensures !(v.Number? && !IsNumeric(rowValue)) && Equality(Equals, rowValue, v).Ok? ==>
              Equality(Not, rowValue, v).value == !Equality(Equals, rowValue, v).value
  {
  }

  /** GREATER and LESS never both hold, as written and as intended. */
  lemma GreaterLessExclusive(rowValue: string, v: QueryValue)
    ensures !(EqualityAsWritten(Greater, rowValue, v) == Ok(true) && EqualityAsWritten(Less, rowValue, v) == Ok(true))
    ensures !(Equality(Greater, rowValue, v) == Ok(true) && Equality(Less, rowValue, v) == Ok(true))
  {
    if v.Literal? {
      LexLessAsymmetric(rowValue, v.s);
    }
  }

  /** Against a numeric query value, a numeric row value is compared as a
      number: "007" EQUALS 7. */
  lemma NumbersComparedAsNumbers(op: Comparison, rowValue: string, n: int)
    requires IsNumeric(rowValue)
    ensures Equality(op, rowValue, Number(n)) == Ok(CompareNumbers(op, ToNumber(rowValue), n))
  {
  }

  /** `_date` as written. The row value is parsed with the format `where()`
      set (with no format, `createFromFormat(null, ...)` throws under strict
      types). A row value that does not parse is PHP's `false`, and `false`
      compares below any date object: BEFORE and NOT_BETWEEN then hold.
      A row value that parses is compared with a single date by `>`, `<`
      and `==` for AFTER, BEFORE and ON. BETWEEN and NOT_BETWEEN index the
      query value, which throws on a single date. AFTER, BEFORE and ON
      against a pair of dates compare with an array: PHP 7 cannot cast a
      date object to an array and orders it above the array, and orders
      `false` below a non-empty array, so AFTER holds exactly for a
      parsable row value, BEFORE exactly for an unparsable one, and ON
      never. A string, number or list stored as the value is not
      interpreted here. */
  function DateTestAsWritten(t: DateTest, rowValue: string, v: QueryValue, format: Option<string>,
                             parse: DateParser): (r: Result<bool, QueryError>)
    ensures format.None? ==> r == Err(NoDateFormat)
    ensures format.Some? && parse(format.value, rowValue).None? && r == Ok(true) ==> t == Before || t == NotBetween
    ensures r.Ok? <==> format.Some? && ((v.Moment? && !(t == Between || t == NotBetween)) || v.Period?)
    ensures format.Some? && v.Moment? && (t == Between || t == NotBetween) ==> r == Err(WrongValueType)
    ensures format.Some? && v.Period? && t == After ==> r == Ok(parse(format.value, rowValue).Some?)
    ensures format.Some? && v.Period? && t == Before ==> r == Ok(parse(format.value, rowValue).None?)
    ensures format.Some? && v.Period? && t == On ==> r == Ok(false)
    ensures format.Some? && v.Moment? && parse(format.value, rowValue).Some? ==>
              var d := parse(format.value, rowValue).value;
              (t == After ==> r == Ok(d > v.at)) && (t == Before ==> r == Ok(d < v.at)) && (t == On ==> r == Ok(d == v.at))
  {
    if format.None? then Err(NoDateFormat)
    else
      var d := parse(format.value, rowValue);
      match v
      case Moment(q) =>
        (match t
         case After => Ok(d.Some? && d.value > q)
         case Before => Ok(d.None? || d.value < q)
         case On => Ok(d.Some? && d.value == q)
         case Between => Err(WrongValueType)
         case NotBetween => Err(WrongValueType))
      case Period(lo, hi) =>
        (match t
         case Between => Ok(d.Some? && lo < d.value && d.value < hi)
         case NotBetween => Ok(d.None? || d.value < lo || d.value > hi)
         case After => Ok(d.Some?)
         case Before => Ok(d.None?)
         case On => Ok(false))
      case _ => Err(Incomparable)
  }

  /** `_date` as evidently intended: a row value that does not parse as a
      date matches no date condition. */
  function DateTestOf(t: DateTest, rowValue: string, v: QueryValue, format: Option<string>,
                      parse: DateParser): (r: Result<bool, QueryError>)
    ensures r == Ok(true) ==> format.Some? && parse(format.value, rowValue).Some?
  {
    var w := DateTestAsWritten(t, rowValue, v, format, parse);
    if w.Ok? && parse(format.value, rowValue).None? then Ok(false) else w
  }

  /** As written, a row value that does not parse satisfies BEFORE and
      NOT_BETWEEN; the intended evaluator rejects it. */
  lemma UnparsableDateMatchesAsWritten(rowValue: string, format: string, parse: DateParser,
                                       q: Instant, lo: Instant, hi: Instant)
    requires parse(format, rowValue).None?
    ensures DateTestAsWritten(Before, rowValue, Moment(q), Some(format), parse) == Ok(true)
    ensures DateTestAsWritten(NotBetween, rowValue, Period(lo, hi), Some(format), parse) == Ok(true)
    ensures DateTestOf(Before, rowValue, Moment(q), Some(format), parse) == Ok(false)
    ensures DateTestOf(NotBetween, rowValue, Period(lo, hi), Some(format), parse) == Ok(false)
  {
  }

  /** BETWEEN uses strict bounds, NOT_BETWEEN holds strictly outside them,
      the two never hold together, and a date equal to a bound satisfies
      neither (for a range whose start is not after its end). */
  lemma DateRangeBounds(rowValue: string, format: string, parse: DateParser, lo: Instant, hi: Instant)
    ensures DateTestOf(Between, rowValue, Period(lo, hi), Some(format), parse) == Ok(true) <==>
              parse(format, rowValue).Some? && lo < parse(format, rowValue).value < hi
    ensures DateTestOf(NotBetween, rowValue, Period(lo, hi), Some(format), parse) == Ok(true) <==>
              parse(format, rowValue).Some? &&
              (parse(format, rowValue).value < lo || parse(format, rowValue).value > hi)
    ensures !(DateTestOf(Between, rowValue, Period(lo, hi), Some(format), parse) == Ok(true) &&
              DateTestOf(NotBetween, rowValue, Period(lo, hi), Some(format), parse) == Ok(true))
    ensures lo <= hi && parse(format, rowValue) in {Some(lo), Some(hi)} ==>
              DateTestOf(Between, rowValue, Period(lo, hi), Some(format), parse) == Ok(false) &&
              DateTestOf(NotBetween, rowValue, Period(lo, hi), Some(format), parse) == Ok(false)
  {
  }

  /** The condition switch of `execute()`, with the evaluators as written
      (`asWritten`) or as intended. With no condition set no row matches,
      and the emptiness tests never fail. */
  function Evaluate(c: Option<Condition>, rowValue: string, v: QueryValue, format: Option<string>,
                    parse: DateParser, asWritten: bool): (r: Result<bool, QueryError>)
    ensures c.None? ==> r == Ok(false)
    ensures c == Some(Empty) || c == Some(NotEmpty) ==> r == Ok((c == Some(Empty)) == (rowValue == ""))
    ensures r.Err? ==> r.error in {WrongValueType, NoDateFormat, Incomparable}
    ensures !asWritten && c.Some? && c.value.Compare? && v.Number? && r == Ok(true) ==> IsNumeric(rowValue)
    ensures !asWritten && c.Some? && c.value.OnDate? && r == Ok(true) ==>
              format.Some? && parse(format.value, rowValue).Some?
  {
    match c
    case None => Ok(false)
    case Some(Compare(op)) =>
      if asWritten then EqualityAsWritten(op, rowValue, v) else Equality(op, rowValue, v)
    case Some(OnDate(t)) =>
      if asWritten then DateTestAsWritten(t, rowValue, v, format, parse) else DateTestOf(t, rowValue, v, format, parse)
    case Some(Empty) => Ok(Emptiness(true, rowValue))
    case Some(NotEmpty) => Ok(Emptiness(false, rowValue))
    case Some(Contains) => ContainsTest(rowValue, v)
    case Some(In) => InTest(rowValue, v)
  }
}
