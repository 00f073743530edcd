/**
 * The BitcoinExchange class: a price table from dates to rates, filled one
 * "date,rate" line at a time, and queried with "date | value" lines by the
 * greatest date not after the queried one. Dates are checked in the calendar
 * form YYYY-MM-DD of section 4.1.2.2 of ISO 8601:2004, with each field read by
 * std::stoi. Rates are reals; the parse of a decimal rate (std::stod) is a
 * parameter.
 */
module Exchange {
  import opened Wrappers
  import opened CNumbers

  // ---------------------------------------------------------------- dates

  /** The Gregorian leap-year rule. C++ `%` truncates, but a remainder is zero under both rules at once. */
  predicate IsLeap(year: int) {
    (year % 4 == 0 && year % 100 != 0) || year % 400 == 0
  }

  /** The days of each month of a common year, January first. */
  const DaysInMonth: seq<nat> := [31, 28, 31, 30, 31, 30, 31, 31, 30, 31, 30, 31]

  /** A day that exists in the given month of the given year. */
  predicate ValidDate(year: int, month: int, day: int) {
    1 <= month <= 12 && 1 <= day <= 31 &&
    if month == 2 then day <= (if IsLeap(year) then 29 else 28)
    else day <= DaysInMonth[month - 1]
  }

  /**
   * checkDate: ten characters with '-' at indices 4 and 7, the three fields read
   * by stoi, and the day within its month. A field stoi cannot read (it throws)
   * makes the date invalid. Since stoi skips leading white space, takes a sign
   * and ignores trailing characters, forms such as "2024-1x-05" are accepted too.
   */
  predicate CheckDate(date: string)
    ensures CheckDate(date) ==> |date| == 10 && date[4] == '-' && date[7] == '-'
  {
    if |date| != 10 || date[4] != '-' || date[7] != '-' then false
    else
      var year := Stoi(date[0..4]);
      var month := Stoi(date[5..7]);
      var day := Stoi(date[8..10]);
      if year.None? || month.None? || day.None? then false
      else ValidDate(year.value, month.value, day.value)
  }

  /** A date written as YYYY-MM-DD. */
  function Iso(year: nat, month: nat, day: nat): (s: string)
    ensures |s| == 10
  {
    Pad(year, 4) + "-" + Pad(month, 2) + "-" + Pad(day, 2)
  }

  /** checkDate accepts a date written as YYYY-MM-DD exactly when that day exists. */
  lemma CheckDateOfIso(year: nat, month: nat, day: nat)
    requires year < 10000 && month < 100 && day < 100
    ensures CheckDate(Iso(year, month, day)) <==> ValidDate(year, month, day)
  {
    var s := Iso(year, month, day);
    assert s[0..4] == Pad(year, 4);
    assert s[5..7] == Pad(month, 2);
    assert s[8..10] == Pad(day, 2);
    assert s[4] == '-' && s[7] == '-';
    assert Pow10(2) == 100 && Pow10(4) == 10000;
    StoiOfPad(year, 4);
    StoiOfPad(month, 2);
    StoiOfPad(day, 2);
  }

  /** February 29th of a four-digit year passes checkDate exactly in leap years. */
  lemma LeapDay(year: nat)
    requires year < 10000
    ensures CheckDate(Iso(year, 2, 29)) <==> IsLeap(year)
  {
    CheckDateOfIso(year, 2, 29);
  }

  /** The 31st passes checkDate only in the seven months of 31 days. */
  lemma ThirtyFirst(year: nat, month: nat)
    requires year < 10000 && 1 <= month <= 12
    ensures CheckDate(Iso(year, month, 31)) <==> month in {1, 3, 5, 7, 8, 10, 12}
  {
    CheckDateOfIso(year, month, 31);
  }

  // ---------------------------------------------------------------- rates

  /**
   * checkRate: stod must read the whole string (stod stands for std::stod with
   * the end position checked: None when it throws or stops early), the value must
   * not be negative, and an input value must not exceed 1000.
   */
  predicate CheckRate(rate: string, isInput: bool, stod: string -> Option<real>) {
    var v := stod(rate);
    v.Some? && v.value >= 0.0 && (isInput ==> v.value <= 1000.0)
  }

  // ---------------------------------------------------------------- key order

  /** std::string's operator<: lexicographic order on characters, a proper prefix first. */
  predicate StrLess(a: string, b: string)
    decreases |a|
  {
    if a == [] then b != []
    else if b == [] then false
    else if a[0] != b[0] then a[0] < b[0]
    else StrLess(a[1..], b[1..])
  }

  lemma {:induction false} StrLessIrreflexive(a: string)
    ensures !StrLess(a, a)
    decreases |a|
  {
    if a != [] {
      StrLessIrreflexive(a[1..]);
    }
  }

  lemma {:induction false} StrLessTransitive(a: string, b: string, c: string)
    requires StrLess(a, b) && StrLess(b, c)
    ensures StrLess(a, c)
    decreases |a|
  {
    if a != [] && b != [] && c != [] && a[0] == b[0] && b[0] == c[0] {
      StrLessTransitive(a[1..], b[1..], c[1..]);
    }
  }

  lemma {:induction false} StrLessTotal(a: string, b: string)
    ensures a == b || StrLess(a, b) || StrLess(b, a)
    decreases |a|
  {
    if a != [] && b != [] && a[0] == b[0] {
      StrLessTotal(a[1..], b[1..]);
      if a[1..] == b[1..] {
        assert a == [a[0]] + a[1..] && b == [b[0]] + b[1..];
      }
    }
  }

  /** The order is strict and total: what std::map needs of its key order. */
  lemma StrLessIsStrictTotalOrder()
    ensures forall a :: !StrLess(a, a)
    ensures forall a, b, c :: StrLess(a, b) && StrLess(b, c) ==> StrLess(a, c)
    ensures forall a, b :: a == b || StrLess(a, b) || StrLess(b, a)
  {
    forall a: string
      ensures !StrLess(a, a)
    {
      StrLessIrreflexive(a);
    }
    forall a: string, b: string, c: string | StrLess(a, b) && StrLess(b, c)
      ensures StrLess(a, c)
    {
      StrLessTransitive(a, b, c);
    }
    forall a: string, b: string
      ensures a == b || StrLess(a, b) || StrLess(b, a)
    {
      StrLessTotal(a, b);
    }
  }

  /** key is the greatest of keys that is not after date. */
  ghost predicate IsFloor(keys: set<string>, date: string, key: string) {
    key in keys && !StrLess(date, key) &&
    forall k :: k in keys && !StrLess(date, k) ==> !StrLess(key, k)
  }

  /**
   * The rate lookup of processFile: lower_bound(date) is the first key not
   * before date; if it is date itself it is taken, otherwise the key before it,
   * and when there is none no rate is available. This is the greatest key not
   * after date.
   */
  ghost function Floor(keys: set<string>, date: string): (key: Option<string>)
    ensures key.Some? ==> IsFloor(keys, date, key.value)
    ensures key.None? ==> forall k :: k in keys ==> StrLess(date, k)
    decreases keys
  {
    StrLessIsStrictTotalOrder();
    if keys == {} then None
    else
      var k :| k in keys;
      var rest := Floor(keys - {k}, date);
      if StrLess(date, k) then rest
      else if rest.None? || StrLess(rest.value, k) then Some(k)
      else rest
  }

  /** The floor is unique: any key with the floor property is the one the lookup finds. */
  lemma FloorUnique(keys: set<string>, date: string, key: string)
    requires IsFloor(keys, date, key)
    ensures Floor(keys, date) == Some(key)
  {
    StrLessIsStrictTotalOrder();
  }

  /** A date that is itself a key finds its own rate. */
  lemma FloorExact(keys: set<string>, date: string)
    requires date in keys
    ensures Floor(keys, date) == Some(date)
  {
    StrLessIsStrictTotalOrder();
    FloorUnique(keys, date, date);
  }

  lemma FloorOfKey(keys: set<string>, date: string)
    ensures date in keys ==> Floor(keys, date) == Some(date)
  {
    if date in keys {
      FloorExact(keys, date);
    }
  }

  /** Keys in the order std::map keeps them: strictly ascending. */
  ghost predicate Ascending(ks: seq<string>) {
    forall i, j :: 0 <= i < j < |ks| ==> StrLess(ks[i], ks[j])
  }

  lemma StrLessAsymmetric(a: string, b: string)
    requires StrLess(a, b)
    ensures !StrLess(b, a)
  {
    if StrLess(b, a) {
      StrLessTransitive(a, b, a);
      StrLessIrreflexive(a);
    }
  }

  /**
   * map::lower_bound(date) over the keys in map order: the index of the first
   * key that is not before date, or |ks| for end().
   */
  function KeyLowerBound(ks: seq<string>, date: string): (i: nat)
    ensures i <= |ks|
    ensures forall k :: 0 <= k < i ==> StrLess(ks[k], date)
    ensures i < |ks| ==> !StrLess(ks[i], date)
    decreases |ks|
  {
    if ks == [] || !StrLess(ks[0], date) then 0 else 1 + KeyLowerBound(ks[1..], date)
  }

  /**
   * The lookup steps of processFile: take lower_bound(date); when it is end() or
   * a key other than date, step back one key, unless it is begin(), in which case
   * no rate is available.
   */
  function LookupSteps(ks: seq<string>, date: string): (key: Option<string>)
    ensures key.Some? ==> key.value in ks
  {
    var i := KeyLowerBound(ks, date);
    if i == |ks| || ks[i] != date then
      if i == 0 then None else Some(ks[i - 1])
    else Some(ks[i])
  }

  /** Unless lower_bound found date itself, every key from it on is after date. */
  lemma AfterLowerBound(ks: seq<string>, date: string)
    requires Ascending(ks)
    ensures var i := KeyLowerBound(ks, date);
      i < |ks| && ks[i] != date ==> forall j :: i <= j < |ks| ==> StrLess(date, ks[j])
  {
    var i := KeyLowerBound(ks, date);
    if i < |ks| && ks[i] != date {
      StrLessTotal(date, ks[i]);
      forall j | i < j < |ks|
        ensures StrLess(date, ks[j])
      {
        StrLessTransitive(date, ks[i], ks[j]);
      }
    }
  }

  /** Over the keys in map order, the lookup steps of processFile find exactly the floor of the date. */
  lemma LookupIsFloor(ks: seq<string>, date: string)
    requires Ascending(ks)
    ensures LookupSteps(ks, date) == Floor((set k | k in ks), date)
  {
    var keys := set k | k in ks;
    var i := KeyLowerBound(ks, date);
    AfterLowerBound(ks, date);
    if i < |ks| && ks[i] == date {
      StrLessIrreflexive(date);
      FloorUnique(keys, date, date);
    } else if i == 0 {
      assert forall k :: k in keys ==> StrLess(date, k);
    } else {
      var b := ks[i - 1];
      StrLessAsymmetric(b, date);
      forall k | k in keys && !StrLess(date, k)
        ensures !StrLess(b, k)
      {
        var j :| 0 <= j < |ks| && ks[j] == k;
        if j < i - 1 {
          StrLessAsymmetric(ks[j], b);
        } else if j == i - 1 {
          StrLessIrreflexive(b);
        }
      }
      FloorUnique(keys, date, b);
    }
  }

  // ---------------------------------------------------------------- lines

  /** std::string::find of one character: the first index holding it, or |s| for npos. */
  function Find(s: string, c: char): (i: nat)
    ensures i <= |s|
    ensures i < |s| ==> s[i] == c
    ensures forall k :: 0 <= k < i ==> s[k] != c
    decreases |s|
  {
    if s == [] then 0
    else if s[0] == c then 0
    else 1 + Find(s[1..], c)
  }

  lemma FindAfter(s: string, c: char, rest: string)
    requires c !in s
    ensures Find(s + [c] + rest, c) == |s|
  {
    var t := s + [c] + rest;
    assert t[|s|] == c;
    forall k | 0 <= k < |s|
      ensures t[k] != c
    {
      assert t[k] == s[k];
    }
  }

  /** A "date | value" line split as processFile splits it. */
  datatype Query = Query(date: string, value: string)

  /** Why a query line cannot be split: no '|' (reported), or '|' too close to the end (substr throws out_of_range). */
  datatype SplitError = NoDelimiter | OutOfRange

  /**
   * The split of processFile: the date is everything before the character in
   * front of '|' (the whole line when '|' comes first, since pipePos - 1 then
   * wraps to npos), and the value is everything after the character following
   * '|'; substr throws when that is past the end.
   */
  function SplitQuery(line: string): (r: Result<Query, SplitError>)
    ensures r == Failure(NoDelimiter) <==> '|' !in line
    ensures r == Failure(OutOfRange) <==> '|' in line && Find(line, '|') + 2 > |line|
  {
    var p := Find(line, '|');
    if p == |line| then Failure(NoDelimiter)
    else if p + 2 > |line| then Failure(OutOfRange)
    else Success(Query(if p == 0 then line else line[..p - 1], line[p + 2..]))
  }

  lemma Parts<T>(a: seq<T>, m: seq<T>, b: seq<T>)
    ensures (a + m + b)[..|a|] == a && (a + m + b)[|a| + |m|..] == b
  {
  }

  lemma FindInQuery(date: string, value: string)
    requires '|' !in date
    ensures Find(date + " | " + value, '|') == |date| + 1
  {
    assert date + " | " + value == (date + [' ']) + ['|'] + (" " + value);
    FindAfter(date + [' '], '|', " " + value);
  }

  /** A line written as "date | value" splits back into its date and value. */
  lemma SplitQueryOfLine(date: string, value: string)
    requires '|' !in date
    ensures SplitQuery(date + " | " + value) == Success(Query(date, value))
  {
    FindInQuery(date, value);
    Parts(date, " | ", value);
  }

  /**
   * The split of fillLine: the date before the first ',' and the rate after it;
   * None when there is no ',' (fillLine throws "Invalid data line").
   */
  function SplitRecord(line: string): (r: Option<(string, string)>)
    ensures r.None? <==> ',' !in line
    ensures r.Some? ==> line == r.value.0 + "," + r.value.1 && ',' !in r.value.0
  {
    var p := Find(line, ',');
    if p == |line| then None
    else
      assert line == line[..p] + "," + line[p + 1..];
      Some((line[..p], line[p + 1..]))
  }

  /** A line written as "date,rate" splits back into its date and rate. */
  lemma SplitRecordOfLine(date: string, rate: string)
    requires ',' !in date
    ensures SplitRecord(date + "," + rate) == Some((date, rate))
  {
    FindAfter(date, ',', rate);
    var line := date + "," + rate;
    assert line[..|date|] == date && line[|date| + 1..] == rate;
  }

  /** What processFile reports for one input line; amount * rate is printed for the last one. */
  datatype Report =
    | Skipped
    | InvalidDelimiter(line: string)
    | InvalidDate(date: string)
    | InvalidValue(text: string)
    | NoRate(date: string)
    | Priced(date: string, amount: real, rate: real)

  class BitcoinExchange {
    var data: map<string, real>

    /** The table before any data line is read. Reading the data file is not part of this model. */
    constructor ()
      ensures data == map[]
    {
      data := map[];
    }

    /** The rate processFile uses for date: that of the greatest key not after it. */
    ghost function RateFor(date: string): (rate: Option<real>)
      reads this
      ensures rate.Some? <==> exists k :: k in data && !StrLess(date, k)
      ensures date in data ==> rate == Some(data[date])
      ensures rate.Some? ==> exists k :: IsFloor(data.Keys, date, k) && rate.value == data[k]
    {
      var key := Floor(data.Keys, date);
      FloorOfKey(data.Keys, date);
      if key.Some? then Some(data[key.value]) else None
    }

    /**
     * One iteration of processFile's loop: blank lines and the header are skipped;
     * then the split, the date check, the value check and the lookup, each failure
     * reported and the line skipped. Failure(OutOfRange) is the exception substr
     * throws, which processFile does not catch.
     */
    ghost function ProcessLine(line: string, stod: string -> Option<real>): (r: Result<Report, SplitError>)
      reads this
      ensures line == [] || line == "date | value" ==> r == Success(Skipped)
      ensures r.Success? && r.value.Priced? ==>
        CheckDate(r.value.date) && RateFor(r.value.date) == Some(r.value.rate) &&
        0.0 <= r.value.amount <= 1000.0
    {
      if line == [] || line == "date | value" then Success(Skipped)
      else
        match SplitQuery(line)
        case Failure(NoDelimiter) => Success(InvalidDelimiter(line))
        case Failure(e) => Failure(e)
        case Success(q) =>
          if !CheckDate(q.date) then Success(InvalidDate(q.date))
          else if !CheckRate(q.value, true, stod) then Success(InvalidValue(q.value))
          else
            var rate := RateFor(q.date);
            if rate.None? then Success(NoRate(q.date))
            else Success(Priced(q.date, stod(q.value).value, rate.value))
    }

    /** Over the table's keys in map order, the lookup steps of processFile give RateFor's rate. */
    lemma RateForIsLookup(ks: seq<string>, date: string)
      requires Ascending(ks) && (set k | k in ks) == data.Keys
      ensures var key := LookupSteps(ks, date);
        RateFor(date) == if key.Some? then Some(data[key.value]) else None
    {
      LookupIsFloor(ks, date);
    }

    /** A non-empty line without '|' is reported as an invalid delimiter. */
    lemma ProcessNoDelimiter(line: string, stod: string -> Option<real>)
      requires line != [] && '|' !in line
      ensures ProcessLine(line, stod) == Success(InvalidDelimiter(line))
    {
      assert "date | value"[5] == '|';
    }

    /**
     * A "date | value" line: the date check comes first, then the value check,
     * then the lookup; the line is priced exactly when all three succeed, and
     * nothing is thrown.
     */
    lemma ProcessQuery(date: string, value: string, stod: string -> Option<real>)
      requires '|' !in date && date + " | " + value != "date | value"
      ensures ProcessLine(date + " | " + value, stod).Success?
      ensures ProcessLine(date + " | " + value, stod).value == InvalidDate(date) <==> !CheckDate(date)
      ensures ProcessLine(date + " | " + value, stod).value == InvalidValue(value) <==>
        CheckDate(date) && !CheckRate(value, true, stod)
      ensures ProcessLine(date + " | " + value, stod).value == NoRate(date) <==>
        CheckDate(date) && CheckRate(value, true, stod) && RateFor(date).None?
      ensures CheckDate(date) && CheckRate(value, true, stod) && RateFor(date).Some? ==>
        ProcessLine(date + " | " + value, stod).value == Priced(date, stod(value).value, RateFor(date).value)
    {
      SplitQueryOfLine(date, value);
    }

    /**
     * fillLine: a line without ',' throws; a line whose date or rate fails its
     * check leaves the table as it was (the source reports it and returns);
     * otherwise the rate is stored under the date, replacing any earlier one.
     */
    method FillLine(line: string, stod: string -> Option<real>) returns (outcome: Outcome<string>)
      modifies this`data
      ensures outcome.Fail? <==> ',' !in line
      ensures data == Filled(old(data), line, stod)
    {
      var commaPos := Find(line, ',');
      if commaPos == |line| {
        return Fail("Invalid data line: " + line);
      }
      var date := line[..commaPos];
      if !CheckDate(date) {
        return Pass;
      }
      var rate := line[commaPos + 1..];
      if !CheckRate(rate, false, stod) {
        return Pass;
      }
      data := data[date := stod(rate).value];
      return Pass;
    }
  }

  /** The table after fillLine has read line. */
  function Filled(data: map<string, real>, line: string, stod: string -> Option<real>): map<string, real> {
    match SplitRecord(line)
    case None => data
    case Some((date, rate)) =>
      if CheckDate(date) && CheckRate(rate, false, stod) then data[date := stod(rate).value] else data
  }

  /**
   * A valid "date,rate" line stores the rate under its date, replacing an
   * earlier one, leaves every other date as it was, and a later query of that
   * date finds exactly that rate.
   */
  lemma FilledStores(data: map<string, real>, date: string, rate: string, stod: string -> Option<real>)
    requires ',' !in date && CheckDate(date) && CheckRate(rate, false, stod)
    ensures var d := Filled(data, date + "," + rate, stod);
      d == data[date := stod(rate).value] && Floor(d.Keys, date) == Some(date)
  {
    SplitRecordOfLine(date, rate);
    FloorExact(data.Keys + {date}, date);
    assert data[date := stod(rate).value].Keys == data.Keys + {date};
  }

  /** A line whose date or rate is rejected leaves the table unchanged. */
  lemma FilledRejects(data: map<string, real>, date: string, rate: string, stod: string -> Option<real>)
    requires ',' !in date && !(CheckDate(date) && CheckRate(rate, false, stod))
    ensures Filled(data, date + "," + rate, stod) == data
  {
    SplitRecordOfLine(date, rate);
  }
}
