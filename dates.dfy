/** The date normaliser `parse_date_input` of build/lib/hm_wrapper/_utils.py.

    A `datetime` or `date` object is rendered directly; any other value is
    treated as a text token and tried against twelve `strptime` formats
    (three field orders, two separators, two year widths). The first format
    that reads the whole token as a real calendar date wins and is rendered
    with `isoformat()`; when none does, `TypeError` is raised.

    Python iterates the two literal sets of orders and separators in an
    order fixed by string hashing, so both orders are parameters here
    (`orders`, `seps`), and the properties are proved for every permutation. */
module Dates {
  import opened Wrappers
  import opened Text

  /** The field orders 'M|D|Y', 'D|M|Y' and 'Y|M|D'. */
  datatype Order = MDY | DMY | YMD

  /** The year directive: `%y` (two digits) or `%Y` (four digits). */
  datatype Width = TwoDigit | FourDigit

  /** One `strptime` format: `order` with `|` replaced by `sep` and Y by the `width` directive. */
  datatype Candidate = Candidate(order: Order, sep: char, width: Width)

  datatype Date = Date(year: nat, month: nat, day: nat)

  datatype DateTime = DateTime(date: Date, hour: nat, minute: nat, second: nat, microsecond: nat)

  /** What `parse_date_input` dispatches on: a datetime, a date, or anything else, read as text. */
  datatype DateInput = DateTimeValue(dt: DateTime) | DateValue(d: Date) | TextToken(token: string)

  // ---------------------------------------------------------------------------
  // The proleptic Gregorian calendar of Python's datetime module

  predicate IsLeapYear(y: int) {
    y % 4 == 0 && (y % 100 != 0 || y % 400 == 0)
  }

  function DaysInMonth(y: int, m: int): (n: nat)
    requires 1 <= m <= 12
    ensures 28 <= n <= 31
  {
    if m == 2 then (if IsLeapYear(y) then 29 else 28)
    else if m == 4 || m == 6 || m == 9 || m == 11 then 30
    else 31
  }

  /** What `datetime.date(year, month, day)` accepts without raising ValueError (MINYEAR 1, MAXYEAR 9999). */
  predicate ValidDate(d: Date) {
    1 <= d.year <= 9999 && 1 <= d.month <= 12 && 1 <= d.day <= DaysInMonth(d.year, d.month)
  }

  predicate ValidDateTime(dt: DateTime) {
    ValidDate(dt.date) && dt.hour < 24 && dt.minute < 60 && dt.second < 60 && dt.microsecond < 1000000
  }

  function Midnight(d: Date): DateTime {
    DateTime(d, 0, 0, 0, 0)
  }

  // ---------------------------------------------------------------------------
  // The four strptime directives used by the candidate formats

  /** `%m`: one or two digits denoting 1 to 12. */
  function MonthField(f: string): (r: Option<nat>)
    ensures r.Some? ==> 1 <= r.value <= 12
  {
    if 1 <= |f| <= 2 && AllDigits(f) && 1 <= DigitsValue(f) <= 12 then Some(DigitsValue(f)) else None
  }

  /** `%d`: one or two digits denoting 1 to 31, or a space followed by a digit 1 to 9. */
  function DayField(f: string): (r: Option<nat>)
    ensures r.Some? ==> 1 <= r.value <= 31
  {
    if 1 <= |f| <= 2 && AllDigits(f) && 1 <= DigitsValue(f) <= 31 then Some(DigitsValue(f))
    else if |f| == 2 && f[0] == ' ' && IsDigit(f[1]) && f[1] != '0' then Some(DigitValue(f[1]))
    else None
  }

  /** The POSIX pivot for `%y`: 69 to 99 are 1969 to 1999, 00 to 68 are 2000 to 2068. */
  function Pivot(yy: nat): nat {
    if yy <= 68 then 2000 + yy else 1900 + yy
  }

  /** `%y`: exactly two digits, pivoted; `%Y`: exactly four digits. */
  function YearField(f: string, w: Width): (r: Option<nat>)
    ensures r.Some? ==> |f| == (if w == TwoDigit then 2 else 4)
  {
    match w
    case TwoDigit => if |f| == 2 && AllDigits(f) then Some(Pivot(DigitsValue(f))) else None
    case FourDigit => if |f| == 4 && AllDigits(f) then Some(DigitsValue(f)) else None
  }

  /** The text of the fields a directive accepts is digits and spaces only. */
  lemma FieldsHaveNoSeparator(f: string, w: Width, sep: char)
    requires sep == '-' || sep == '/'
    requires MonthField(f).Some? || DayField(f).Some? || YearField(f, w).Some?
    ensures sep !in f
  {
    assert forall k :: 0 <= k < |f| ==> IsDigit(f[k]) || f[k] == ' ';
  }

  // ---------------------------------------------------------------------------
  // Trying one candidate format

  /** The three pieces of `token` between the first two occurrences of `sep`;
      the last piece is the rest of the token, which a directive rejects if
      it still holds a separator. */
  function SplitThree(token: string, sep: char): Option<(string, string, string)> {
    match IndexOf(token, sep)
    case None => None
    case Some(i) =>
      var rest := token[i + 1..];
      match IndexOf(rest, sep)
      case None => None
      case Some(j) => Some((token[..i], rest[..j], rest[j + 1..]))
  }

  lemma SplitThreeOf(f1: string, f2: string, f3: string, sep: char)
    requires sep !in f1 && sep !in f2
    ensures SplitThree(f1 + [sep] + f2 + [sep] + f3, sep) == Some((f1, f2, f3))
  {
    var token := f1 + [sep] + f2 + [sep] + f3;
    assert token[..|f1|] == f1;
    IndexOfAt(token, sep, |f1|);
    var rest := token[|f1| + 1..];
    assert rest == f2 + [sep] + f3;
    assert rest[..|f2|] == f2;
    IndexOfAt(rest, sep, |f2|);
    assert rest[|f2| + 1..] == f3;
  }

  /** A text is what comes before position `i`, the character there, and what comes after. */
  lemma SplitAround(s: string, i: nat)
    requires i < |s|
    ensures s == s[..i] + [s[i]] + s[i + 1..]
  {
  }

  lemma SplitThreeJoins(token: string, sep: char)
    requires SplitThree(token, sep).Some?
    ensures var (a, b, z) := SplitThree(token, sep).value; token == a + [sep] + b + [sep] + z
  {
    var i := IndexOf(token, sep).value;
    var rest := token[i + 1..];
    var j := IndexOf(rest, sep).value;
    var a, b, z := token[..i], rest[..j], rest[j + 1..];
    assert SplitThree(token, sep).value == (a, b, z);
    SplitAround(token, i);
    SplitAround(rest, j);
    var p := a + [sep];
    ConcatAssoc(p + b, [sep], z);
    ConcatAssoc(p, b, [sep] + z);
    ConcatAssoc(b, [sep], z);
  }

  /** The (year, month, day) texts among the fields, in the candidate's field order. */
  function Arrange(order: Order, a: string, b: string, c: string): (string, string, string) {
    match order
    case MDY => (c, a, b)
    case DMY => (c, b, a)
    case YMD => (a, b, c)
  }

  /** The date the three field texts name under the candidate's field order and year width,
      or None when a directive rejects its field or the date does not exist. */
  function ReadFields(c: Candidate, f1: string, f2: string, f3: string): (r: Option<DateTime>)
    ensures r.Some? ==> ValidDateTime(r.value) && r.value == Midnight(r.value.date)
  {
    var (yf, mf, df) := Arrange(c.order, f1, f2, f3);
    var y := YearField(yf, c.width);
    var m := MonthField(mf);
    var d := DayField(df);
    if y.Some? && m.Some? && d.Some? && ValidDate(Date(y.value, m.value, d.value))
    then Some(Midnight(Date(y.value, m.value, d.value)))
    else None
  }

  /** `datetime.datetime.strptime(token, format)` for one candidate format:
      the parsed date at midnight, or None where strptime raises ValueError. */
  function TryParse(token: string, c: Candidate): (r: Option<DateTime>)
    ensures r.Some? ==> c.sep in token
    ensures r.Some? ==> ValidDateTime(r.value) && r.value == Midnight(r.value.date)
  {
    match SplitThree(token, c.sep)
    case None => None
    case Some(parts) => ReadFields(c, parts.0, parts.1, parts.2)
  }

  /** The declarative reading of a format: the whole token is field, separator, field, the same separator, field. */
  ghost predicate Matches(token: string, c: Candidate, dt: DateTime) {
    exists f1, f2, f3 {:trigger ReadFields(c, f1, f2, f3)} ::
      token == f1 + [c.sep] + f2 + [c.sep] + f3 && ReadFields(c, f1, f2, f3) == Some(dt)
  }

  /** TryParse succeeds with `dt` exactly when the whole token matches the format and names `dt`:
      nothing is left over and both separators are the candidate's. */
  lemma TryParseExact(token: string, c: Candidate, dt: DateTime)
    requires c.sep == '-' || c.sep == '/'
    ensures TryParse(token, c) == Some(dt) <==> Matches(token, c, dt)
  {
    if TryParse(token, c) == Some(dt) {
      TryParseSound(token, c, dt);
    }
    if Matches(token, c, dt) {
      var f1, f2, f3 :| token == f1 + [c.sep] + f2 + [c.sep] + f3 && ReadFields(c, f1, f2, f3) == Some(dt);
      TryParseComplete(f1, f2, f3, c, dt);
    }
  }

  lemma TryParseSound(token: string, c: Candidate, dt: DateTime)
    requires TryParse(token, c) == Some(dt)
    ensures Matches(token, c, dt)
  {
    var parts := SplitThree(token, c.sep).value;
    SplitThreeJoins(token, c.sep);
    assert ReadFields(c, parts.0, parts.1, parts.2) == Some(dt);
  }

  lemma TryParseComplete(f1: string, f2: string, f3: string, c: Candidate, dt: DateTime)
    requires c.sep == '-' || c.sep == '/'
    requires ReadFields(c, f1, f2, f3) == Some(dt)
    ensures TryParse(f1 + [c.sep] + f2 + [c.sep] + f3, c) == Some(dt)
  {
    var (yf, mf, df) := Arrange(c.order, f1, f2, f3);
    FieldsHaveNoSeparator(f1, c.width, c.sep);
    FieldsHaveNoSeparator(f2, c.width, c.sep);
    SplitThreeOf(f1, f2, f3, c.sep);
  }

  /** Within one (order, separator) pair `%y` and `%Y` never both succeed: the year field is the same text
      and would need exactly two and exactly four digits. */
  lemma WidthsExclusive(token: string, o: Order, sep: char)
    ensures TryParse(token, Candidate(o, sep, TwoDigit)).None? || TryParse(token, Candidate(o, sep, FourDigit)).None?
  {
  }

  // ---------------------------------------------------------------------------
  // The candidate sequence and the first-match search

  predicate OrderPermutation(orders: seq<Order>) {
    |orders| == 3 && MDY in orders && DMY in orders && YMD in orders
  }

  predicate SepPermutation(seps: seq<char>) {
    |seps| == 2 && '-' in seps && '/' in seps
  }

  /** Every order is in a permutation of the three. */
  lemma OrderPermutationMembers(orders: seq<Order>, o: Order)
    requires OrderPermutation(orders)
    ensures o in orders
  {
  }

  /** The separators of a permutation are exactly the hyphen and the slash. */
  lemma SepPermutationMembers(seps: seq<char>, ch: char)
    requires SepPermutation(seps)
    ensures ch in seps <==> ch == '-' || ch == '/'
  {
    assert seps == [seps[0], seps[1]];
  }

  /** For one (order, separator) pair: `%y` first, then `%Y`. */
  function PairCandidates(o: Order, sep: char): seq<Candidate> {
    [Candidate(o, sep, TwoDigit), Candidate(o, sep, FourDigit)]
  }

  /** For one order, separators in turn (the inner loop). */
  function OrderCandidates(o: Order, seps: seq<char>): seq<Candidate> {
    if |seps| == 0 then [] else PairCandidates(o, seps[0]) + OrderCandidates(o, seps[1..])
  }

  /** Orders outer, separators inner, `%y` before `%Y`. */
  function Candidates(orders: seq<Order>, seps: seq<char>): seq<Candidate> {
    if |orders| == 0 then [] else OrderCandidates(orders[0], seps) + Candidates(orders[1..], seps)
  }

  lemma {:induction false} OrderCandidatesAppend(o: Order, a: seq<char>, b: seq<char>)
    ensures OrderCandidates(o, a + b) == OrderCandidates(o, a) + OrderCandidates(o, b)
  {
    if |a| > 0 {
      assert (a + b)[1..] == a[1..] + b;
      OrderCandidatesAppend(o, a[1..], b);
    } else {
      assert a + b == b;
    }
  }

  lemma {:induction false} CandidatesAppend(a: seq<Order>, b: seq<Order>, seps: seq<char>)
    ensures Candidates(a + b, seps) == Candidates(a, seps) + Candidates(b, seps)
  {
    if |a| > 0 {
      assert (a + b)[1..] == a[1..] + b;
      CandidatesAppend(a[1..], b, seps);
    } else {
      assert a + b == b;
    }
  }

  lemma {:induction false} OrderCandidatesMembers(o: Order, seps: seq<char>, c: Candidate)
    ensures c in OrderCandidates(o, seps) <==> c.order == o && c.sep in seps
  {
    if |seps| > 0 {
      OrderCandidatesMembers(o, seps[1..], c);
      assert c.sep in seps <==> c.sep == seps[0] || c.sep in seps[1..];
      if c.order == o && c.sep == seps[0] {
        var pair := PairCandidates(o, seps[0]);
        if c.width == TwoDigit {
          assert c == pair[0];
        } else {
          assert c == pair[1];
        }
      }
    }
  }

  /** The search tries exactly the candidates built from the given orders and separators, with both widths. */
  lemma {:induction false} CandidatesMembers(orders: seq<Order>, seps: seq<char>, c: Candidate)
    ensures c in Candidates(orders, seps) <==> c.order in orders && c.sep in seps
  {
    if |orders| > 0 {
      OrderCandidatesMembers(orders[0], seps, c);
      CandidatesMembers(orders[1..], seps, c);
      assert orders == [orders[0]] + orders[1..];
    }
  }

  /** The first present value of a sequence of attempts. */
  function FirstSome<T>(xs: seq<Option<T>>): Option<T> {
    if |xs| == 0 then None else if xs[0].Some? then xs[0] else FirstSome(xs[1..])
  }

  lemma {:induction false} FirstSomeAppend<T>(a: seq<Option<T>>, b: seq<Option<T>>)
    ensures FirstSome(a + b) == if FirstSome(a).Some? then FirstSome(a) else FirstSome(b)
  {
    if |a| > 0 {
      assert (a + b)[1..] == a[1..] + b;
      FirstSomeAppend(a[1..], b);
    } else {
      assert a + b == b;
    }
  }

  lemma {:induction false} FirstSomeIsFirst<T>(xs: seq<Option<T>>)
    ensures FirstSome(xs).None? <==> forall k :: 0 <= k < |xs| ==> xs[k].None?
    ensures FirstSome(xs).Some? ==>
              exists k :: 0 <= k < |xs| && xs[k] == FirstSome(xs) && forall j :: 0 <= j < k ==> xs[j].None?
  {
    if |xs| > 0 {
      FirstSomeIsFirst(xs[1..]);
      if xs[0].None? {
        if FirstSome(xs[1..]).Some? {
          var k :| 0 <= k < |xs[1..]| && xs[1..][k] == FirstSome(xs[1..]) && forall j :: 0 <= j < k ==> xs[1..][j].None?;
          assert xs[k + 1] == FirstSome(xs);
          assert forall j :: 0 <= j < k + 1 ==> xs[j].None? by {
            forall j | 0 <= j < k + 1 ensures xs[j].None? {
              if j > 0 {
                assert xs[j] == xs[1..][j - 1];
              }
            }
          }
        } else {
          forall k | 0 <= k < |xs| ensures xs[k].None? {
            if k > 0 {
              assert xs[k] == xs[1..][k - 1];
            }
          }
        }
      } else {
        assert xs[0] == FirstSome(xs);
      }
    }
  }

  /** The outcome of trying each candidate in turn. */
  function Attempts(token: string, cs: seq<Candidate>): seq<Option<DateTime>> {
    seq(|cs|, k requires 0 <= k < |cs| => TryParse(token, cs[k]))
  }

  lemma AttemptsAppend(token: string, a: seq<Candidate>, b: seq<Candidate>)
    ensures Attempts(token, a + b) == Attempts(token, a) + Attempts(token, b)
  {
  }

  /** The first candidate that reads the token, in sequence order. */
  function FirstMatch(token: string, cs: seq<Candidate>): Option<DateTime> {
    FirstSome(Attempts(token, cs))
  }

  lemma FirstMatchAppend(token: string, a: seq<Candidate>, b: seq<Candidate>)
    ensures FirstMatch(token, a + b) == if FirstMatch(token, a).Some? then FirstMatch(token, a) else FirstMatch(token, b)
  {
    AttemptsAppend(token, a, b);
    FirstSomeAppend(Attempts(token, a), Attempts(token, b));
  }

  lemma FirstMatchPair(token: string, o: Order, sep: char)
    ensures FirstMatch(token, PairCandidates(o, sep))
         == if TryParse(token, Candidate(o, sep, TwoDigit)).Some? then TryParse(token, Candidate(o, sep, TwoDigit))
            else TryParse(token, Candidate(o, sep, FourDigit))
  {
    var xs := Attempts(token, PairCandidates(o, sep));
    assert xs == [TryParse(token, Candidate(o, sep, TwoDigit)), TryParse(token, Candidate(o, sep, FourDigit))];
    assert FirstSome(xs[1..][1..]) == None by { assert xs[1..][1..] == []; }
    assert FirstSome(xs[1..]) == xs[1];
    assert FirstMatch(token, PairCandidates(o, sep)) == FirstSome(xs);
  }

  /** Failure: the search finds nothing exactly when every candidate fails. */
  lemma FirstMatchFailsExactly(token: string, cs: seq<Candidate>)
    ensures FirstMatch(token, cs).None? <==> forall k :: 0 <= k < |cs| ==> TryParse(token, cs[k]).None?
  {
    var xs := Attempts(token, cs);
    FirstSomeIsFirst(xs);
    assert forall k :: 0 <= k < |cs| ==> xs[k] == TryParse(token, cs[k]);
  }

  /** Search order: a successful search returns the result of some candidate all of whose predecessors
      failed, so no later candidate replaces it. */
  lemma FirstMatchIsFirstSuccess(token: string, cs: seq<Candidate>)
    requires FirstMatch(token, cs).Some?
    ensures exists k :: 0 <= k < |cs| && TryParse(token, cs[k]) == FirstMatch(token, cs)
                        && forall j :: 0 <= j < k ==> TryParse(token, cs[j]).None?
  {
    var xs := Attempts(token, cs);
    FirstSomeIsFirst(xs);
    var k :| 0 <= k < |xs| && xs[k] == FirstSome(xs) && forall j :: 0 <= j < k ==> xs[j].None?;
    assert TryParse(token, cs[k]) == FirstMatch(token, cs);
    assert forall j :: 0 <= j < k ==> xs[j] == TryParse(token, cs[j]);
  }

  /** When every candidate that reads the token names the same date-time and one of them is tried,
      the search returns that date-time, wherever the successful candidates sit in the sequence. */
  lemma AgreeingSuccess(token: string, cs: seq<Candidate>, dt: DateTime)
    requires exists c :: c in cs && TryParse(token, c) == Some(dt)
    requires forall c :: c in cs && TryParse(token, c).Some? ==> TryParse(token, c) == Some(dt)
    ensures FirstMatch(token, cs) == Some(dt)
  {
    FirstMatchFailsExactly(token, cs);
    var c :| c in cs && TryParse(token, c) == Some(dt);
    var i :| 0 <= i < |cs| && cs[i] == c;
    assert TryParse(token, cs[i]).Some?;
    FirstMatchIsFirstSuccess(token, cs);
    var k :| 0 <= k < |cs| && TryParse(token, cs[k]) == FirstMatch(token, cs);
    assert cs[k] in cs;
  }

  /** When no candidate reads the token, the search finds nothing. */
  lemma NoSuccess(token: string, cs: seq<Candidate>)
    requires forall c :: c in cs ==> TryParse(token, c).None?
    ensures FirstMatch(token, cs).None?
  {
    FirstMatchFailsExactly(token, cs);
    assert forall k :: 0 <= k < |cs| ==> cs[k] in cs;
  }

  /** A successful search names a real calendar date at midnight. */
  lemma FirstMatchIsMidnight(token: string, cs: seq<Candidate>)
    requires FirstMatch(token, cs).Some?
    ensures ValidDateTime(FirstMatch(token, cs).value)
    ensures FirstMatch(token, cs).value == Midnight(FirstMatch(token, cs).value.date)
  {
    FirstMatchIsFirstSuccess(token, cs);
  }

  /** When every format that reads the token names the same date-time, the iteration order of the
      orders and separators does not matter. */
  lemma OrderIndependent(token: string, orders1: seq<Order>, seps1: seq<char>, orders2: seq<Order>, seps2: seq<char>)
    requires OrderPermutation(orders1) && SepPermutation(seps1)
    requires OrderPermutation(orders2) && SepPermutation(seps2)
    requires forall c1: Candidate, c2: Candidate ::
      (c1.sep == '-' || c1.sep == '/') && (c2.sep == '-' || c2.sep == '/') && TryParse(token, c1).Some? && TryParse(token, c2).Some?
      ==> TryParse(token, c1) == TryParse(token, c2)
    ensures FirstMatch(token, Candidates(orders1, seps1)) == FirstMatch(token, Candidates(orders2, seps2))
  {
    var cs1, cs2 := Candidates(orders1, seps1), Candidates(orders2, seps2);
    forall c ensures (c in cs1 <==> c in cs2) && (c in cs1 ==> c.sep == '-' || c.sep == '/') {
      OrderPermutationMembers(orders1, c.order);
      OrderPermutationMembers(orders2, c.order);
      SepPermutationMembers(seps1, c.sep);
      SepPermutationMembers(seps2, c.sep);
      CandidatesMembers(orders1, seps1, c);
      CandidatesMembers(orders2, seps2, c);
    }
    if c :| c in cs1 && TryParse(token, c).Some? {
      AgreeingSuccess(token, cs1, TryParse(token, c).value);
      AgreeingSuccess(token, cs2, TryParse(token, c).value);
    } else {
      NoSuccess(token, cs1);
      NoSuccess(token, cs2);
    }
  }

  // ---------------------------------------------------------------------------
  // ISO 8601 rendering (ISO 8601:2004 section 4.3.2, extended format)

  /** `date.isoformat()`: YYYY-MM-DD. */
  function IsoDate(d: Date): (r: string)
    ensures |r| == 10 && r[4] == '-' && r[7] == '-'
  {
    PadDigits(d.year, 4) + "-" + PadDigits(d.month, 2) + "-" + PadDigits(d.day, 2)
  }

  /** `datetime.isoformat(timespec='seconds')`: YYYY-MM-DDTHH:MM:SS, the microseconds dropped. */
  function IsoSeconds(dt: DateTime): (r: string)
    ensures |r| == 19 && r[..10] == IsoDate(dt.date) && r[10] == 'T' && r[13] == ':' && r[16] == ':'
    ensures AllDigits(r[11..13]) && AllDigits(r[14..16]) && AllDigits(r[17..])
  {
    var r := IsoDate(dt.date) + "T" + PadDigits(dt.hour, 2) + ":" + PadDigits(dt.minute, 2) + ":" + PadDigits(dt.second, 2);
    assert r[..10] == IsoDate(dt.date);
    assert r[11..13] == PadDigits(dt.hour, 2);
    assert r[14..16] == PadDigits(dt.minute, 2);
    assert r[17..] == PadDigits(dt.second, 2);
    r
  }

  /** `datetime.isoformat()`: as with seconds, plus .ffffff only when the microseconds are not zero. */
  function IsoFormat(dt: DateTime): (r: string)
    ensures |r| >= 19 && r[..19] == IsoSeconds(dt)
    ensures |r| == 19 <==> dt.microsecond == 0
    ensures dt.microsecond != 0 ==> |r| == 26 && r[19] == '.'
  {
    var r := IsoSeconds(dt) + (if dt.microsecond != 0 then "." + PadDigits(dt.microsecond, 6) else "");
    assert r[..19] == IsoSeconds(dt);
    r
  }

  // ---------------------------------------------------------------------------
  // The normaliser

  /** What `parse_date_input` returns, with the datetime and date branches doing what the docstring
      says they do (the source as written raises TypeError there: see NormaliseAsWritten). */
  function Normalise(input: DateInput, orders: seq<Order>, seps: seq<char>): (r: Result<string, Raised>)
    ensures r.Failure? ==> input.TextToken? && r.error == TypeError
    ensures input.DateValue? ==> |r.value| == 10
    ensures input.DateTimeValue? ==> |r.value| == 19
  {
    match input
    case DateTimeValue(dt) => Success(IsoSeconds(dt))
    case DateValue(d) => Success(IsoDate(d))
    case TextToken(token) =>
      match FirstMatch(token, Candidates(orders, seps))
      case Some(dt) => Success(IsoFormat(dt))
      case None => Failure(TypeError)
  }

  /** `parse_date_input` as written: lines 13 and 15 pass the object itself to the `datetime`
      and `date` constructors, which take integers, so both branches raise TypeError. */
  function NormaliseAsWritten(input: DateInput, orders: seq<Order>, seps: seq<char>): (r: Result<string, Raised>)
    ensures r.Success? ==> input.TextToken?
    ensures r.Failure? ==> r.error == TypeError
  {
    match input
    case DateTimeValue(_) => Failure(TypeError)
    case DateValue(_) => Failure(TypeError)
    case TextToken(_) => Normalise(input, orders, seps)
  }

  /** One pass of the inner loop: while nothing has matched, trying the pair for `seps[j]` extends the search by that pair,
      and a success there is the result for the whole order. */
  lemma PairStep(token: string, o: Order, seps: seq<char>, j: nat)
    requires j < |seps|
    requires FirstMatch(token, OrderCandidates(o, seps[..j])).None?
    ensures FirstMatch(token, OrderCandidates(o, seps[..j + 1])) == FirstMatch(token, PairCandidates(o, seps[j]))
    ensures FirstMatch(token, PairCandidates(o, seps[j])).Some? ==>
              FirstMatch(token, OrderCandidates(o, seps)) == FirstMatch(token, PairCandidates(o, seps[j]))
  {
    OrderCandidatesAppend(o, seps[..j], [seps[j]]);
    assert seps[..j + 1] == seps[..j] + [seps[j]];
    assert OrderCandidates(o, [seps[j]]) == PairCandidates(o, seps[j]);
    FirstMatchAppend(token, OrderCandidates(o, seps[..j]), PairCandidates(o, seps[j]));
    OrderCandidatesAppend(o, seps[..j + 1], seps[j + 1..]);
    assert seps == seps[..j + 1] + seps[j + 1..];
    FirstMatchAppend(token, OrderCandidates(o, seps[..j + 1]), OrderCandidates(o, seps[j + 1..]));
  }

  /** One pass of the outer loop: while nothing has matched, order `orders[i]` extends the search by its candidates. */
  lemma OrderStep(token: string, orders: seq<Order>, seps: seq<char>, i: nat)
    requires i < |orders|
    requires FirstMatch(token, Candidates(orders[..i], seps)).None?
    ensures FirstMatch(token, Candidates(orders[..i + 1], seps)) == FirstMatch(token, OrderCandidates(orders[i], seps))
  {
    CandidatesAppend(orders[..i], [orders[i]], seps);
    assert orders[..i + 1] == orders[..i] + [orders[i]];
    assert Candidates([orders[i]][1..], seps) == [] by { assert [orders[i]][1..] == []; }
    assert Candidates([orders[i]], seps) == OrderCandidates(orders[i], seps) + [];
    assert OrderCandidates(orders[i], seps) + [] == OrderCandidates(orders[i], seps);
    FirstMatchAppend(token, Candidates(orders[..i], seps), OrderCandidates(orders[i], seps));
  }

  /** Once the candidates of the first `i` orders have produced a match, the later orders cannot change it. */
  lemma PrefixDecides(token: string, orders: seq<Order>, seps: seq<char>, i: nat)
    requires i <= |orders|
    requires FirstMatch(token, Candidates(orders[..i], seps)).Some? || i == |orders|
    ensures FirstMatch(token, Candidates(orders, seps)) == FirstMatch(token, Candidates(orders[..i], seps))
  {
    CandidatesAppend(orders[..i], orders[i..], seps);
    assert orders == orders[..i] + orders[i..];
    FirstMatchAppend(token, Candidates(orders[..i], seps), Candidates(orders[i..], seps));
    if i == |orders| {
      assert orders[i..] == [];
    }
  }

  /** The inner loop of `parse_date_input` for one order: separators in turn, `%y` tried before `%Y`,
      leaving the loop at the first success. */
  method SearchOrder(token: string, o: Order, seps: seq<char>) returns (found: Option<DateTime>)
    ensures found == FirstMatch(token, OrderCandidates(o, seps))
  {
    found := None;
    var j := 0;
    while j < |seps|
      invariant 0 <= j <= |seps|
      invariant FirstMatch(token, OrderCandidates(o, seps[..j])).None?
    {
      var result := TryParse(token, Candidate(o, seps[j], TwoDigit));
      if result.None? {
        result := TryParse(token, Candidate(o, seps[j], FourDigit));
      }
      FirstMatchPair(token, o, seps[j]);
      PairStep(token, o, seps, j);
      if result.Some? {
        found := result;
        return;
      }
      j := j + 1;
    }
    assert seps[..|seps|] == seps;
  }

  /** `parse_date_input`: the type dispatch, then the outer search loop over the orders, which stops
      once an order has produced a date-time. */
  method ParseDateInput(input: DateInput, orders: seq<Order>, seps: seq<char>) returns (r: Result<string, Raised>)
    ensures r == Normalise(input, orders, seps)
  {
    match input {
      case DateTimeValue(dt) =>
        r := Success(IsoSeconds(dt));
      case DateValue(d) =>
        r := Success(IsoDate(d));
      case TextToken(token) =>
        var found: Option<DateTime> := None;
        var i := 0;
        while i < |orders|
          invariant 0 <= i <= |orders|
          invariant found == FirstMatch(token, Candidates(orders[..i], seps))
        {
          if found.Some? {
            break;
          }
          found := SearchOrder(token, orders[i], seps);
          OrderStep(token, orders, seps, i);
          i := i + 1;
        }
        PrefixDecides(token, orders, seps, i);
        if found.Some? {
          r := Success(IsoFormat(found.value));
        } else {
          r := Failure(TypeError);
        }
    }
  }

  // ---------------------------------------------------------------------------
  // Properties of the rendering and of the whole normaliser

  /** The date text is fixed-width: four year digits, two month digits and two day digits that read
      back as the date, separated by hyphens. */
  lemma IsoDateFields(d: Date)
    requires ValidDate(d)
    ensures var s := IsoDate(d);
            |s| == 10 && s[4] == '-' && s[7] == '-'
            && AllDigits(s[..4]) && AllDigits(s[5..7]) && AllDigits(s[8..])
            && DigitsValue(s[..4]) == d.year && DigitsValue(s[5..7]) == d.month && DigitsValue(s[8..]) == d.day
  {
    var s := IsoDate(d);
    assert Pow10(4) == 10000 && Pow10(2) == 100;
    PadDigitsValue(d.year, 4);
    PadDigitsValue(d.month, 2);
    PadDigitsValue(d.day, 2);
    assert s[..4] == PadDigits(d.year, 4);
    assert s[5..7] == PadDigits(d.month, 2);
    assert s[8..] == PadDigits(d.day, 2);
  }

  /** The time text is three two-digit fields that read back as the hour, minute and second. */
  lemma IsoSecondsFields(dt: DateTime)
    requires ValidDateTime(dt)
    ensures var s := IsoSeconds(dt);
            DigitsValue(s[11..13]) == dt.hour && DigitsValue(s[14..16]) == dt.minute && DigitsValue(s[17..]) == dt.second
  {
    var s := IsoSeconds(dt);
    assert Pow10(2) == 100;
    PadDigitsValue(dt.hour, 2);
    PadDigitsValue(dt.minute, 2);
    PadDigitsValue(dt.second, 2);
    assert s[11..13] == PadDigits(dt.hour, 2);
    assert s[14..16] == PadDigits(dt.minute, 2);
    assert s[17..] == PadDigits(dt.second, 2);
  }

  /** A date read from text carries no time of day: its rendering is the date followed by T00:00:00. */
  lemma IsoMidnight(d: Date)
    ensures IsoFormat(Midnight(d)) == IsoDate(d) + "T00:00:00"
  {
    assert PadDigits(0, 2) == "00";
  }

  /** Every successful reading of a text token renders a real calendar date at midnight. */
  lemma TextResultIsMidnight(token: string, orders: seq<Order>, seps: seq<char>)
    requires Normalise(TextToken(token), orders, seps).Success?
    ensures exists d :: ValidDate(d) && Normalise(TextToken(token), orders, seps).value == IsoDate(d) + "T00:00:00"
  {
    var cs := Candidates(orders, seps);
    FirstMatchIsMidnight(token, cs);
    var d := FirstMatch(token, cs).value.date;
    IsoMidnight(d);
  }

  /** A text token that no format reads raises TypeError. */
  lemma TextFailsWhenNoneReads(token: string, orders: seq<Order>, seps: seq<char>)
    requires forall c: Candidate :: c.order in orders && c.sep in seps ==> TryParse(token, c).None?
    ensures FirstMatch(token, Candidates(orders, seps)).None?
  {
    var cs := Candidates(orders, seps);
    forall k | 0 <= k < |cs| ensures TryParse(token, cs[k]).None? {
      CandidatesMembers(orders, seps, cs[k]);
    }
    FirstMatchFailsExactly(token, cs);
  }

  /** A text token that some format reads is converted. */
  lemma TextReadWhenOneReads(token: string, orders: seq<Order>, seps: seq<char>, c: Candidate)
    requires c.order in orders && c.sep in seps && TryParse(token, c).Some?
    ensures FirstMatch(token, Candidates(orders, seps)).Some?
  {
    var cs := Candidates(orders, seps);
    CandidatesMembers(orders, seps, c);
    var k :| 0 <= k < |cs| && cs[k] == c;
    FirstMatchFailsExactly(token, cs);
  }

  /** A text token raises TypeError exactly when no format built from the given orders and separators reads it. */
  lemma TextFailsExactly(token: string, orders: seq<Order>, seps: seq<char>)
    ensures Normalise(TextToken(token), orders, seps).Failure?
        <==> forall c: Candidate :: c.order in orders && c.sep in seps ==> TryParse(token, c).None?
  {
    if forall c: Candidate :: c.order in orders && c.sep in seps ==> TryParse(token, c).None? {
      TextFailsWhenNoneReads(token, orders, seps);
    } else {
      var c: Candidate :| c.order in orders && c.sep in seps && TryParse(token, c).Some?;
      TextReadWhenOneReads(token, orders, seps, c);
    }
  }

  /** A candidate reading the four-digit-year text of a date: only year-month-day with hyphens and `%Y` succeeds. */
  lemma IsoDateCandidate(d: Date, c: Candidate)
    requires ValidDate(d)
    requires c.sep == '-' || c.sep == '/'
    ensures TryParse(IsoDate(d), c) == if c == Candidate(YMD, '-', FourDigit) then Some(Midnight(d)) else None
  {
    IsoDateFields(d);
    var s := IsoDate(d);
    var y, m, dd := s[..4], s[5..7], s[8..];
    assert s == y + ['-'] + m + ['-'] + dd;
    assert forall k :: 0 <= k < |s| && k != 4 && k != 7 ==> s[k] != '/' by {
      assert forall k :: 0 <= k < 4 ==> s[k] == y[k];
      assert forall k :: 5 <= k < 7 ==> s[k] == m[k - 5];
      assert forall k :: 8 <= k < 10 ==> s[k] == dd[k - 8];
    }
    if c.sep == '-' {
      assert forall k :: 0 <= k < |y| ==> y[k] != '-';
      assert forall k :: 0 <= k < |m| ==> m[k] != '-';
      SplitThreeOf(y, m, dd, '-');
    } else {
      assert '/' !in s;
    }
  }

  /** The search over all twelve formats reads the date text as that date, in any iteration order. */
  lemma IsoDateSearch(d: Date, orders: seq<Order>, seps: seq<char>)
    requires ValidDate(d)
    requires OrderPermutation(orders) && SepPermutation(seps)
    ensures FirstMatch(IsoDate(d), Candidates(orders, seps)) == Some(Midnight(d))
  {
    var winner := Candidate(YMD, '-', FourDigit);
    IsoDateCandidate(d, winner);
    forall c: Candidate | c.sep == '-' || c.sep == '/' {
      IsoDateCandidate(d, c);
    }
    FormatsAgree(IsoDate(d), orders, seps, winner, Midnight(d));
  }

  /** Round trip: feeding `date.isoformat()` back to the normaliser, as text, gives the same date at
      midnight, whatever order the orders and separators are tried in. */
  lemma IsoDateReparses(d: Date, orders: seq<Order>, seps: seq<char>)
    requires ValidDate(d)
    requires OrderPermutation(orders) && SepPermutation(seps)
    ensures Normalise(TextToken(IsoDate(d)), orders, seps) == Success(IsoDate(d) + "T00:00:00")
  {
    IsoDateSearch(d, orders, seps);
    IsoMidnight(d);
  }

  /** As written, the datetime and date branches never return: both raise TypeError, where the
      documented behaviour renders the object. */
  lemma DateObjectsRaiseAsWritten(dt: DateTime, d: Date, orders: seq<Order>, seps: seq<char>)
    ensures NormaliseAsWritten(DateTimeValue(dt), orders, seps) == Failure(TypeError)
    ensures NormaliseAsWritten(DateValue(d), orders, seps) == Failure(TypeError)
    ensures Normalise(DateTimeValue(dt), orders, seps).Success?
    ensures Normalise(DateValue(d), orders, seps).Success?
  {
  }

  /** The corrected branches render a datetime to the second and a date alone, and agree with the
      code as written on text. */
  lemma DateObjectsRendered(dt: DateTime, d: Date, token: string, orders: seq<Order>, seps: seq<char>)
    requires ValidDate(d) && ValidDateTime(dt)
    ensures Normalise(DateValue(d), orders, seps) == Success(IsoDate(d))
    ensures |Normalise(DateValue(d), orders, seps).value| == 10
    ensures var s := Normalise(DateTimeValue(dt), orders, seps).value;
            && |s| == 19 && s[..10] == IsoDate(dt.date) && s[10] == 'T' && s[13] == ':' && s[16] == ':'
            && AllDigits(s[11..13]) && AllDigits(s[14..16]) && AllDigits(s[17..])
            && DigitsValue(s[11..13]) == dt.hour && DigitsValue(s[14..16]) == dt.minute && DigitsValue(s[17..]) == dt.second
    ensures NormaliseAsWritten(TextToken(token), orders, seps) == Normalise(TextToken(token), orders, seps)
  {
    IsoDateFields(d);
    IsoSecondsFields(dt);
  }

  // ---------------------------------------------------------------------------
  // Tokens from the unit test and the docstring

  /** A slash-separated token of digit fields has no hyphen, so only the slash formats can read it. */
  lemma SlashToken(f1: string, f2: string, f3: string, c: Candidate)
    requires AllDigits(f1) && AllDigits(f2) && AllDigits(f3)
    requires c.sep == '-' || c.sep == '/'
    ensures TryParse(f1 + "/" + f2 + "/" + f3, c) == if c.sep == '/' then ReadFields(c, f1, f2, f3) else None
  {
    var t := f1 + "/" + f2 + "/" + f3;
    assert forall k :: 0 <= k < |t| ==> IsDigit(t[k]) || t[k] == '/';
    if c.sep == '/' {
      assert forall k :: 0 <= k < |f1| ==> f1[k] != '/';
      assert forall k :: 0 <= k < |f2| ==> f2[k] != '/';
      SplitThreeOf(f1, f2, f3, '/');
    } else {
      assert '-' !in t;
    }
  }

  /** A token that every hyphen or slash format reads, if at all, as one date-time `dt`, and that
      one of them reads, is found as `dt` in every iteration order. */
  lemma FormatsAgree(token: string, orders: seq<Order>, seps: seq<char>, winner: Candidate, dt: DateTime)
    requires OrderPermutation(orders) && SepPermutation(seps)
    requires (winner.sep == '-' || winner.sep == '/') && TryParse(token, winner) == Some(dt)
    requires forall c: Candidate :: (c.sep == '-' || c.sep == '/') && TryParse(token, c).Some? ==> TryParse(token, c) == Some(dt)
    ensures FirstMatch(token, Candidates(orders, seps)) == Some(dt)
  {
    var cs := Candidates(orders, seps);
    OrderPermutationMembers(orders, winner.order);
    SepPermutationMembers(seps, winner.sep);
    CandidatesMembers(orders, seps, winner);
    assert winner in cs && TryParse(token, winner) == Some(dt);
    forall c | c in cs && TryParse(token, c).Some? ensures TryParse(token, c) == Some(dt) {
      CandidatesMembers(orders, seps, c);
      SepPermutationMembers(seps, c.sep);
    }
    AgreeingSuccess(token, cs, dt);
  }

  /** What the slash formats agree on, all hyphen and slash formats agree on, for a slash-separated token. */
  lemma SlashAgree(f1: string, f2: string, f3: string, dt: DateTime)
    requires AllDigits(f1) && AllDigits(f2) && AllDigits(f3)
    requires forall c: Candidate :: c.sep == '/' && ReadFields(c, f1, f2, f3).Some? ==> ReadFields(c, f1, f2, f3) == Some(dt)
    ensures forall c: Candidate :: (c.sep == '-' || c.sep == '/') && TryParse(f1 + "/" + f2 + "/" + f3, c).Some?
              ==> TryParse(f1 + "/" + f2 + "/" + f3, c) == Some(dt)
  {
    forall c: Candidate | c.sep == '-' || c.sep == '/' {
      SlashToken(f1, f2, f3, c);
    }
  }

  /** A slash-separated token that one slash format reads as `dt`, and every other slash format reads as `dt`
      or not at all, is found as `dt`, in any iteration order. */
  lemma SlashFound(token: string, f1: string, f2: string, f3: string, orders: seq<Order>, seps: seq<char>, winner: Candidate, dt: DateTime)
    requires token == f1 + "/" + f2 + "/" + f3
    requires AllDigits(f1) && AllDigits(f2) && AllDigits(f3)
    requires OrderPermutation(orders) && SepPermutation(seps)
    requires winner.sep == '/' && ReadFields(winner, f1, f2, f3) == Some(dt)
    requires forall c: Candidate :: c.sep == '/' && ReadFields(c, f1, f2, f3).Some? ==> ReadFields(c, f1, f2, f3) == Some(dt)
    ensures FirstMatch(token, Candidates(orders, seps)) == Some(dt)
  {
    SlashToken(f1, f2, f3, winner);
    SlashAgree(f1, f2, f3, dt);
    FormatsAgree(f1 + "/" + f2 + "/" + f3, orders, seps, winner, dt);
  }

  /** A slash-separated token that no slash format reads is not found, in any iteration order. */
  lemma SlashFails(token: string, f1: string, f2: string, f3: string, orders: seq<Order>, seps: seq<char>)
    requires token == f1 + "/" + f2 + "/" + f3
    requires AllDigits(f1) && AllDigits(f2) && AllDigits(f3)
    requires SepPermutation(seps)
    requires forall c: Candidate :: c.sep == '/' ==> ReadFields(c, f1, f2, f3).None?
    ensures FirstMatch(token, Candidates(orders, seps)).None?
  {
    var cs := Candidates(orders, seps);
    forall c | c in cs ensures TryParse(token, c).None? {
      CandidatesMembers(orders, seps, c);
      SepPermutationMembers(seps, c.sep);
      SlashToken(f1, f2, f3, c);
    }
    NoSuccess(token, cs);
  }

  /** The slash formats on "01/27/2020": only month-day-year with `%Y` reads it. */
  lemma ReadsLongUsDate()
    ensures forall c: Candidate :: c.sep == '/' ==>
              ReadFields(c, "01", "27", "2020")
              == if c == Candidate(MDY, '/', FourDigit) then Some(Midnight(Date(2020, 1, 27))) else None
  {
    DigitsValueTwo('0', '1');
    DigitsValueTwo('2', '7');
    DigitsValueFour('2', '0', '2', '0');
  }

  /** The slash formats on "1/27/20": only month-day-year with `%y` reads it. */
  lemma ReadsShortUsDate()
    ensures forall c: Candidate :: c.sep == '/' ==>
              ReadFields(c, "1", "27", "20")
              == if c == Candidate(MDY, '/', TwoDigit) then Some(Midnight(Date(2020, 1, 27))) else None
  {
    DigitsValueTwo('2', '7');
    DigitsValueTwo('2', '0');
    assert DigitsValue("1") == 1 by { assert "1"[..0] == []; }
  }

  /** The unit test: "01/27/2020" and "1/27/20" both give what `datetime(2020, 1, 27, 0).isoformat()` gives,
      in every iteration order. */
  lemma UnitTestTokens(orders: seq<Order>, seps: seq<char>)
    requires OrderPermutation(orders) && SepPermutation(seps)
    ensures Normalise(TextToken("01/27/2020"), orders, seps) == Success(IsoFormat(DateTime(Date(2020, 1, 27), 0, 0, 0, 0)))
    ensures Normalise(TextToken("1/27/20"), orders, seps) == Success(IsoFormat(DateTime(Date(2020, 1, 27), 0, 0, 0, 0)))
  {
    LongUsDateFound(orders, seps);
    ShortUsDateFound(orders, seps);
  }

  lemma LongUsDateFound(orders: seq<Order>, seps: seq<char>)
    requires OrderPermutation(orders) && SepPermutation(seps)
    ensures FirstMatch("01/27/2020", Candidates(orders, seps)) == Some(Midnight(Date(2020, 1, 27)))
  {
    ReadsLongUsDate();
    SlashFound("01/27/2020", "01", "27", "2020", orders, seps, Candidate(MDY, '/', FourDigit), Midnight(Date(2020, 1, 27)));
  }

  lemma ShortUsDateFound(orders: seq<Order>, seps: seq<char>)
    requires OrderPermutation(orders) && SepPermutation(seps)
    ensures FirstMatch("1/27/20", Candidates(orders, seps)) == Some(Midnight(Date(2020, 1, 27)))
  {
    ReadsShortUsDate();
    SlashFound("1/27/20", "1", "27", "20", orders, seps, Candidate(MDY, '/', TwoDigit), Midnight(Date(2020, 1, 27)));
  }

  /** The slash formats on "02/30/2020": February 30th does not exist and 30 is no month. */
  lemma ReadsFebruary30()
    ensures forall c: Candidate :: c.sep == '/' ==> ReadFields(c, "02", "30", "2020").None?
  {
    DigitsValueTwo('0', '2');
    DigitsValueTwo('3', '0');
    DigitsValueFour('2', '0', '2', '0');
  }

  /** The slash formats on "13/13/2020": 13 is no month, wherever the month field is. */
  lemma ReadsMonth13()
    ensures forall c: Candidate :: c.sep == '/' ==> ReadFields(c, "13", "13", "2020").None?
  {
    DigitsValueTwo('1', '3');
  }

  lemma February30NotFound(orders: seq<Order>, seps: seq<char>)
    requires SepPermutation(seps)
    ensures FirstMatch("02/30/2020", Candidates(orders, seps)).None?
  {
    ReadsFebruary30();
    SlashFails("02/30/2020", "02", "30", "2020", orders, seps);
  }

  lemma Month13NotFound(orders: seq<Order>, seps: seq<char>)
    requires SepPermutation(seps)
    ensures FirstMatch("13/13/2020", Candidates(orders, seps)).None?
  {
    ReadsMonth13();
    SlashFails("13/13/2020", "13", "13", "2020", orders, seps);
  }

  /** Tokens that name no date raise TypeError in every iteration order: the empty text, February 30th,
      and a text whose only candidate month fields are 13. */
  lemma RejectedTokens(orders: seq<Order>, seps: seq<char>)
    requires OrderPermutation(orders) && SepPermutation(seps)
    ensures Normalise(TextToken(""), orders, seps) == Failure(TypeError)
    ensures Normalise(TextToken("02/30/2020"), orders, seps) == Failure(TypeError)
    ensures Normalise(TextToken("13/13/2020"), orders, seps) == Failure(TypeError)
  {
    NoSuccess("", Candidates(orders, seps));
    February30NotFound(orders, seps);
    Month13NotFound(orders, seps);
  }

  /** When the first format tried reads the token, it decides the result. */
  lemma FirstFormatWins(token: string, orders: seq<Order>, seps: seq<char>)
    requires |orders| > 0 && |seps| > 0
    requires TryParse(token, Candidate(orders[0], seps[0], TwoDigit)).Some?
    ensures FirstMatch(token, Candidates(orders, seps)) == TryParse(token, Candidate(orders[0], seps[0], TwoDigit))
  {
    var cs := Candidates(orders, seps);
    assert cs[0] == Candidate(orders[0], seps[0], TwoDigit);
    assert Attempts(token, cs)[0] == TryParse(token, cs[0]);
  }

  /** Three slash formats read "01/02/19", as three different dates. */
  lemma ReadsShortAmbiguous()
    ensures ReadFields(Candidate(MDY, '/', TwoDigit), "01", "02", "19") == Some(Midnight(Date(2019, 1, 2)))
    ensures ReadFields(Candidate(DMY, '/', TwoDigit), "01", "02", "19") == Some(Midnight(Date(2019, 2, 1)))
    ensures ReadFields(Candidate(YMD, '/', TwoDigit), "01", "02", "19") == Some(Midnight(Date(2001, 2, 19)))
  {
    DigitsValueTwo('0', '1');
    DigitsValueTwo('0', '2');
    DigitsValueTwo('1', '9');
  }

  /** A token of the docstring's own shape is ambiguous: "01/02/19" is January 2nd 2019, February 1st 2019
      or February 19th 2001, depending on which order the set iteration happens to try first. */
  lemma AmbiguousToken()
    ensures FirstMatch("01/02/19", Candidates([MDY, DMY, YMD], ['/', '-'])) == Some(Midnight(Date(2019, 1, 2)))
    ensures FirstMatch("01/02/19", Candidates([DMY, MDY, YMD], ['/', '-'])) == Some(Midnight(Date(2019, 2, 1)))
    ensures FirstMatch("01/02/19", Candidates([YMD, MDY, DMY], ['/', '-'])) == Some(Midnight(Date(2001, 2, 19)))
  {
    assert "01" + "/" + "02" + "/" + "19" == "01/02/19";
    ReadsShortAmbiguous();
    SlashToken("01", "02", "19", Candidate(MDY, '/', TwoDigit));
    SlashToken("01", "02", "19", Candidate(DMY, '/', TwoDigit));
    SlashToken("01", "02", "19", Candidate(YMD, '/', TwoDigit));
    FirstFormatWins("01/02/19", [MDY, DMY, YMD], ['/', '-']);
    FirstFormatWins("01/02/19", [DMY, MDY, YMD], ['/', '-']);
    FirstFormatWins("01/02/19", [YMD, MDY, DMY], ['/', '-']);
  }
}
