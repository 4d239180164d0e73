/** `Utils::FormatBuildDate`: the compiler's `__DATE__` text ("Mmm dd yyyy") rewritten
    as "yyyy/mm/dd". */
module Utils {
  import opened Results

  /** `substr(pos, count)`: `None` is the `out_of_range` thrown when `pos` lies past
      the end; otherwise at most `count` characters. */
  function Substr(s: string, pos: nat, count: nat): (r: Option<string>)
    ensures r.None? <==> pos > |s|
    ensures r.Some? ==> |r.value| <= count && r.value <= s[pos..]
    ensures r.Some? && pos + count <= |s| ==> |r.value| == count
  {
    if pos > |s| then None
    else if pos + count <= |s| then Some(s[pos..pos + count])
    else Some(s[pos..])
  }

  /** The month abbreviations, as `__DATE__` spells them. */
  const MonthNames: seq<string> :=
    ["Jan", "Feb", "Mar", "Apr", "May", "Jun", "Jul", "Aug", "Sep", "Oct", "Nov", "Dec"]

  /** The chain of `if (month == "Jan") month = "01"; else if …`: any other text is
      kept as it is. */
  function MonthNumber(month: string): string {
    if month == "Jan" then "01"
    else if month == "Feb" then "02"
    else if month == "Mar" then "03"
    else if month == "Apr" then "04"
    else if month == "May" then "05"
    else if month == "Jun" then "06"
    else if month == "Jul" then "07"
    else if month == "Aug" then "08"
    else if month == "Sep" then "09"
    else if month == "Oct" then "10"
    else if month == "Nov" then "11"
    else if month == "Dec" then "12"
    else month
  }

  function Digit(n: nat): (c: char)
    requires n < 10
  {
    ['0', '1', '2', '3', '4', '5', '6', '7', '8', '9'][n]
  }

  /** `n` as exactly two decimal digits. */
  function TwoDigits(n: nat): (r: string)
    requires n < 100
    ensures |r| == 2
  {
    [Digit(n / 10), Digit(n % 10)]
  }

  /** The `n`-th month's abbreviation becomes `n` as two digits. */
  lemma MonthTable(n: nat)
    requires 1 <= n <= 12
    ensures MonthNumber(MonthNames[n - 1]) == TwoDigits(n)
  {
    if n <= 6 {
      EarlyMonths(n);
    } else {
      LateMonths(n);
    }
  }

  lemma EarlyMonths(n: nat)
    requires 1 <= n <= 6
    ensures MonthNumber(MonthNames[n - 1]) == TwoDigits(n)
  {
  }

  lemma LateMonths(n: nat)
    requires 7 <= n <= 12
    ensures MonthNumber(MonthNames[n - 1]) == TwoDigits(n)
  {
  }

  /** Text that is not one of the twelve abbreviations passes through unchanged. */
  lemma UnknownMonthKept(month: string)
    requires forall k :: 0 <= k < |MonthNames| ==> month != MonthNames[k]
    ensures MonthNumber(month) == month
  {
    assert month != MonthNames[0] && month != MonthNames[1] && month != MonthNames[2];
    assert month != MonthNames[3] && month != MonthNames[4] && month != MonthNames[5];
    assert month != MonthNames[6] && month != MonthNames[7] && month != MonthNames[8];
    assert month != MonthNames[9] && month != MonthNames[10] && month != MonthNames[11];
  }

  /** `day.erase(std::remove(…, ' '), …)`. */
  function RemoveSpaces(s: string): (r: string)
    ensures |r| <= |s|
    ensures forall j :: 0 <= j < |r| ==> r[j] != ' '
    ensures multiset(r)[' '] == 0
    ensures forall c :: c != ' ' ==> multiset(r)[c] == multiset(s)[c]
  {
    if |s| == 0 then []
    else
      var rest := RemoveSpaces(s[1..]);
      assert s == [s[0]] + s[1..];
      if s[0] == ' ' then rest else [s[0]] + rest
  }

  /** Removing the spaces of two texts one after the other removes them from the
      joined text: the kept characters stay in their order. */
  lemma {:induction false} RemoveSpacesConcat(a: string, b: string)
    ensures RemoveSpaces(a + b) == RemoveSpaces(a) + RemoveSpaces(b)
  {
    if |a| > 0 {
      assert (a + b)[1..] == a[1..] + b;
      RemoveSpacesConcat(a[1..], b);
    } else {
      assert a + b == b;
    }
  }

  /** A one-character day gets a leading zero. */
  function PadDay(day: string): (r: string)
    ensures |day| <= |r| && r[|r| - |day|..] == day
    ensures forall j :: 0 <= j < |r| - |day| ==> r[j] == '0'
    ensures 1 <= |day| <= 2 ==> |r| == 2
    ensures |day| != 1 ==> |r| == |day|
  {
    if |day| == 1 then "0" + day else day
  }

  /** `FormatBuildDate`; `None` when the text is shorter than 7 characters, where the
      year's `substr(7, 4)` throws. */
  function FormatBuildDate(date: string): (r: Option<string>)
    ensures r.None? <==> |date| < 7
  {
    var month := Substr(date, 0, 3).value;
    var day :- Substr(date, 4, 2);
    var year :- Substr(date, 7, 4);
    Some(year + "/" + MonthNumber(month) + "/" + PadDay(RemoveSpaces(day)))
  }

  /** The text `__DATE__` expands to for month `m`, day `d` and a four-character year:
      the day is padded with a space, not a zero. */
  function DateMacro(m: nat, d: nat, year: string): (r: string)
    requires 1 <= m <= 12 && 1 <= d <= 31 && |year| == 4
    ensures |r| == 11
  {
    MonthNames[m - 1] + " " + DayField(d) + " " + year
  }

  /** The day field of `__DATE__`: a space-padded number below 10, otherwise two digits. */
  function DayField(d: nat): (r: string)
    requires 1 <= d <= 31
    ensures |r| == 2
  {
    if d < 10 then [' ', Digit(d)] else TwoDigits(d)
  }

  /** Removing spaces and padding turns the day field into two digits. */
  lemma DayFieldNormalized(d: nat)
    requires 1 <= d <= 31
    ensures PadDay(RemoveSpaces(DayField(d))) == TwoDigits(d)
  {
    var field := DayField(d);
    assert field == [field[0], field[1]];
    DigitNotSpace(d % 10);
    RemoveSpacesPair(field[0], field[1]);
    if d >= 10 {
      DigitNotSpace(d / 10);
    }
  }

  lemma DigitNotSpace(n: nat)
    requires n < 10
    ensures Digit(n) != ' '
  {
  }

  lemma RemoveSpacesPair(a: char, b: char)
    requires b != ' '
    ensures RemoveSpaces([a, b]) == if a == ' ' then [b] else [a, b]
  {
    assert [a, b][1..] == [b];
    assert [b][1..] == [];
  }

  lemma DateMacroFields(m: nat, d: nat, year: string)
    requires 1 <= m <= 12 && 1 <= d <= 31 && |year| == 4
    ensures var s := DateMacro(m, d, year);
            && Substr(s, 0, 3) == Some(MonthNames[m - 1])
            && Substr(s, 4, 2) == Some(DayField(d))
            && Substr(s, 7, 4) == Some(year)
  {
    var s := DateMacro(m, d, year);
    assert s == MonthNames[m - 1] + " " + DayField(d) + " " + year;
    assert s[0..3] == MonthNames[m - 1];
    assert s[4..6] == DayField(d);
    assert s[7..11] == year;
  }

  /** Every build date comes out as year, month and day in two digits each, separated
      by slashes: ten characters with '/' at indices 4 and 7. */
  lemma FormatsDateMacro(m: nat, d: nat, year: string)
    requires 1 <= m <= 12 && 1 <= d <= 31 && |year| == 4
    ensures FormatBuildDate(DateMacro(m, d, year)) == Some(year + "/" + TwoDigits(m) + "/" + TwoDigits(d))
    ensures |FormatBuildDate(DateMacro(m, d, year)).value| == 10
    ensures FormatBuildDate(DateMacro(m, d, year)).value[4] == '/'
    ensures FormatBuildDate(DateMacro(m, d, year)).value[7] == '/'
  {
    FormatsDateMacroFields(m, d, year);
    SlashedShape(year, TwoDigits(m), TwoDigits(d));
  }

  lemma FormatsDateMacroFields(m: nat, d: nat, year: string)
    requires 1 <= m <= 12 && 1 <= d <= 31 && |year| == 4
    ensures FormatBuildDate(DateMacro(m, d, year)) == Some(year + "/" + TwoDigits(m) + "/" + TwoDigits(d))
  {
    DateMacroFields(m, d, year);
    MonthTable(m);
    DayFieldNormalized(d);
  }

  /** Four, two and two characters joined by slashes. */
  lemma SlashedShape(year: string, month: string, day: string)
    requires |year| == 4 && |month| == 2 && |day| == 2
    ensures var r := year + "/" + month + "/" + day;
            |r| == 10 && r[4] == '/' && r[7] == '/'
  {
  }
}
