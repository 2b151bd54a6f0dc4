/** `YearPickerDialog`: the list of years offered around the current one, and where it is
    scrolled to when shown. */
module YearPicker {

  import opened Lists

  /** `(start..end).toList()`: the integers from `start` to `end`, both included; empty when
      `end < start`. */
  function RangeList(start: int, end: int): (r: seq<int>)
    decreases end - start
  {
    if end < start then [] else RangeList(start, end - 1) + [end]
  }

  /** The range holds `end - start + 1` entries, entry `i` being `start + i`. */
  lemma {:induction false} RangeListEntries(start: int, end: int)
    ensures |RangeList(start, end)| == if end < start then 0 else end - start + 1
    ensures forall i :: 0 <= i < |RangeList(start, end)| ==> RangeList(start, end)[i] == start + i
    decreases end - start
  {
    if end >= start {
      RangeListEntries(start, end - 1);
    }
  }

  /** `generateYearsList`: from 75 years before the current year to 25 years after it. */
  function GenerateYearsList(currentYear: int): (years: seq<int>)
    ensures |years| == 101
    ensures years[0] == currentYear - 75 && years[100] == currentYear + 25
    ensures forall i :: 0 <= i < 100 ==> years[i + 1] == years[i] + 1
    ensures forall i, j :: 0 <= i < j < |years| ==> years[i] < years[j]
  {
    RangeListEntries(currentYear - 75, currentYear + 25);
    RangeList(currentYear - 75, currentYear + 25)
  }

  /** The years offered are exactly those within 75 before and 25 after the current one. */
  lemma YearOffered(currentYear: int, year: int)
    ensures year in GenerateYearsList(currentYear) <==> currentYear - 75 <= year <= currentYear + 25
  {
    var years := GenerateYearsList(currentYear);
    RangeListEntries(currentYear - 75, currentYear + 25);
    if currentYear - 75 <= year <= currentYear + 25 {
      assert years[year - currentYear + 75] == year;
    }
  }

  /** `years.indexOf(currentYear)` is 75, so the list is always scrolled to the current year. */
  lemma ScrollPosition(currentYear: int)
    ensures IndexOfFirst(GenerateYearsList(currentYear), (x: int) => x == currentYear) == 75
  {
    var years := GenerateYearsList(currentYear);
    RangeListEntries(currentYear - 75, currentYear + 25);
    assert years[75] == currentYear;
  }
}
