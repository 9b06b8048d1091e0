/**
 * How a task's date is shown in the list: `formatDate` splits the stored
 * `YYYY-MM-DD` text on `-` and reassembles the first three pieces as
 * `DD/MM/YYYY`; the list shows `Sin fecha` for a task without a date.
 */
module Formatting {
  import opened Calendar
  import opened DateText

  /** `parts` joined with `sep` between consecutive parts. */
  function Join(parts: seq<string>, sep: char): (s: string)
    requires |parts| >= 1
    ensures |s| >= |parts| - 1
    decreases |parts|
  {
    if |parts| == 1 then parts[0] else parts[0] + [sep] + Join(parts[1..], sep)
  }

  /** `String.prototype.split` with a one-character separator: the pieces between separators. */
  function Split(s: string, sep: char): (parts: seq<string>)
    ensures |parts| >= 1
    ensures forall i :: 0 <= i < |parts| ==> sep !in parts[i]
    ensures Join(parts, sep) == s
    decreases |s|
  {
    if s == [] then [""]
    else
      var rest := Split(s[1..], sep);
      if s[0] == sep then
        assert s == [] + [sep] + Join(rest, sep);
        [""] + rest
      else
        var parts := [[s[0]] + rest[0]] + rest[1..];
        assert parts[1..] == rest[1..];
        assert s == [s[0]] + Join(rest, sep);
        parts
  }

  /** Splitting what was joined gives back the parts when none contains the separator. */
  lemma {:induction false} SplitJoin(parts: seq<string>, sep: char)
    requires |parts| >= 1
    requires forall i :: 0 <= i < |parts| ==> sep !in parts[i]
    ensures Split(Join(parts, sep), sep) == parts
    decreases |parts|, |parts[0]|
  {
    var s := Join(parts, sep);
    if parts[0] == [] {
      if |parts| > 1 {
        assert s == [sep] + Join(parts[1..], sep);
        assert s[1..] == Join(parts[1..], sep);
        SplitJoin(parts[1..], sep);
        assert parts == [""] + parts[1..];
      }
    } else {
      var c := parts[0][0];
      var shorter := [parts[0][1..]] + parts[1..];
      assert c in parts[0];
      assert shorter[1..] == parts[1..];
      forall i | 0 <= i < |shorter| ensures sep !in shorter[i] {
        if i == 0 {
          assert forall x :: x in parts[0][1..] ==> x in parts[0];
        } else {
          assert shorter[i] == parts[i];
        }
      }
      assert s == [c] + Join(shorter, sep);
      assert s[1..] == Join(shorter, sep);
      SplitJoin(shorter, sep);
      assert [c] + shorter[0] == parts[0];
      assert parts == [[c] + shorter[0]] + shorter[1..];
    }
  }

  lemma JoinThree(a: string, b: string, c: string, sep: char)
    ensures Join([a, b, c], sep) == a + [sep] + b + [sep] + c
  {
    assert [a, b, c][1..] == [b, c];
    assert [b, c][1..] == [c];
    assert Join([c], sep) == c;
    assert Join([b, c], sep) == b + [sep] + c;
  }

  /**
   * Destructuring a missing array element gives `undefined`, which a template
   * literal prints as the text `undefined`.
   */
  function Field(parts: seq<string>, i: nat): (f: string)
    ensures i < |parts| ==> f == parts[i]
    ensures i >= |parts| ==> f == "undefined"
  {
    if i < |parts| then parts[i] else "undefined"
  }

  /** The day, month and year pieces of the date text, rearranged as `DD/MM/YYYY`. */
  function FormatDate(date: string): (shown: string)
    ensures date == "" <==> shown == ""
  {
    if date == "" then ""
    else
      var parts := Split(date, '-');
      Field(parts, 2) + "/" + Field(parts, 1) + "/" + Field(parts, 0)
  }

  /** A well-shaped date text shows as its day, month and year pieces in that order. */
  lemma FormatIsoShape(date: string)
    requires IsIsoShape(date)
    ensures FormatDate(date) == date[8..] + "/" + date[5..7] + "/" + date[..4]
  {
    var parts := [date[..4], date[5..7], date[8..]];
    NoDashInDigits(date[..4]);
    NoDashInDigits(date[5..7]);
    NoDashInDigits(date[8..]);
    JoinThree(date[..4], date[5..7], date[8..], '-');
    assert date == date[..4] + "-" + date[5..7] + "-" + date[8..];
    SplitJoin(parts, '-');
  }

  /**
   * A date text without a hyphen splits into a single piece, so the day and
   * month slots print `undefined`.
   */
  lemma FormatWithoutHyphen(date: string)
    requires date != "" && '-' !in date
    ensures FormatDate(date) == "undefined/undefined/" + date
  {
    SplitJoin([date], '-');
  }

  lemma NoDashInDigits(s: string)
    requires AllDigits(s)
    ensures '-' !in s
  {
  }

  /** A calendar date's text shows as two-digit day, two-digit month and four-digit year. */
  lemma FormatOfDate(d: Date)
    requires Valid(d)
    ensures FormatDate(IsoText(d)) == Digits(d.day, 2) + "/" + Digits(d.month, 2) + "/" + Digits(d.year, 4)
  {
    IsoTextParts(d);
    FormatIsoShape(IsoText(d));
  }

  /** Reading a shown `DD/MM/YYYY` text back into the stored `YYYY-MM-DD` form. */
  function DisplayToIso(shown: string): (date: string)
    ensures shown == "" ==> date == ""
  {
    if shown == "" then ""
    else
      var parts := Split(shown, '/');
      Field(parts, 2) + "-" + Field(parts, 1) + "-" + Field(parts, 0)
  }

  /** Showing a well-shaped date loses nothing: the stored text can be read back. */
  lemma FormatRoundTrip(date: string)
    requires IsIsoShape(date)
    ensures DisplayToIso(FormatDate(date)) == date
  {
    FormatIsoShape(date);
    var day, month, year := date[8..], date[5..7], date[..4];
    NoSlashInDigits(day);
    NoSlashInDigits(month);
    NoSlashInDigits(year);
    var parts := [day, month, year];
    JoinThree(day, month, year, '/');
    assert FormatDate(date) == day + "/" + month + "/" + year;
    SplitJoin(parts, '/');
    assert date == year + "-" + month + "-" + day;
  }

  lemma NoSlashInDigits(s: string)
    requires AllDigits(s)
    ensures '/' !in s
  {
  }

  /** The date column of a list row: the formatted date, or `Sin fecha` when there is none. */
  function DateLabel(date: string): (cell: string)
    ensures cell == "Sin fecha" <==> date == ""
    ensures date != "" ==> cell == FormatDate(date)
  {
    if date == "" then "Sin fecha"
    else
      var parts := Split(date, '-');
      assert '/' in FormatDate(date) by {
        assert FormatDate(date)[|Field(parts, 2)|] == '/';
      }
      assert '/' !in "Sin fecha";
      FormatDate(date)
  }
}
