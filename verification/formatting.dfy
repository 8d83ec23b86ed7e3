/** The plain-text report: six lines per contributor, in list order. */
module Formatting {
  import opened Wrappers
  import opened CoreModel
  import opened SeqFacts

  /** The exception `FormatReport` throws. */
  datatype FormatError = ArgumentNull

  /** The character of a decimal digit. */
  function DigitChar(d: int): char
    requires 0 <= d < 10
  {
    "0123456789"[d]
  }

  predicate IsDigit(c: char) {
    '0' <= c <= '9'
  }

  predicate AllDigits(s: string) {
    forall i :: 0 <= i < |s| ==> IsDigit(s[i])
  }

  /** The decimal numeral of `n`, without leading zeros. */
  function NatToDecimal(n: nat): (r: string)
    ensures |r| >= 1 && AllDigits(r)
    ensures r[0] == '0' ==> n == 0
  {
    if n < 10 then [DigitChar(n)] else NatToDecimal(n / 10) + [DigitChar(n % 10)]
  }

  /**
   * How an int is written into the report: a minus sign exactly before
   * negative numbers, then the digits.
   */
  function IntToDecimal(n: int): (r: string)
    ensures |r| >= 1 && (r[0] == '-' <==> n < 0)
  {
    if n < 0 then "-" + NatToDecimal(-n)
    else
      var digits := NatToDecimal(n);
      assert IsDigit(digits[0]);
      digits
  }

  /** The value a string of decimal digits denotes. */
  function ParseNat(s: string): nat
    requires AllDigits(s)
  {
    if |s| == 0 then 0 else ParseNat(s[..|s| - 1]) * 10 + (s[|s| - 1] as int - '0' as int)
  }

  /** A numeral: digits, with an optional leading minus sign. */
  predicate IsNumeral(s: string) {
    |s| >= 1 && (if s[0] == '-' then AllDigits(s[1..]) else AllDigits(s))
  }

  /** The value a numeral denotes. */
  function ParseInt(s: string): int
    requires IsNumeral(s)
  {
    if s[0] == '-' then 0 - ParseNat(s[1..]) else ParseNat(s)
  }

  /** Reading back the digits of `n` gives `n`. */
  lemma {:induction false} NatToDecimalRoundTrip(n: nat)
    ensures ParseNat(NatToDecimal(n)) == n
  {
    var s := NatToDecimal(n);
    if n >= 10 {
      NatToDecimalRoundTrip(n / 10);
      InitOfSnoc(NatToDecimal(n / 10), DigitChar(n % 10));
    }
  }

  /** Digits after a minus sign read as the negated value of the digits. */
  lemma NegativeNumeral(text: string, digits: string)
    requires |digits| >= 1 && AllDigits(digits) && text == ['-'] + digits
    ensures IsNumeral(text) && ParseInt(text) == 0 - ParseNat(digits)
  {
    TailOfCons('-', digits);
  }

  /** Digits alone read as their value. */
  lemma PlainNumeral(text: string, digits: string)
    requires |digits| >= 1 && AllDigits(digits) && text == digits
    ensures IsNumeral(text) && ParseInt(text) == ParseNat(digits)
  {
    assert IsDigit(digits[0]);
  }

  /** The numeral of a negative number is a minus sign before the digits of its magnitude. */
  lemma NegativeRoundTrip(n: int)
    requires n < 0
    ensures IsNumeral(IntToDecimal(n)) && ParseInt(IntToDecimal(n)) == n
  {
    var magnitude: nat := -n;
    var digits := NatToDecimal(magnitude);
    NatToDecimalRoundTrip(magnitude);
    assert IntToDecimal(n) == ['-'] + digits;
    NegativeNumeral(IntToDecimal(n), digits);
    assert ParseInt(IntToDecimal(n)) == 0 - magnitude;
  }

  /** The numeral of a number that is not negative is its digits. */
  lemma NonNegativeRoundTrip(n: int)
    requires n >= 0
    ensures IsNumeral(IntToDecimal(n)) && ParseInt(IntToDecimal(n)) == n
  {
    var digits := NatToDecimal(n);
    NatToDecimalRoundTrip(n);
    assert IntToDecimal(n) == digits;
    PlainNumeral(IntToDecimal(n), digits);
  }

  /** Reading back the numeral of `n` gives `n`: the printed number is the number. */
  lemma IntToDecimalRoundTrip(n: int)
    ensures IsNumeral(IntToDecimal(n)) && ParseInt(IntToDecimal(n)) == n
  {
    if n < 0 {
      NegativeRoundTrip(n);
    } else {
      NonNegativeRoundTrip(n);
    }
  }

  const CommitsLabel := "Commits: "
  const AddedLabel := "Lines added: "
  const DeletedLabel := "Lines deleted: "
  const ChangedLabel := "Lines changed: "

  /**
   * The six lines of one contributor: the username (a null username appends
   * only the line break), the four counts, and a blank line.
   */
  function ContributorLines(contributor: ContributorStatistics): (r: seq<string>)
    ensures |r| == 6
    ensures r[0] == contributor.username.GetOr("") && r[5] == ""
  {
    [ contributor.username.GetOr(""),
      CommitsLabel + IntToDecimal(contributor.totalCommits),
      AddedLabel + IntToDecimal(contributor.linesAdded),
      DeletedLabel + IntToDecimal(contributor.linesDeleted),
      ChangedLabel + IntToDecimal(contributor.LinesChanged()),
      "" ]
  }

  /** The report's lines: each contributor's six, in list order. */
  function ReportLines(contributors: seq<ContributorStatistics>): (r: seq<string>)
    ensures |r| == 6 * |contributors|
  {
    FlatMapLength(contributors, ContributorLines, 6);
    FlatMap(contributors, ContributorLines)
  }

  /** Lines as `AppendLine` writes them: each followed by the line break. */
  function Terminated(lines: seq<string>, newLine: string): string {
    if |lines| == 0 then "" else Terminated(lines[..|lines| - 1], newLine) + lines[|lines| - 1] + newLine
  }

  /** The report of a concatenation is the two reports one after the other. */
  lemma ReportLinesAppend(first: seq<ContributorStatistics>, second: seq<ContributorStatistics>)
    ensures ReportLines(first + second) == ReportLines(first) + ReportLines(second)
  {
    FlatMapAppend(first, second, ContributorLines);
  }

  /** Terminating the lines of a concatenation gives the two texts one after the other. */
  lemma {:induction false} TerminatedAppend(first: seq<string>, second: seq<string>, newLine: string)
    ensures Terminated(first + second, newLine) == Terminated(first, newLine) + Terminated(second, newLine)
    decreases |second|
  {
    if |second| == 0 {
      AppendEmpty(first, second);
    } else {
      var init := second[..|second| - 1];
      InitOfAppend(first, second);
      TerminatedAppend(first, init, newLine);
    }
  }

  /** The lines from 6i to 6i+5 are those of the i-th contributor. */
  lemma ReportBlock(contributors: seq<ContributorStatistics>, i: nat)
    requires i < |contributors|
    ensures ReportLines(contributors)[6 * i .. 6 * i + 6] == ContributorLines(contributors[i])
  {
    var before, after := contributors[..i], contributors[i + 1..];
    SplitAt(contributors, i);
    ReportLinesAppend(before + [contributors[i]], after);
    ReportLinesSnoc(before, contributors[i]);
    var first, block, last := ReportLines(before), ContributorLines(contributors[i]), ReportLines(after);
    assert ReportLines(contributors) == first + block + last;
    SliceOfMiddle(first, block, last);
  }

  /** Every block of six lines is one contributor's, so the blocks come in list order. */
  lemma ReportLayout(contributors: seq<ContributorStatistics>)
    ensures forall i :: 0 <= i < |contributors| ==>
      ReportLines(contributors)[6 * i .. 6 * i + 6] == ContributorLines(contributors[i])
  {
    forall i | 0 <= i < |contributors|
      ensures ReportLines(contributors)[6 * i .. 6 * i + 6] == ContributorLines(contributors[i])
    {
      ReportBlock(contributors, i);
    }
  }

  /** A labelled numeral: the caption, then a numeral that reads back as `n`. */
  predicate ShowsValue(line: string, caption: string, n: int) {
    && |line| > |caption|
    && line[..|caption|] == caption
    && IsNumeral(line[|caption|..])
    && ParseInt(line[|caption|..]) == n
  }

  /** A caption followed by the numeral of `n` shows `n`. */
  lemma LabelledNumeral(caption: string, n: int)
    ensures ShowsValue(caption + IntToDecimal(n), caption, n)
  {
    var line := caption + IntToDecimal(n);
    IntToDecimalRoundTrip(n);
    assert line[|caption|..] == IntToDecimal(n);
  }

  /**
   * The four count lines of a contributor: each is its caption followed by a
   * numeral that reads back as the count.
   */
  lemma CountLines(contributor: ContributorStatistics)
    ensures var r := ContributorLines(contributor);
            && ShowsValue(r[1], CommitsLabel, contributor.totalCommits)
            && ShowsValue(r[2], AddedLabel, contributor.linesAdded)
            && ShowsValue(r[3], DeletedLabel, contributor.linesDeleted)
            && ShowsValue(r[4], ChangedLabel, contributor.LinesChanged())
  {
    LabelledNumeral(CommitsLabel, contributor.totalCommits);
    LabelledNumeral(AddedLabel, contributor.linesAdded);
    LabelledNumeral(DeletedLabel, contributor.linesDeleted);
    LabelledNumeral(ChangedLabel, contributor.LinesChanged());
  }

  /**
   * The fifth line of the i-th block states that contributor's lines
   * changed, and the number printed there reads back as lines added plus
   * lines deleted when that sum fits in an int32.
   */
  lemma LinesChangedLine(contributors: seq<ContributorStatistics>, i: nat)
    requires i < |contributors|
    requires InInt32(contributors[i].linesAdded + contributors[i].linesDeleted)
    ensures ShowsValue(ReportLines(contributors)[6 * i + 4], ChangedLabel,
                       contributors[i].linesAdded + contributors[i].linesDeleted)
  {
    var c := contributors[i];
    var lines := ReportLines(contributors);
    ReportBlock(contributors, i);
    FifthLine(lines, i, c);
    assert c.LinesChanged() == c.linesAdded + c.linesDeleted;
  }

  /** The fifth line of a contributor's block. */
  lemma FifthLine(lines: seq<string>, i: nat, c: ContributorStatistics)
    requires 6 * i + 6 <= |lines| && lines[6 * i .. 6 * i + 6] == ContributorLines(c)
    ensures ShowsValue(lines[6 * i + 4], ChangedLabel, c.LinesChanged())
  {
    assert lines[6 * i + 4] == lines[6 * i .. 6 * i + 6][4];
    LabelledNumeral(ChangedLabel, c.LinesChanged());
  }

  /** The report text of a concatenation is the two report texts one after the other. */
  lemma ReportTextAppend(first: seq<ContributorStatistics>, second: seq<ContributorStatistics>, newLine: string)
    ensures Terminated(ReportLines(first + second), newLine)
         == Terminated(ReportLines(first), newLine) + Terminated(ReportLines(second), newLine)
  {
    ReportLinesAppend(first, second);
    TerminatedAppend(ReportLines(first), ReportLines(second), newLine);
  }

  /** An empty contributor list gives an empty report. */
  lemma EmptyReport(newLine: string)
    ensures Terminated(ReportLines([]), newLine) == ""
  {
  }

  /** One more line at the end of the text. */
  lemma TerminatedSnoc(lines: seq<string>, line: string, newLine: string)
    ensures Terminated(lines + [line], newLine) == Terminated(lines, newLine) + line + newLine
  {
    InitOfSnoc(lines, line);
  }

  /** The report of one more contributor: its six lines after the others. */
  lemma ReportLinesSnoc(contributors: seq<ContributorStatistics>, contributor: ContributorStatistics)
    ensures ReportLines(contributors + [contributor]) == ReportLines(contributors) + ContributorLines(contributor)
  {
    FlatMapSnoc(contributors, contributor, ContributorLines);
  }

  /** The six lines appended one at a time are the contributor's block. */
  lemma AppendedBlock(before: seq<string>, contributor: ContributorStatistics)
    ensures var lines := ContributorLines(contributor);
            before + [lines[0]] + [lines[1]] + [lines[2]] + [lines[3]] + [lines[4]] + [lines[5]]
            == before + lines
  {
  }

  /** The text buffer the report is written into; `lines` are the lines appended so far. */
  class StringBuilder {
    /** The line break `AppendLine` writes, the platform's `Environment.NewLine`. */
    const newLine: string
    var text: string
    ghost var lines: seq<string>

    ghost predicate Valid()
      reads this
    {
      text == Terminated(lines, newLine)
    }

    constructor (newLine: string)
      ensures Valid() && this.newLine == newLine && lines == [] && text == ""
    {
      this.newLine := newLine;
      text := "";
      lines := [];
    }

    method AppendLine(value: string)
      requires Valid()
      modifies this
      ensures Valid() && lines == old(lines) + [value]
      ensures text == old(text) + value + newLine
    {
      TerminatedSnoc(lines, value, newLine);
      text := text + value + newLine;
      lines := lines + [value];
    }
  }

  /**
   * Formats the repository statistics as plain text: a null argument is
   * rejected, otherwise the text is the report's lines, each followed by
   * `newLine`.
   */
  method FormatReport(stats: RepositoryStatistics?, newLine: string) returns (r: Result<string, FormatError>)
    ensures stats == null ==> r == Failure(ArgumentNull)
    ensures stats != null ==> r == Success(Terminated(ReportLines(stats.contributors), newLine))
  {
    if stats == null {
      return Failure(ArgumentNull);
    }

    var report := new StringBuilder(newLine);
    var contributors := stats.contributors;
    for i := 0 to |contributors|
      invariant report.Valid() && report.newLine == newLine
      invariant report.lines == ReportLines(contributors[..i])
    {
      var contributor := contributors[i];
      PrefixSnoc(contributors, i);
      ReportLinesSnoc(contributors[..i], contributor);
      ghost var before := report.lines;
      report.AppendLine(contributor.username.GetOr(""));
      report.AppendLine(CommitsLabel + IntToDecimal(contributor.totalCommits));
      report.AppendLine(AddedLabel + IntToDecimal(contributor.linesAdded));
      report.AppendLine(DeletedLabel + IntToDecimal(contributor.linesDeleted));
      report.AppendLine(ChangedLabel + IntToDecimal(contributor.LinesChanged()));
      report.AppendLine("");
      AppendedBlock(before, contributor);
    }

    assert contributors[..|contributors|] == contributors;
    return Success(report.text);
  }
}
