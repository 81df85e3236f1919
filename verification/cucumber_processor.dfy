// The per-file splitting pass of the optimizer (CucumberProcessor.processFile):
// a feature file, given as its lines, is scanned once; everything up to the
// first "Examples:" line plus the line after it (the table header) forms the
// preamble, and every later line holding a '|' becomes a scenario file of its
// own made of the preamble and that line. Writing a file becomes an entry of
// the returned sequence; copying the input unchanged becomes CopyVerbatim.
module CucumberProcessor {
  import opened JavaStrings

  datatype Option<T> = None | Some(value: T)

  /** One generated file: its name and the lines written to it. */
  datatype ScenarioFile = ScenarioFile(name: string, lines: seq<string>)

  /** What processing one feature file produces. */
  datatype Outcome =
    | CopyVerbatim                          // no table: the file is copied as it is
    | Split(files: seq<ScenarioFile>)       // one file per table row, in row order
    | MissingHeader(marker: nat)            // "Examples:" on the last line: reading the header fails

  const TableMarker: string := "Examples:"
  const RowSeparator: char := '|'
  const FeatureSuffix: string := ".feature"

  // ---------------------------------------------------------------------------
  // Line classification

  /** The characters that end a line for java.util.regex, which '.' does not match. */
  predicate IsLineTerminator(c: char)
  {
    c == '\n' || c == '\r' || c == '\U{0085}' || c == '\U{2028}' || c == '\U{2029}'
  }

  predicate TerminatorFree(s: string)
  {
    forall i :: 0 <= i < |s| ==> !IsLineTerminator(s[i])
  }

  /**
   * isTableDefinition: the whole line matches ^.*(Examples:).*$. Since '.'
   * matches any character but a line terminator, this is "contains
   * Examples:" on a line without terminators.
   */
  predicate IsTableDefinition(line: string)
  {
    TerminatorFree(line) && Contains(line, TableMarker)
  }

  /** The regular expression's own meaning: line = prefix + "Examples:" + suffix, both free of terminators. */
  ghost predicate MatchesTableDefinitionPattern(line: string)
  {
    exists i :: OccursAt(line, i, TableMarker)
      && TerminatorFree(line[..i]) && TerminatorFree(line[i + |TableMarker|..])
  }

  lemma TableDefinitionIsPatternMatch(line: string)
    ensures IsTableDefinition(line) <==> MatchesTableDefinitionPattern(line)
  {
    ContainsIff(line, TableMarker);
    if IsTableDefinition(line) {
      var i :| OccursAt(line, i, TableMarker);
      assert TerminatorFree(line[..i]) && TerminatorFree(line[i + |TableMarker|..]);
    }
    if MatchesTableDefinitionPattern(line) {
      var i :| OccursAt(line, i, TableMarker)
        && TerminatorFree(line[..i]) && TerminatorFree(line[i + |TableMarker|..]);
      forall j | 0 <= j < |line|
        ensures !IsLineTerminator(line[j])
      {
        if j < i {
          assert line[j] == line[..i][j];
        } else if j < i + |TableMarker| {
          assert line[j] == TableMarker[j - i];
        } else {
          assert line[j] == line[i + |TableMarker|..][j - i - |TableMarker|];
        }
      }
    }
  }

  /**
   * Lines as the file reader yields them carry no '\n' or '\r'; on those
   * the test is plain containment, and a Unicode line or paragraph
   * separator anywhere in the line hides the marker.
   */
  lemma TableDefinitionOnReadLine(line: string)
    requires forall i :: 0 <= i < |line| ==> line[i] != '\n' && line[i] != '\r'
    ensures IsTableDefinition(line) <==>
      (exists i :: OccursAt(line, i, TableMarker)) && '\U{0085}' !in line && '\U{2028}' !in line && '\U{2029}' !in line
  {
    ContainsIff(line, TableMarker);
  }

  /** isTableRow: the line contains a '|'. */
  predicate IsTableRow(line: string)
  {
    Contains(line, [RowSeparator])
  }

  lemma TableRowIff(line: string)
    ensures IsTableRow(line) <==> RowSeparator in line
  {
    ContainsChar(line, RowSeparator);
  }

  // ---------------------------------------------------------------------------
  // Specification of the splitting pass

  /** The index of the first table definition, if any (see FirstMarkerIsFirst). */
  function FirstMarker(lines: seq<string>): (r: Option<nat>)
    ensures r.Some? ==> r.value < |lines|
  {
    if lines == [] then None
    else if IsTableDefinition(lines[0]) then Some(0)
    else match FirstMarker(lines[1..])
      case None => None
      case Some(k) => Some(k + 1)
  }

  /** The lines containing '|', in their order (see RowsAt and RowsFrom). */
  function Rows(lines: seq<string>): (rows: seq<string>)
    ensures |rows| <= |lines|
  {
    if lines == [] then []
    else
      var last := lines[|lines| - 1];
      Rows(lines[..|lines| - 1]) + (if IsTableRow(last) then [last] else [])
  }

  /**
   * The name of the file for row `rowNumber`: every ".feature" in the
   * source name becomes "_<rowNumber>.feature" (String.replace replaces all).
   */
  function OutputName(name: string, rowNumber: nat): string
  {
    ReplaceAll(name, FeatureSuffix, "_" + Decimal(rowNumber) + FeatureSuffix)
  }

  /** The files for `rows`, numbered from 1, each the preamble followed by its row. */
  function Scenarios(name: string, preamble: seq<string>, rows: seq<string>): (files: seq<ScenarioFile>)
    ensures |files| == |rows|
  {
    seq(|rows|, j requires 0 <= j < |rows| => ScenarioFile(OutputName(name, j + 1), preamble + [rows[j]]))
  }

  /** What processFile does with the lines of the file called `name`. */
  function Process(name: string, lines: seq<string>): Outcome
  {
    match FirstMarker(lines)
    case None => CopyVerbatim
    case Some(k) =>
      if k + 1 == |lines| then MissingHeader(k)
      else Split(Scenarios(name, lines[..k + 2], Rows(lines[k + 2..])))
  }

  // ---------------------------------------------------------------------------
  // The splitting pass itself

  /** Before the table: `scenario` holds the first `i` lines, none of them a marker. */
  ghost predicate Scanning(lines: seq<string>, i: nat, scenario: seq<string>)
  {
    && i <= |lines|
    && scenario == lines[..i]
    && forall j :: 0 <= j < i ==> !IsTableDefinition(lines[j])
  }

  /**
   * In the table: `marker` is the first marker, `scenario` the preamble
   * ending with the header, `rows` the row lines among the lines after the
   * header up to `i`, and `written` the files produced for them.
   */
  ghost predicate InTable(name: string, lines: seq<string>, marker: nat, i: nat,
                          scenario: seq<string>, rows: seq<string>, written: seq<ScenarioFile>)
  {
    && marker + 2 <= i <= |lines|
    && FirstMarker(lines) == Some(marker)
    && scenario == lines[..marker + 2]
    && rows == Rows(lines[marker + 2..i])
    && |written| == |rows|
    && forall t :: 0 <= t < |written| ==> written[t] == ScenarioFile(OutputName(name, t + 1), scenario + [rows[t]])
  }

  /**
   * processFile's line loop. `scenario` grows while no table has been seen;
   * the marker and the header line after it end the preamble, and from then
   * on each line with a '|' is emitted as a copy of `scenario` plus that line.
   */
  method ProcessFile(name: string, lines: seq<string>) returns (outcome: Outcome)
    ensures outcome == Process(name, lines)
  {
    var scenario: seq<string> := [];
    var foundTable := false;
    var rowNumber := 0;
    var written: seq<ScenarioFile> := [];
    ghost var marker := 0;
    ghost var rows: seq<string> := [];
    var lineNumber := 0;
    while lineNumber < |lines|
      invariant lineNumber <= |lines|
      invariant !foundTable ==> Scanning(lines, lineNumber, scenario) && rows == [] && written == []
      invariant foundTable ==> InTable(name, lines, marker, lineNumber, scenario, rows, written)
      invariant rowNumber == |written|
    {
      var line := lines[lineNumber];
      if !foundTable {
        ScanningStep(lines, lineNumber, scenario);
        scenario := scenario + [line];
        if IsTableDefinition(line) {
          foundTable := true;
          marker := lineNumber;
          if lineNumber + 1 == |lines| {
            // lines[lineNumber + 1] is out of bounds: processFile throws here
            MissingHeaderAtEnd(name, lines, lineNumber);
            return MissingHeader(lineNumber);
          }
          // the header line joins the preamble and is not looked at again
          scenario := scenario + [lines[lineNumber + 1]];
          lineNumber := lineNumber + 1;
          TableStart(name, lines, marker);
        }
      } else {
        TableStep(name, lines, marker, lineNumber, scenario, rows, written);
        if IsTableRow(line) {
          // a copy of the preamble plus this row, written under the next row number
          var data := scenario + [line];
          rowNumber := rowNumber + 1;
          written := written + [ScenarioFile(OutputName(name, rowNumber), data)];
          rows := rows + [line];
        }
      }
      lineNumber := lineNumber + 1;
    }
    if !foundTable {
      NoTableCopies(name, lines, scenario);
      outcome := CopyVerbatim;
    } else {
      TableEndSplits(name, lines, marker, scenario, rows, written);
      outcome := Split(written);
    }
  }

  // The lemmas below carry the loop from one line to the next.

  /** Appending a line that is not a marker keeps the preamble scan going. */
  lemma ScanningStep(lines: seq<string>, i: nat, scenario: seq<string>)
    requires Scanning(lines, i, scenario) && i < |lines|
    ensures scenario + [lines[i]] == lines[..i + 1]
    ensures !IsTableDefinition(lines[i]) ==> Scanning(lines, i + 1, scenario + [lines[i]])
  {
  }

  /** The first marker on the last line: there is no header to read. */
  lemma MissingHeaderAtEnd(name: string, lines: seq<string>, i: nat)
    requires i + 1 == |lines| && Scanning(lines, i, lines[..i]) && IsTableDefinition(lines[i])
    ensures Process(name, lines) == MissingHeader(i)
  {
    FirstMarkerAt(lines, i);
  }

  /** The first marker with a line after it: the preamble is complete and nothing is written yet. */
  lemma TableStart(name: string, lines: seq<string>, k: nat)
    requires k + 1 < |lines| && Scanning(lines, k, lines[..k]) && IsTableDefinition(lines[k])
    ensures InTable(name, lines, k, k + 2, lines[..k + 1] + [lines[k + 1]], [], [])
  {
    FirstMarkerAt(lines, k);
    assert lines[..k + 1] + [lines[k + 1]] == lines[..k + 2];
  }

  /** A table line: a row line adds the next numbered file, any other line leaves the files as they are. */
  lemma TableStep(name: string, lines: seq<string>, marker: nat, i: nat,
                  scenario: seq<string>, rows: seq<string>, written: seq<ScenarioFile>)
    requires i < |lines| && InTable(name, lines, marker, i, scenario, rows, written)
    ensures IsTableRow(lines[i]) ==> InTable(name, lines, marker, i + 1, scenario, rows + [lines[i]],
      written + [ScenarioFile(OutputName(name, |written| + 1), scenario + [lines[i]])])
    ensures !IsTableRow(lines[i]) ==> InTable(name, lines, marker, i + 1, scenario, rows, written)
  {
    assert lines[marker + 2..i + 1][..i - marker - 2] == lines[marker + 2..i];
  }

  /** The scan ended without a marker: the file is copied. */
  lemma NoTableCopies(name: string, lines: seq<string>, scenario: seq<string>)
    requires Scanning(lines, |lines|, scenario)
    ensures Process(name, lines) == CopyVerbatim
  {
    FirstMarkerIsFirst(lines);
  }

  /** The scan ended inside the table: the files written are the result. */
  lemma TableEndSplits(name: string, lines: seq<string>, marker: nat,
                       scenario: seq<string>, rows: seq<string>, written: seq<ScenarioFile>)
    requires InTable(name, lines, marker, |lines|, scenario, rows, written)
    ensures Process(name, lines) == Split(written)
  {
    assert lines[marker + 2..|lines|] == lines[marker + 2..];
  }

  // ---------------------------------------------------------------------------
  // Properties of the specification

  /** FirstMarker finds a marker, and no marker comes before it; None means there is none. */
  lemma {:induction false} FirstMarkerIsFirst(lines: seq<string>)
    ensures FirstMarker(lines).None? ==> forall j :: 0 <= j < |lines| ==> !IsTableDefinition(lines[j])
    ensures FirstMarker(lines).Some? ==>
      var k := FirstMarker(lines).value;
      && k < |lines|
      && IsTableDefinition(lines[k])
      && forall j :: 0 <= j < k ==> !IsTableDefinition(lines[j])
  {
    if lines != [] && !IsTableDefinition(lines[0]) {
      FirstMarkerIsFirst(lines[1..]);
      assert forall j :: 1 <= j < |lines| ==> lines[j] == lines[1..][j - 1];
    }
  }

  /** The first table definition is the one no other precedes. */
  lemma FirstMarkerAt(lines: seq<string>, k: nat)
    requires k < |lines| && IsTableDefinition(lines[k])
    requires forall j :: 0 <= j < k ==> !IsTableDefinition(lines[j])
    ensures FirstMarker(lines) == Some(k)
  {
    FirstMarkerIsFirst(lines);
  }

  /** A row line at index j is the n-th entry of Rows, n being the number of row lines before it. */
  lemma {:induction false} RowsAt(s: seq<string>, j: nat)
    requires j < |s| && IsTableRow(s[j])
    ensures |Rows(s[..j])| < |Rows(s)| && Rows(s)[|Rows(s[..j])|] == s[j]
  {
    var init := s[..|s| - 1];
    if j == |s| - 1 {
      assert s[..j] == init;
    } else {
      RowsAt(init, j);
      assert init[..j] == s[..j];
    }
  }

  /** Every entry of Rows is a row line of the input, at the position its index says. */
  lemma {:induction false} RowsFrom(s: seq<string>, t: nat)
    requires t < |Rows(s)|
    ensures exists j :: 0 <= j < |s| && IsTableRow(s[j]) && |Rows(s[..j])| == t && Rows(s)[t] == s[j]
  {
    var init := s[..|s| - 1];
    if t < |Rows(init)| {
      RowsFrom(init, t);
      var j :| 0 <= j < |init| && IsTableRow(init[j]) && |Rows(init[..j])| == t && Rows(init)[t] == init[j];
      assert init[..j] == s[..j];
    } else {
      assert s[..|s| - 1] == init;
    }
  }

  /** Every entry of Rows contains a '|'. */
  lemma {:induction false} RowsAreRowLines(s: seq<string>)
    ensures forall t :: 0 <= t < |Rows(s)| ==> IsTableRow(Rows(s)[t])
  {
    if s != [] {
      RowsAreRowLines(s[..|s| - 1]);
    }
  }

  /** Row lines further down get larger row numbers. */
  lemma RowsMonotone(s: seq<string>, i: nat, j: nat)
    requires i < j <= |s| && IsTableRow(s[i])
    ensures |Rows(s[..i])| < |Rows(s[..j])|
  {
    RowsAt(s[..j], i);
    assert s[..j][..i] == s[..i];
  }

  /**
   * In base + ".feature", with no ".feature" inside base, no occurrence of
   * ".feature" starts inside base: one reaching into the suffix would need a
   * '.' where ".feature" has a letter.
   */
  lemma NoOccurrenceInBase(base: string)
    requires !Contains(base, FeatureSuffix)
    ensures forall i :: 0 <= i < |base| ==> !OccursAt(base + FeatureSuffix, i, FeatureSuffix)
  {
    var name := base + FeatureSuffix;
    ContainsIff(base, FeatureSuffix);
    forall i | 0 <= i < |base|
      ensures !OccursAt(name, i, FeatureSuffix)
    {
      if i + |FeatureSuffix| <= |base| {
        assert name[i..i + |FeatureSuffix|] == base[i..i + |FeatureSuffix|];
        assert !OccursAt(base, i, FeatureSuffix);
      } else if i + |FeatureSuffix| <= |name| {
        assert name[|base|] == '.';
        assert name[i..i + |FeatureSuffix|][|base| - i] == name[|base|];
        assert FeatureSuffix[|base| - i] != '.';
      }
    }
  }

  /** A file named base + ".feature" gets base + "_N.feature" for row N (base holding no ".feature"). */
  lemma OutputNameOfFeatureFile(base: string, n: nat)
    requires !Contains(base, FeatureSuffix)
    ensures OutputName(base + FeatureSuffix, n) == base + "_" + Decimal(n) + FeatureSuffix
  {
    var r := "_" + Decimal(n) + FeatureSuffix;
    NoOccurrenceInBase(base);
    ReplaceAllSkipsPrefix(base, FeatureSuffix, FeatureSuffix, r);
    SuffixReplaced(r);
  }

  lemma SuffixReplaced(r: string)
    ensures ReplaceAll(FeatureSuffix, FeatureSuffix, r) == r
  {
    assert FeatureSuffix[|FeatureSuffix|..] == [];
    assert ReplaceAll(FeatureSuffix, FeatureSuffix, r) == r + ReplaceAll([], FeatureSuffix, r);
  }

  /** Different rows of a file named base + ".feature" are written under different names. */
  lemma OutputNamesDistinct(base: string, m: nat, n: nat)
    requires !Contains(base, FeatureSuffix) && m != n
    ensures OutputName(base + FeatureSuffix, m) != OutputName(base + FeatureSuffix, n)
  {
    OutputNameOfFeatureFile(base, m);
    OutputNameOfFeatureFile(base, n);
    var a := base + "_" + Decimal(m) + FeatureSuffix;
    var b := base + "_" + Decimal(n) + FeatureSuffix;
    if a == b {
      assert a[|base| + 1..|a| - |FeatureSuffix|] == Decimal(m);
      assert b[|base| + 1..|b| - |FeatureSuffix|] == Decimal(n);
      DecimalInjective(m, n);
    }
  }

  /**
   * A file called just "feature" passes the extension filter, but its name
   * holds no ".feature", so every row is written under that same name.
   */
  lemma BareFeatureNameRepeats(n: nat)
    ensures OutputName("feature", n) == "feature"
  {
  }

  /** The number of decimal digits `s` starts with. */
  function DigitRun(s: string): nat
  {
    if s == [] || !('0' <= s[0] <= '9') then 0 else 1 + DigitRun(s[1..])
  }

  /** Digits followed by a '.' form a run exactly as long as the digits. */
  lemma {:induction false} DigitRunBeforeDot(p: string, x: string)
    requires IsDigits(p) && |x| > 0 && x[0] == '.'
    ensures DigitRun(p + x) == |p|
    decreases |p|
  {
    if p == [] {
      assert p + x == x;
    } else {
      assert (p + x)[1..] == p[1..] + x;
      DigitRunBeforeDot(p[1..], x);
    }
  }

  /** Two digit runs, each followed by a '.', that start equal strings are equal. */
  lemma DigitRunsEqual(p: string, x: string, q: string, y: string)
    requires IsDigits(p) && IsDigits(q)
    requires |x| > 0 && x[0] == '.' && |y| > 0 && y[0] == '.'
    requires p + x == q + y
    ensures p == q
  {
    DigitRunBeforeDot(p, x);
    DigitRunBeforeDot(q, y);
    assert p == (p + x)[..|p|];
    assert q == (q + y)[..|q|];
  }

  /** A name that starts with ".feature" gets the row number right after its first character. */
  lemma ReplacedAtHead(name: string, n: nat)
    requires |name| >= |FeatureSuffix| && name[..|FeatureSuffix|] == FeatureSuffix
    ensures OutputName(name, n)[0] == '_'
    ensures OutputName(name, n)[1..] == Decimal(n) + (FeatureSuffix + OutputName(name[|FeatureSuffix|..], n))
  {
    var rest := name[|FeatureSuffix|..];
    var tail := Decimal(n) + (FeatureSuffix + OutputName(rest, n));
    assert OutputName(name, n) == "_" + Decimal(n) + FeatureSuffix + OutputName(rest, n);
    assert OutputName(name, n) == "_" + tail;
    assert ("_" + tail)[1..] == tail;
  }

  /** A name that does not start with ".feature" keeps its first character. */
  lemma KeptAtHead(name: string, n: nat)
    requires |name| >= |FeatureSuffix| && name[..|FeatureSuffix|] != FeatureSuffix
    ensures OutputName(name, n)[0] == name[0]
    ensures OutputName(name, n)[1..] == OutputName(name[1..], n)
  {
    assert OutputName(name, n) == [name[0]] + OutputName(name[1..], n);
  }

  /**
   * When the name holds ".feature" anywhere, different rows get different
   * names: the first ".feature" replaced carries the row number, and the
   * digits end at the '.' that follows them.
   */
  lemma {:induction false} OutputNamesDistinctWhenSuffixed(name: string, m: nat, n: nat)
    requires Contains(name, FeatureSuffix) && m != n
    ensures OutputName(name, m) != OutputName(name, n)
    decreases |name|
  {
    if name[..|FeatureSuffix|] == FeatureSuffix {
      var rest := name[|FeatureSuffix|..];
      ReplacedAtHead(name, m);
      ReplacedAtHead(name, n);
      if OutputName(name, m) == OutputName(name, n) {
        DigitRunsEqual(Decimal(m), FeatureSuffix + OutputName(rest, m), Decimal(n), FeatureSuffix + OutputName(rest, n));
        DecimalInjective(m, n);
      }
    } else {
      OutputNamesDistinctWhenSuffixed(name[1..], m, n);
      KeptAtHead(name, m);
      KeptAtHead(name, n);
    }
  }

  /**
   * Rows are written under different names exactly when the file name holds
   * ".feature"; otherwise replace changes nothing and every row gets the
   * file's own name.
   */
  lemma OutputNamesDistinctIff(name: string, m: nat, n: nat)
    requires m != n
    ensures OutputName(name, m) != OutputName(name, n) <==> Contains(name, FeatureSuffix)
  {
    if Contains(name, FeatureSuffix) {
      OutputNamesDistinctWhenSuffixed(name, m, n);
    }
  }

  /**
   * A split writes at most one file per line after the header, so the row
   * counter never exceeds the number of lines in the file.
   */
  lemma SplitFileCountBound(name: string, lines: seq<string>)
    requires Process(name, lines).Split?
    ensures |Process(name, lines).files| <= |lines| - 2
  {
    var k := FirstMarker(lines).value;
    assert |lines[k + 2..]| == |lines| - k - 2;
  }

  /** The file is copied as it is exactly when no line is a table definition. */
  lemma CopyIffNoMarker(name: string, lines: seq<string>)
    ensures Process(name, lines) == CopyVerbatim
      <==> forall j :: 0 <= j < |lines| ==> !IsTableDefinition(lines[j])
  {
    FirstMarkerIsFirst(lines);
  }

  /** Processing fails exactly when the first table definition is the last line. */
  lemma MissingHeaderIffMarkerLast(name: string, lines: seq<string>)
    ensures Process(name, lines).MissingHeader?
      <==> |lines| > 0 && FirstMarker(lines) == Some(|lines| - 1)
    ensures Process(name, lines).MissingHeader? ==>
      var k := Process(name, lines).marker;
      k == |lines| - 1 && IsTableDefinition(lines[k])
      && forall j :: 0 <= j < k ==> !IsTableDefinition(lines[j])
  {
    FirstMarkerIsFirst(lines);
  }

  /**
   * With the first marker at k and a line after it, every generated file is
   * the preamble lines[..k + 2] (marker and header included) followed by
   * one row line.
   */
  lemma SplitFilesShape(name: string, lines: seq<string>, k: nat)
    requires FirstMarker(lines) == Some(k) && k + 1 < |lines|
    ensures Process(name, lines).Split?
    ensures var files := Process(name, lines).files;
      forall t :: 0 <= t < |files| ==>
        && |files[t].lines| == k + 3
        && files[t].lines[..k + 2] == lines[..k + 2]
        && IsTableRow(files[t].lines[k + 2])
  {
    var files := Process(name, lines).files;
    var rows := Rows(lines[k + 2..]);
    RowsAreRowLines(lines[k + 2..]);
    forall t | 0 <= t < |files|
      ensures files[t].lines == lines[..k + 2] + [rows[t]]
    {
    }
  }

  /**
   * Each row line after the header yields a file, numbered by how many row
   * lines come before it after the header: later markers and lines without
   * '|' neither end the table nor reset the count.
   */
  lemma EveryRowLineEmitted(name: string, lines: seq<string>, k: nat, j: nat)
    requires FirstMarker(lines) == Some(k) && k + 1 < j < |lines| && IsTableRow(lines[j])
    ensures var files := Process(name, lines).files;
      var n := |Rows(lines[k + 2..j])|;
      && Process(name, lines).Split?
      && n < |files|
      && files[n] == ScenarioFile(OutputName(name, n + 1), lines[..k + 2] + [lines[j]])
  {
    var s := lines[k + 2..];
    RowsAt(s, j - k - 2);
    assert s[..j - k - 2] == lines[k + 2..j];
  }

  /** Each generated file comes from one row line after the header, in order. */
  lemma EveryFileFromRowLine(name: string, lines: seq<string>, k: nat, t: nat)
    requires FirstMarker(lines) == Some(k) && k + 1 < |lines|
    requires t < |Process(name, lines).files|
    ensures exists j ::
      && k + 1 < j < |lines|
      && IsTableRow(lines[j])
      && |Rows(lines[k + 2..j])| == t
      && Process(name, lines).files[t] == ScenarioFile(OutputName(name, t + 1), lines[..k + 2] + [lines[j]])
  {
    var s := lines[k + 2..];
    RowsFrom(s, t);
    var i :| 0 <= i < |s| && IsTableRow(s[i]) && |Rows(s[..i])| == t && Rows(s)[t] == s[i];
    assert s[..i] == lines[k + 2..k + 2 + i];
    assert s[i] == lines[k + 2 + i];
  }

  /** An earlier row line after the header has fewer row lines before it. */
  lemma RowCountsIncrease(lines: seq<string>, k: nat, i: nat, j: nat)
    requires k + 1 < i < j <= |lines| && IsTableRow(lines[i])
    ensures |Rows(lines[k + 2..i])| < |Rows(lines[k + 2..j])|
  {
    var s := lines[k + 2..];
    RowsMonotone(s, i - k - 2, j - k - 2);
    assert s[..i - k - 2] == lines[k + 2..i];
    assert s[..j - k - 2] == lines[k + 2..j];
  }

  /**
   * Row lines keep their order: of two row lines after the header, the
   * earlier one is written to the file with the smaller index (and row number).
   */
  lemma RowOrderKept(name: string, lines: seq<string>, k: nat, i: nat, j: nat)
    requires FirstMarker(lines) == Some(k) && k + 1 < i < j < |lines|
    requires IsTableRow(lines[i]) && IsTableRow(lines[j])
    ensures var files := Process(name, lines).files;
      var t := |Rows(lines[k + 2..i])|;
      var u := |Rows(lines[k + 2..j])|;
      && Process(name, lines).Split?
      && t < u < |files|
      && files[t].lines == lines[..k + 2] + [lines[i]]
      && files[u].lines == lines[..k + 2] + [lines[j]]
  {
    EveryRowLineEmitted(name, lines, k, i);
    EveryRowLineEmitted(name, lines, k, j);
    RowCountsIncrease(lines, k, i, j);
  }

  /**
   * For a file named base + ".feature", row N's file is base + "_N.feature",
   * and no two rows share a name.
   */
  lemma SplitNames(base: string, lines: seq<string>)
    requires !Contains(base, FeatureSuffix)
    requires Process(base + FeatureSuffix, lines).Split?
    ensures var files := Process(base + FeatureSuffix, lines).files;
      && (forall t :: 0 <= t < |files| ==> files[t].name == base + "_" + Decimal(t + 1) + FeatureSuffix)
      && (forall t, u :: 0 <= t < u < |files| ==> files[t].name != files[u].name)
  {
    var files := Process(base + FeatureSuffix, lines).files;
    forall t | 0 <= t < |files|
      ensures files[t].name == base + "_" + Decimal(t + 1) + FeatureSuffix
    {
      OutputNameOfFeatureFile(base, t + 1);
    }
    forall t, u | 0 <= t < u < |files|
      ensures files[t].name != files[u].name
    {
      OutputNamesDistinct(base, t + 1, u + 1);
    }
  }

  /**
   * The files of a split all have different names exactly when the file
   * name holds ".feature" or there are fewer than two of them.
   */
  lemma SplitNamesDistinctIff(name: string, lines: seq<string>)
    requires Process(name, lines).Split?
    ensures var files := Process(name, lines).files;
      (forall t, u :: 0 <= t < u < |files| ==> files[t].name != files[u].name)
      <==> Contains(name, FeatureSuffix) || |files| <= 1
  {
    var files := Process(name, lines).files;
    if Contains(name, FeatureSuffix) {
      forall t, u | 0 <= t < u < |files|
        ensures files[t].name != files[u].name
      {
        OutputNamesDistinctWhenSuffixed(name, t + 1, u + 1);
      }
    } else if |files| > 1 {
      OutputNamesDistinctIff(name, 1, 2);
      assert files[0].name == files[1].name;
    }
  }
}
