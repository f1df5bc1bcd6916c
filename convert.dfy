/** Conversion of `token\pos`-annotated text, one sentence per line, into
    CoNLL sentences: one `token<TAB>pos` line per unit, a newline after
    each sentence and a blank line between sentences in the written file. */
module Convert {
  import opened PyStrings

  // ---------------------------------------------------------------------
  // Reading the input

  /** `read_lines_from_a_file` on the lines of the file: every line stripped,
      the blank ones dropped. The kept lines' positions and the dropped
      lines are characterised by NonBlankStrippedIndices. */
  function ReadLinesFromAFile(fileLines: seq<String>): (r: seq<String>)
    ensures |r| <= |fileLines|
    ensures forall k :: 0 <= k < |r| ==> r[k] != [] && IsStripped(r[k])
    ensures forall k :: 0 <= k < |r| ==> exists i :: 0 <= i < |fileLines| && r[k] == Strip(fileLines[i])
  {
    NonBlankStrippedIndices(fileLines);
    NonBlankStripped(fileLines)
  }

  // ---------------------------------------------------------------------
  // One line

  /** A unit `token\pos` is well formed when splitting it on backslashes
      gives exactly two parts. */
  predicate WellFormedUnit(unit: String) {
    |SplitOn(unit, '\\')| == 2
  }

  /** The CoNLL line of a well-formed unit: its two parts with a tab between. */
  function Pair(unit: String): String
    requires WellFormedUnit(unit)
  {
    var parts := SplitOn(unit, '\\');
    parts[0] + "\t" + parts[1]
  }

  /** The CoNLL lines of a run of well-formed units, in order. */
  function Pairs(units: seq<String>): (r: seq<String>)
    requires forall i :: 0 <= i < |units| ==> WellFormedUnit(units[i])
    ensures |r| == |units|
    ensures forall i :: 0 <= i < |units| ==> r[i] == Pair(units[i])
  {
    if units == [] then []
    else Pairs(units[..|units| - 1]) + [Pair(units[|units| - 1])]
  }

  /** The position of the first unit that is not well formed, or the number
      of units when every unit is. */
  function FirstMalformed(units: seq<String>): (k: nat)
    ensures k <= |units|
    ensures forall i :: 0 <= i < k ==> WellFormedUnit(units[i])
    ensures k < |units| ==> !WellFormedUnit(units[k])
  {
    if units == [] then 0
    else if !WellFormedUnit(units[0]) then 0
    else 1 + FirstMalformed(units[1..])
  }

  /** What one line becomes: a CoNLL sentence, or the first unit that broke
      the conversion and its position among the line's units. */
  datatype LineResult = Converted(sentence: String) | Malformed(unitIndex: nat, unit: String)

  /** One pass of the `for index, line in enumerate(lines_read)` loop of
      `read_file_convert_data_into_conll_and_write`. */
  function LineToConll(line: String): (r: LineResult)
    ensures var units := SplitWs(line);
      r.Converted? <==> forall i :: 0 <= i < |units| ==> WellFormedUnit(units[i])
    ensures var units := SplitWs(line);
      r.Malformed? ==>
        r.unitIndex < |units| && r.unit == units[r.unitIndex] && !WellFormedUnit(r.unit)
        && forall i :: 0 <= i < r.unitIndex ==> WellFormedUnit(units[i])
    ensures r.Converted? ==> r.sentence != [] && r.sentence[|r.sentence| - 1] == '\n'
  {
    var units := SplitWs(line);
    var k := FirstMalformed(units);
    if k == |units| then Converted(JoinWith(Pairs(units), '\n') + "\n")
    else Malformed(k, units[k])
  }

  /** The parts of a well-formed unit of a line hold neither a backslash nor
      whitespace, so a CoNLL line has exactly one tab and no newline. */
  lemma PairParts(line: String, i: nat)
    requires i < |SplitWs(line)| && WellFormedUnit(SplitWs(line)[i])
    ensures var parts := SplitOn(SplitWs(line)[i], '\\');
      '\\' !in parts[0] && '\\' !in parts[1] && !HasSpace(parts[0]) && !HasSpace(parts[1])
  {
    var unit := SplitWs(line)[i];
    var parts := SplitOn(unit, '\\');
    SplitOnChars(unit, '\\');
    NoSpaceWithin(unit, parts[0]);
    NoSpaceWithin(unit, parts[1]);
  }

  /** A CoNLL line splits on its tab into the two parts of its unit, and
      those parts joined with a backslash are the unit. */
  lemma PairRoundTrip(line: String, i: nat)
    requires i < |SplitWs(line)| && WellFormedUnit(SplitWs(line)[i])
    ensures var unit := SplitWs(line)[i];
      SplitOn(Pair(unit), '\t') == SplitOn(unit, '\\')
      && JoinWith(SplitOn(Pair(unit), '\t'), '\\') == unit
      && '\n' !in Pair(unit)
  {
    var unit := SplitWs(line)[i];
    var parts := SplitOn(unit, '\\');
    PairParts(line, i);
    NoSpaceExcludes(parts[0], '\t');
    NoSpaceExcludes(parts[1], '\t');
    NoSpaceExcludes(parts[0], '\n');
    NoSpaceExcludes(parts[1], '\n');
    assert Pair(unit) == JoinWith(parts, '\t');
    SplitJoin(parts, '\t');
    JoinSplit(unit, '\\');
  }

  /** A converted sentence reads back as the line: dropping its final
      newline and splitting on newlines gives one CoNLL line per unit, and
      each of those reads back as its unit by PairRoundTrip. */
  lemma ConvertedRoundTrip(line: String)
    requires LineToConll(line).Converted?
    ensures var units := SplitWs(line);
      var s := LineToConll(line).sentence;
      units != [] ==> SplitOn(s[..|s| - 1], '\n') == Pairs(units)
  {
    var units := SplitWs(line);
    var pairs := Pairs(units);
    forall i | 0 <= i < |units| ensures '\n' !in pairs[i] {
      PairRoundTrip(line, i);
    }
    if units != [] {
      var s := LineToConll(line).sentence;
      assert s[..|s| - 1] == JoinWith(pairs, '\n');
      SplitJoin(pairs, '\n');
    }
  }

  /** The body of the `for index, line` loop over one line: split the line on whitespace,
      split each unit on backslashes, stop at the first unit without exactly
      two parts, and keep the sentence only when no unit stopped it. */
  method ConvertLine(line: String) returns (result: LineResult)
    ensures result == LineToConll(line)
  {
    var tokensWithPos := SplitWs(line);
    var tempConll: seq<String> := [];
    var i := 0;
    while i < |tokensWithPos|
      invariant 0 <= i <= |tokensWithPos|
      invariant forall k :: 0 <= k < i ==> WellFormedUnit(tokensWithPos[k])
      invariant tempConll == Pairs(tokensWithPos[..i])
    {
      var tokenSplit := SplitOn(tokensWithPos[i], '\\');
      if |tokenSplit| != 2 {
        break;
      }
      var token, pos := tokenSplit[0], tokenSplit[1];
      tempConll := tempConll + [token + "\t" + pos];
      assert tokensWithPos[..i + 1][..i] == tokensWithPos[..i];
      i := i + 1;
    }
    if |tempConll| == |tokensWithPos| {
      assert tokensWithPos[..i] == tokensWithPos;
      result := Converted(JoinWith(tempConll, '\n') + "\n");
    } else {
      result := Malformed(i, tokensWithPos[i]);
    }
  }

  // ---------------------------------------------------------------------
  // The whole file

  /** The sentences of the converted lines, in input order; a malformed
      line contributes nothing. */
  function ConvertedSentences(lines: seq<String>): (r: seq<String>)
    ensures |r| <= |lines|
  {
    if lines == [] then []
    else
      var r := LineToConll(lines[|lines| - 1]);
      ConvertedSentences(lines[..|lines| - 1]) + (if r.Converted? then [r.sentence] else [])
  }

  /** The report for a malformed line: its 1-based number among the read
      lines, the line and the unit that stopped it. */
  datatype Diagnostic = Diagnostic(lineNumber: nat, line: String, unit: String)

  /** The reports of all malformed lines, in input order. */
  function Diagnostics(lines: seq<String>): (r: seq<Diagnostic>)
    ensures |r| <= |lines|
  {
    if lines == [] then []
    else
      var r := LineToConll(lines[|lines| - 1]);
      Diagnostics(lines[..|lines| - 1])
        + (if r.Malformed? then [Diagnostic(|lines|, lines[|lines| - 1], r.unit)] else [])
  }

  /** Every line either yields a sentence or is reported, never both, so
      there are never more sentences than lines. */
  lemma {:induction false} ConvertCounts(lines: seq<String>)
    ensures |ConvertedSentences(lines)| + |Diagnostics(lines)| == |lines|
    ensures |ConvertedSentences(lines)| <= |lines|
  {
    if lines != [] {
      ConvertCounts(lines[..|lines| - 1]);
    }
  }

  /** Conversion works line by line: it distributes over concatenation, so
      the sentences keep the order of their lines. */
  lemma {:induction false} ConvertedSentencesAppend(a: seq<String>, b: seq<String>)
    ensures ConvertedSentences(a + b) == ConvertedSentences(a) + ConvertedSentences(b)
    decreases |b|
  {
    if b == [] {
      assert a + b == a;
    } else {
      var b' := b[..|b| - 1];
      assert (a + b)[..|a + b| - 1] == a + b';
      assert (a + b)[|a + b| - 1] == b[|b| - 1];
      ConvertedSentencesAppend(a, b');
    }
  }

  /** Every converted sentence ends in a newline. */
  lemma {:induction false} ConvertedSentencesEnd(lines: seq<String>)
    ensures forall k :: 0 <= k < |ConvertedSentences(lines)| ==>
      ConvertedSentences(lines)[k] != [] && ConvertedSentences(lines)[k][|ConvertedSentences(lines)[k]| - 1] == '\n'
  {
    if lines != [] {
      ConvertedSentencesEnd(lines[..|lines| - 1]);
    }
  }

  /** `d` reports line `d.lineNumber` (counted from 1) of `lines`: that line
      is malformed and `d.unit` is its first bad unit. */
  predicate Reports(lines: seq<String>, d: Diagnostic) {
    1 <= d.lineNumber <= |lines| && d.line == lines[d.lineNumber - 1]
    && LineToConll(d.line).Malformed? && LineToConll(d.line).unit == d.unit
  }

  /** Each report names a malformed line by its 1-based number, with the
      line and the unit that stopped it. */
  lemma {:induction false} DiagnosticsValid(lines: seq<String>)
    ensures forall k :: 0 <= k < |Diagnostics(lines)| ==> Reports(lines, Diagnostics(lines)[k])
  {
    if lines != [] {
      var n := |lines| - 1;
      var init := lines[..n];
      DiagnosticsValid(init);
      var ds := Diagnostics(init);
      var r := LineToConll(lines[n]);
      var tail := if r.Malformed? then [Diagnostic(n + 1, lines[n], r.unit)] else [];
      assert Diagnostics(lines) == ds + tail;
      forall k | 0 <= k < |ds + tail|
        ensures Reports(lines, (ds + tail)[k])
      {
        if k < |ds| {
          var d := ds[k];
          assert Reports(init, d);
          assert init[d.lineNumber - 1] == lines[d.lineNumber - 1];
          assert (ds + tail)[k] == d;
        } else {
          assert (ds + tail)[k] == tail[0];
        }
      }
    }
  }

  /** The reports come in strictly increasing line order. */
  lemma {:induction false} DiagnosticsOrdered(lines: seq<String>)
    ensures forall k, l :: 0 <= k < l < |Diagnostics(lines)| ==>
      Diagnostics(lines)[k].lineNumber < Diagnostics(lines)[l].lineNumber
  {
    if lines != [] {
      var init := lines[..|lines| - 1];
      DiagnosticsOrdered(init);
      DiagnosticsValid(init);
    }
  }

  /** Some report carries line number `number`. */
  predicate Reported(ds: seq<Diagnostic>, number: nat) {
    exists k :: 0 <= k < |ds| && ds[k].lineNumber == number
  }

  /** A line added at the end keeps every earlier report. */
  lemma DiagnosticsSnocKeeps(init: seq<String>, x: String, number: nat)
    requires Reported(Diagnostics(init), number)
    ensures Reported(Diagnostics(init + [x]), number)
  {
    assert (init + [x])[..|init|] == init;
    var ds := Diagnostics(init);
    var k :| 0 <= k < |ds| && ds[k].lineNumber == number;
    assert Diagnostics(init + [x])[k] == ds[k];
  }

  /** A malformed line added at the end is reported under its number. */
  lemma DiagnosticsSnocLast(init: seq<String>, x: String)
    requires LineToConll(x).Malformed?
    ensures Reported(Diagnostics(init + [x]), |init| + 1)
  {
    assert (init + [x])[..|init|] == init;
    var ds := Diagnostics(init);
    assert Diagnostics(init + [x])[|ds|].lineNumber == |init| + 1;
  }

  /** Every malformed line is reported; with DiagnosticsValid its report
      carries that line and its first bad unit. */
  lemma {:induction false} DiagnosticsComplete(lines: seq<String>, i: nat)
    requires i < |lines| && LineToConll(lines[i]).Malformed?
    ensures Reported(Diagnostics(lines), i + 1)
  {
    var n := |lines| - 1;
    var init := lines[..n];
    assert init + [lines[n]] == lines;
    if i < n {
      assert init[i] == lines[i];
      DiagnosticsComplete(init, i);
      DiagnosticsSnocKeeps(init, lines[n], i + 1);
    } else {
      DiagnosticsSnocLast(init, lines[n]);
    }
  }

  /** The report of a malformed line, in full: its number, the line and
      the unit that stopped it. */
  lemma DiagnosticOfLine(lines: seq<String>, i: nat)
    requires i < |lines| && LineToConll(lines[i]).Malformed?
    ensures Diagnostic(i + 1, lines[i], LineToConll(lines[i]).unit) in Diagnostics(lines)
  {
    DiagnosticsComplete(lines, i);
    DiagnosticsValid(lines);
    var ds := Diagnostics(lines);
    var k :| 0 <= k < |ds| && ds[k].lineNumber == i + 1;
    assert Reports(lines, ds[k]);
  }

  /** `write_list_to_file`: the sentences joined with newlines and one more
      newline, so the text always ends in a newline and every sentence is
      followed by one newline of its own. */
  function WriteListToFile(dataList: seq<String>): (text: String)
    ensures text != [] && text[|text| - 1] == '\n'
  {
    JoinWith(dataList, '\n') + "\n"
  }

  /** The written text is every sentence followed by a newline; a list of
      no sentences writes a single newline. */
  lemma WriteListTerminated(dataList: seq<String>)
    ensures WriteListToFile(dataList) == if dataList == [] then "\n" else Terminated(dataList, '\n')
  {
    if dataList != [] {
      JoinThenSep(dataList, '\n');
    }
  }

  /** When every sentence ends in its own newline, as converted sentences
      do, the written text through the first `k` sentences ends in an empty line, so
      the sentences are separated by empty lines. */
  lemma {:induction false} WriteListSeparated(dataList: seq<String>)
    requires forall k :: 0 <= k < |dataList| ==> dataList[k] != [] && dataList[k][|dataList[k]| - 1] == '\n'
    ensures forall k :: 0 < k <= |dataList| ==>
      var t := Terminated(dataList[..k], '\n');
      |t| >= 2 && t[|t| - 2] == '\n' && t[|t| - 1] == '\n'
  {
    forall k | 0 < k <= |dataList|
      ensures var t := Terminated(dataList[..k], '\n');
        |t| >= 2 && t[|t| - 2] == '\n' && t[|t| - 1] == '\n'
    {
      var d := dataList[k - 1];
      assert dataList[..k][..k - 1] == dataList[..k - 1];
      var t := Terminated(dataList[..k - 1], '\n') + d + ['\n'];
      assert t[|t| - 2] == d[|d| - 1];
    }
  }

  /** One more line, as the `for index, line` loop takes it. */
  lemma ConvertStep(lines: seq<String>, index: nat)
    requires index < |lines|
    ensures var r := LineToConll(lines[index]);
      ConvertedSentences(lines[..index + 1])
        == ConvertedSentences(lines[..index]) + (if r.Converted? then [r.sentence] else [])
      && Diagnostics(lines[..index + 1])
        == Diagnostics(lines[..index]) + (if r.Malformed? then [Diagnostic(index + 1, lines[index], r.unit)] else [])
  {
    assert lines[..index + 1][..index] == lines[..index];
  }

  /** `read_file_convert_data_into_conll_and_write` on the file's lines:
      the sentences kept, the reports of the malformed lines, and the text
      written to the output file. */
  method ReadFileConvertDataIntoConllAndWrite(fileLines: seq<String>)
    returns (conllSentences: seq<String>, diagnostics: seq<Diagnostic>, written: String)
    ensures conllSentences == ConvertedSentences(ReadLinesFromAFile(fileLines))
    ensures diagnostics == Diagnostics(ReadLinesFromAFile(fileLines))
    ensures written == WriteListToFile(conllSentences)
  {
    var linesRead := ReadLinesFromAFile(fileLines);
    conllSentences := [];
    diagnostics := [];
    for index := 0 to |linesRead|
      invariant conllSentences == ConvertedSentences(linesRead[..index])
      invariant diagnostics == Diagnostics(linesRead[..index])
    {
      var line := linesRead[index];
      var result := ConvertLine(line);
      ConvertStep(linesRead, index);
      match result {
        case Converted(sentence) =>
          conllSentences := conllSentences + [sentence];
        case Malformed(_, unit) =>
          diagnostics := diagnostics + [Diagnostic(index + 1, line, unit)];
      }
    }
    assert linesRead[..|linesRead|] == linesRead;
    written := WriteListToFile(conllSentences);
  }
}
