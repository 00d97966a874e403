/**
 * One line of a BioMart export: gene stable ID, transcript stable ID and gene
 * name, separated by tabs. `ParseLine` reads a line as the cleanup script does
 * (strip, split on tab, take fields 0, 1 and 2); `FormatLine` writes a row the
 * way the script writes its output.
 */
module Mart {
  import opened Text

  datatype Option<T> = None | Some(value: T)

  /** A (gene ID, transcript ID, gene name) triple. */
  datatype Row = Row(gene: string, transcript: string, name: string)

  /** The three fields with a tab between neighbours. */
  function TabJoined(row: Row): string {
    row.gene + "\t" + row.transcript + "\t" + row.name
  }

  /** Tab-free fields joined with tabs hold exactly the two tabs between them. */
  lemma TabJoinedTabs(row: Row)
    requires TabFree(row)
    ensures multiset(TabJoined(row))['\t'] == 2
  {
    assert multiset(TabJoined(row)) ==
           multiset(row.gene) + multiset{'\t'} + multiset(row.transcript) + multiset{'\t'} + multiset(row.name);
  }

  /** The output line written for a row, newline included. */
  function FormatLine(row: Row): string {
    TabJoined(row) + "\n"
  }

  predicate TabFree(row: Row) {
    '\t' !in row.gene && '\t' !in row.transcript && '\t' !in row.name
  }

  /**
   * A row that reads back as itself once written: no tab inside a field, and
   * no whitespace where `strip()` would remove it, so the gene ID does not
   * start with whitespace and the gene name is non-empty and does not end with it.
   */
  predicate Rereadable(row: Row) {
    && TabFree(row)
    && row.gene != [] && !IsSpace(row.gene[0])
    && row.name != [] && !IsSpace(row.name[|row.name| - 1])
  }

  /**
   * Parse one input line: strip it, split it on tabs and take the first three
   * fields. Fewer than three fields is the script's out-of-range index, here
   * `None`; that is exactly a stripped line with fewer than two tabs, which
   * includes a blank line and a line whose gene name is empty (stripping
   * removes the tab in front of it). Fields past the third are ignored: the
   * three fields found are the tab-free pieces at the start of the stripped line.
   */
  function ParseLine(line: string): (r: Option<Row>)
    ensures r.Some? <==> multiset(Strip(line))['\t'] >= 2
    ensures r.Some? ==>
              var s, p := Strip(line), TabJoined(r.value);
              TabFree(r.value) && p <= s && (|p| < |s| ==> s[|p|] == '\t')
  {
    var s := Strip(line);
    var fields := Split(s, '\t');
    if |fields| < 3 then None
    else
      JoinSplit(s, '\t');
      JoinFirstThree(fields, '\t');
      Some(Row(fields[0], fields[1], fields[2]))
  }

  /**
   * A line with exactly three fields parses to the row whose tab-joined form is
   * the whole stripped line, and that row reads back as itself once written.
   */
  lemma ParseThreeFields(line: string)
    requires multiset(Strip(line))['\t'] == 2
    ensures ParseLine(line).Some?
    ensures TabJoined(ParseLine(line).value) == Strip(line)
    ensures Rereadable(ParseLine(line).value)
  {
    var s, row := Strip(line), ParseLine(line).value;
    var p := TabJoined(row);
    if |p| < |s| {
      PrefixThenChar(p, s, '\t');
      assert false;
    }
    assert p == s;
    assert p[0] == if row.gene == [] then '\t' else row.gene[0];
    assert p[|p| - 1] == if row.name == [] then '\t' else row.name[|row.name| - 1];
  }

  /** A rereadable row written by the script parses back to the same row. */
  lemma ParseFormatLine(row: Row)
    requires Rereadable(row)
    ensures ParseLine(FormatLine(row)) == Some(row)
  {
    StripFormatLine(row);
    SplitTabJoined(row);
  }

  lemma StripFormatLine(row: Row)
    requires Rereadable(row)
    ensures Strip(FormatLine(row)) == TabJoined(row)
  {
    var p := TabJoined(row);
    assert p[0] == row.gene[0];
    assert p[|p| - 1] == row.name[|row.name| - 1];
    assert AllSpace("\n");
    StripAround("", p, "\n");
    assert "" + p + "\n" == FormatLine(row);
  }

  lemma SplitTabJoined(row: Row)
    requires TabFree(row)
    ensures Split(TabJoined(row), '\t') == [row.gene, row.transcript, row.name]
  {
    var parts := [row.gene, row.transcript, row.name];
    JoinCons(row.transcript, [row.name], '\t');
    assert [row.transcript] + [row.name] == parts[1..];
    JoinCons(row.gene, parts[1..], '\t');
    assert Join(parts, '\t') == TabJoined(row);
    SplitJoin(parts, '\t');
  }
}
