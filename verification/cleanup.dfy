/**
 * The cleanup script as a whole. `Ingest` is its first loop (read every line,
 * keep the first line per gene ID), `Emit` its second (write one row per key
 * with the transcript ID normalised), and `Cleanup` runs both and reports
 * `len(ID_dict)`. `Cleaned` states what a run produces as a function of the
 * input lines; the lemmas below it state the script's guarantees in terms of
 * the input.
 */
module Cleanup {
  import opened Text
  import opened Mart
  import opened Transcript
  import opened Dedup

  /**
   * A run either completes or stops at the first line that has fewer than three
   * tab-separated fields (the script's out-of-range index), identified by its
   * 0-based position.
   */
  datatype Outcome<T> = Ok(value: T) | Malformed(line: nat)

  /** What a completed run produces: the rows written, and the unique gene count it prints. */
  datatype Report = Report(rows: seq<Row>, uniqueGenes: nat)

  /**
   * Gather per-line results in order: every value when there is no failure,
   * otherwise the position of the first failure.
   */
  function Collect<T>(items: seq<Option<T>>): (r: Outcome<seq<T>>)
    ensures r.Ok? ==>
              |r.value| == |items| && forall i :: 0 <= i < |items| ==> items[i] == Some(r.value[i])
    ensures r.Malformed? ==>
              r.line < |items| && items[r.line].None? &&
              forall i :: 0 <= i < r.line ==> items[i].Some?
  {
    if items == [] then Ok([])
    else
      var n := |items| - 1;
      match Collect(items[..n])
      case Malformed(k) => Malformed(k)
      case Ok(values) =>
        match items[n]
        case None => Malformed(n)
        case Some(v) => Ok(values + [v])
  }

  /** Each line parsed on its own. */
  function ParseEach(lines: seq<string>): (parsed: seq<Option<Row>>) {
    seq(|lines|, i requires 0 <= i < |lines| => ParseLine(lines[i]))
  }

  /**
   * Parse every line in order: all rows when every line has three fields,
   * otherwise the position of the first line that does not.
   */
  function ParseAll(lines: seq<string>): (r: Outcome<seq<Row>>)
    ensures r.Ok? ==>
              |r.value| == |lines| && forall i :: 0 <= i < |lines| ==> ParseLine(lines[i]) == Some(r.value[i])
    ensures r.Malformed? ==>
              r.line < |lines| && ParseLine(lines[r.line]).None? &&
              forall i :: 0 <= i < r.line ==> ParseLine(lines[i]).Some?
  {
    var parsed := ParseEach(lines);
    assert forall i :: 0 <= i < |lines| ==> parsed[i] == ParseLine(lines[i]);
    Collect(parsed)
  }

  /** A run that parses every line completes with exactly those rows. */
  lemma ParseAllCompletes(lines: seq<string>, rows: seq<Row>)
    requires |rows| == |lines|
    requires forall j :: 0 <= j < |lines| ==> ParseLine(lines[j]) == Some(rows[j])
    ensures ParseAll(lines) == Ok(rows)
  {
    var r := ParseAll(lines);
    assert forall k :: 0 <= k < |lines| ==> ParseLine(lines[k]).Some?;
    assert forall j :: 0 <= j < |lines| ==> Some(r.value[j]) == Some(rows[j]);
    assert r.value == rows;
  }

  /** A run stops at line `i` exactly when `i` is the first line that does not parse. */
  lemma ParseAllStops(lines: seq<string>, i: nat)
    requires i < |lines| && ParseLine(lines[i]).None?
    requires forall j :: 0 <= j < i ==> ParseLine(lines[j]).Some?
    ensures ParseAll(lines) == Malformed(i)
  {
  }

  /** The row written for key `g`: gene ID and name as stored, transcript ID normalised. */
  function OutputRow(d: Dict, g: string): Row
    requires g in d.entries
  {
    Row(g, Normalize(d.entries[g].transcript), d.entries[g].name)
  }

  /** The rows written for a table, one per key, in insertion order. */
  function Emitted(d: Dict): seq<Row>
    requires WellFormed(d)
  {
    seq(|d.order|, i requires 0 <= i < |d.order| => OutputRow(d, d.order[i]))
  }

  /** What a run produces once its lines are parsed into `rows`. */
  function Summarize(rows: seq<Row>): Report {
    var d := Ingested(rows);
    Report(Emitted(d), |d.entries|)
  }

  /** What a run of the script produces from its input lines. */
  function Cleaned(lines: seq<string>): Outcome<Report> {
    match ParseAll(lines)
    case Malformed(k) => Malformed(k)
    case Ok(rows) => Ok(Summarize(rows))
  }

  /**
   * The first loop: strip and split each line, stop at a line with fewer than
   * three fields, and add the line's gene ID to the dict only if it is not a
   * key yet. On success the dict is the first-occurrence table of the parsed rows.
   */
  method Ingest(lines: seq<string>) returns (r: Outcome<Dict>)
    ensures ParseAll(lines).Malformed? ==> r == Malformed(ParseAll(lines).line)
    ensures ParseAll(lines).Ok? ==> r == Ok(Ingested(ParseAll(lines).value))
  {
    ghost var rows: seq<Row> := [];
    var order: seq<string> := [];
    var entries: map<string, Entry> := map[];
    for i := 0 to |lines|
      invariant |rows| == i
      invariant forall j :: 0 <= j < i ==> ParseLine(lines[j]) == Some(rows[j])
      invariant Dict(order, entries) == Ingested(rows)
    {
      var parsed := ParseLine(lines[i]);
      if parsed.None? {
        ParseAllStops(lines, i);
        return Malformed(i);
      }
      var row := parsed.value;
      var gene, transcript, name := row.gene, row.transcript, row.name;
      IngestedStep(rows, row);
      if gene !in entries {
        entries := entries[gene := Entry(transcript, name)];
        order := order + [gene];
      }
      ghost var before := rows;
      rows := rows + [row];
      forall j | 0 <= j <= i ensures ParseLine(lines[j]) == Some(rows[j]) {
        if j < i {
          assert rows[j] == before[j];
        } else {
          assert rows[j] == row && lines[j] == lines[i];
        }
      }
    }
    ParseAllCompletes(lines, rows);
    return Ok(Dict(order, entries));
  }

  /**
   * The second loop: for each key in insertion order, split the stored
   * transcript ID on dots and write the row, with the first two segments when
   * there are exactly three and the ID as stored otherwise.
   */
  method Emit(d: Dict) returns (rows: seq<Row>)
    requires WellFormed(d)
    ensures |rows| == |d.order|
    ensures forall i :: 0 <= i < |rows| ==>
              rows[i].gene == d.order[i] &&
              rows[i].transcript == Normalize(d.entries[d.order[i]].transcript) &&
              rows[i].name == d.entries[d.order[i]].name
  {
    rows := [];
    for i := 0 to |d.order|
      invariant |rows| == i
      invariant forall j :: 0 <= j < i ==> rows[j] == OutputRow(d, d.order[j])
    {
      var gene := d.order[i];
      var entry := d.entries[gene];
      var segments := Split(entry.transcript, '.');
      NormalizeBySegments(entry.transcript);
      ghost var before := rows;
      if |segments| == 3 {
        rows := rows + [Row(gene, segments[0] + "." + segments[1], entry.name)];
      } else {
        rows := rows + [Row(gene, entry.transcript, entry.name)];
      }
      assert rows[i] == OutputRow(d, gene);
      forall j | 0 <= j <= i ensures rows[j] == OutputRow(d, d.order[j]) {
        if j < i {
          assert rows[j] == before[j];
        } else {
          assert d.order[j] == gene;
        }
      }
    }
  }

  /** The whole script: ingest, emit, and count the keys. */
  method Cleanup(lines: seq<string>) returns (r: Outcome<Report>)
    ensures r == Cleaned(lines)
  {
    var ingested := Ingest(lines);
    if ingested.Malformed? {
      return Malformed(ingested.line);
    }
    var d := ingested.value;
    var rows := Emit(d);
    assert forall i :: 0 <= i < |rows| ==> rows[i] == Emitted(d)[i];
    assert rows == Emitted(d);
    return Ok(Report(rows, |d.entries|));
  }

  /**
   * A run fails exactly when some line has fewer than three tab-separated
   * fields once stripped (fewer than two tabs), and it then names the first such line.
   */
  lemma CleanedFailsOnShortLine(lines: seq<string>)
    ensures Cleaned(lines).Malformed? <==>
              exists i :: 0 <= i < |lines| && multiset(Strip(lines[i]))['\t'] < 2
    ensures Cleaned(lines).Malformed? ==>
              var k := Cleaned(lines).line;
              k < |lines| && multiset(Strip(lines[k]))['\t'] < 2 &&
              forall i :: 0 <= i < k ==> multiset(Strip(lines[i]))['\t'] >= 2
  {
    if ParseAll(lines).Ok? {
      forall i | 0 <= i < |lines| ensures multiset(Strip(lines[i]))['\t'] >= 2 {
        assert ParseLine(lines[i]).Some?;
      }
    }
  }

  /** Empty input: nothing is written and the unique gene count is 0. */
  lemma CleanedEmpty()
    ensures Cleaned([]) == Ok(Report([], 0))
  {
    ParseAllCompletes([], []);
    IngestedCount([]);
    assert Emitted(Ingested([])) == [];
  }

  /**
   * A completed run writes exactly one row per distinct gene ID of its parsed
   * rows (no gene twice, none missing), and the count it reports is that number.
   */
  lemma SummarizeOneRowPerGene(rows: seq<Row>)
    ensures var out := Summarize(rows);
            && out.uniqueGenes == |out.rows| == |Genes(rows)|
            && DistinctGenes(out.rows)
            && Genes(out.rows) == Genes(rows)
  {
    IngestedCount(rows);
    EmittedKeys(Ingested(rows));
  }

  /** The rows written for a table carry its keys, each once. */
  lemma EmittedKeys(d: Dict)
    requires WellFormed(d)
    ensures |Emitted(d)| == |d.order|
    ensures forall k :: 0 <= k < |d.order| ==> Emitted(d)[k].gene == d.order[k]
    ensures DistinctGenes(Emitted(d))
    ensures Genes(Emitted(d)) == d.entries.Keys
  {
    var out := Emitted(d);
    assert forall i :: 0 <= i < |out| ==> out[i].gene == d.order[i];
    forall g | g in d.entries ensures g in Genes(out) {
      var k :| 0 <= k < |d.order| && d.order[k] == g;
      assert out[k].gene == g;
    }
  }

  /**
   * The row written for a gene ID carries the transcript ID (normalised) and the
   * gene name of the FIRST row with that gene ID.
   */
  lemma SummarizeKeepsFirst(rows: seq<Row>, i: nat)
    requires i < |rows|
    requires forall j :: 0 <= j < i ==> rows[j].gene != rows[i].gene
    ensures var out := Summarize(rows).rows;
            exists k :: 0 <= k < |out| && out[k] == Row(rows[i].gene, Normalize(rows[i].transcript), rows[i].name)
  {
    var d := Ingested(rows);
    IngestedKeepsFirst(rows, i);
    var k :| 0 <= k < |d.order| && d.order[k] == rows[i].gene;
    assert Emitted(d)[k] == OutputRow(d, rows[i].gene);
  }

  /**
   * Rows are written in first-encounter order of their gene IDs: of two written
   * rows, the earlier one's gene ID first occurs earlier in the input.
   */
  lemma SummarizeOrder(rows: seq<Row>)
    ensures var out := Summarize(rows).rows;
            forall a, b :: 0 <= a < b < |out| ==>
              out[a].gene in Genes(rows) && out[b].gene in Genes(rows) &&
              FirstIndex(rows, out[a].gene) < FirstIndex(rows, out[b].gene)
  {
    IngestedOrder(rows);
    EmittedKeys(Ingested(rows));
  }

  /** The output file's lines, in the order they are written. */
  function Render(rows: seq<Row>): seq<string> {
    seq(|rows|, i requires 0 <= i < |rows| => FormatLine(rows[i]))
  }

  /**
   * Every written row reads back as itself when every parsed row does: the
   * gene ID and name are copied and the transcript ID only loses a suffix.
   */
  lemma SummarizeRereadable(rows: seq<Row>)
    requires forall i :: 0 <= i < |rows| ==> Rereadable(rows[i])
    ensures forall k :: 0 <= k < |Summarize(rows).rows| ==> Rereadable(Summarize(rows).rows[k])
  {
    IngestedOrder(rows);
    forall k | 0 <= k < |Summarize(rows).rows| ensures Rereadable(Summarize(rows).rows[k]) {
      var g := Ingested(rows).order[k];
      var i := FirstIndex(rows, g);
      IngestedKeepsFirst(rows, i);
      NormalizeTabFree(rows[i].transcript);
      assert Summarize(rows).rows[k] == Row(g, Normalize(rows[i].transcript), rows[i].name);
    }
  }

  /**
   * Each written line of a rereadable row has exactly three fields, so the
   * script's own output meets the precondition of `CleanedIsFixedPoint`.
   */
  lemma RenderThreeFields(rows: seq<Row>)
    requires forall k :: 0 <= k < |rows| ==> Rereadable(rows[k])
    ensures forall k :: 0 <= k < |Render(rows)| ==> multiset(Strip(Render(rows)[k]))['\t'] == 2
  {
    forall k | 0 <= k < |rows| ensures multiset(Strip(Render(rows)[k]))['\t'] == 2 {
      StripFormatLine(rows[k]);
      TabJoinedTabs(rows[k]);
    }
  }

  /** Written lines of rereadable rows parse back to exactly those rows. */
  lemma ParseAllRender(rows: seq<Row>)
    requires forall k :: 0 <= k < |rows| ==> Rereadable(rows[k])
    ensures ParseAll(Render(rows)) == Ok(rows)
  {
    var lines := Render(rows);
    forall k | 0 <= k < |rows| ensures ParseLine(lines[k]) == Some(rows[k]) {
      ParseFormatLine(rows[k]);
    }
    ParseAllCompletes(lines, rows);
  }

  /**
   * Deduplicating and normalising the script's own output changes nothing: the
   * written gene IDs are distinct, so every row is kept, and each transcript ID
   * is already normalised.
   */
  lemma SummarizeIdempotent(rows: seq<Row>)
    ensures Summarize(Summarize(rows).rows) == Summarize(rows)
  {
    var out := Summarize(rows).rows;
    SummarizeOneRowPerGene(rows);
    IngestedCount(out);
    EmittedFixed(rows);
  }

  /** Re-emitting the written rows gives them back unchanged. */
  lemma EmittedFixed(rows: seq<Row>)
    ensures var out := Summarize(rows).rows; Emitted(Ingested(out)) == out
  {
    var out := Summarize(rows).rows;
    SummarizeOneRowPerGene(rows);
    IngestedDistinct(out);
    var again := Emitted(Ingested(out));
    forall k | 0 <= k < |out| ensures again[k] == out[k] {
      var g := Ingested(rows).order[k];
      var t := Ingested(rows).entries[g].transcript;
      assert out[k] == OutputRow(Ingested(rows), g);
      assert out[k].transcript == Normalize(t);
      NormalizeIdempotent(t);
      assert Ingested(out).order[k] == out[k].gene;
      assert Ingested(out).entries[out[k].gene] == EntryOf(out[k]);
      assert again[k] == OutputRow(Ingested(out), out[k].gene);
    }
    assert |again| == |out|;
  }

  /**
   * On a BioMart export whose every line has exactly three fields, cleaning the
   * script's own output changes nothing: the written lines parse back to the
   * same rows, no gene ID repeats, and each transcript ID is already normalised.
   * The output is read back as `Render`, one line per row. That is how a file
   * reads back when no field holds a line break, and fields cut from the lines
   * of a file hold none.
   */
  lemma CleanedIsFixedPoint(lines: seq<string>)
    requires forall i :: 0 <= i < |lines| ==> multiset(Strip(lines[i]))['\t'] == 2
    ensures Cleaned(lines).Ok?
    ensures Cleaned(Render(Cleaned(lines).value.rows)) == Cleaned(lines)
  {
    CleanedFailsOnShortLine(lines);
    var rows := ParseAll(lines).value;
    forall i | 0 <= i < |rows| ensures Rereadable(rows[i]) {
      ParseThreeFields(lines[i]);
    }
    SummarizeRereadable(rows);
    ParseAllRender(Summarize(rows).rows);
    SummarizeIdempotent(rows);
  }
}
