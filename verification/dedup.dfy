/**
 * The gene table the cleanup script builds: a Python dict from gene ID to the
 * pair [transcript ID, gene name], filled line by line and only for gene IDs
 * it does not hold yet, so the first line carrying a gene ID wins. A Python
 * dict iterates in insertion order, and the script's output follows that
 * order, so the table here is the map together with its keys in insertion order.
 */
module Dedup {
  import opened Mart

  /** The value stored for a gene: [transcript ID, gene name]. */
  datatype Entry = Entry(transcript: string, name: string)

  /** A dict as a value: its keys in insertion order, and the mapping itself. */
  datatype Dict = Dict(order: seq<string>, entries: map<string, Entry>)

  ghost predicate Distinct(s: seq<string>) {
    forall i, j :: 0 <= i < j < |s| ==> s[i] != s[j]
  }

  /** Every key is listed once in the insertion order, and only keys are listed. */
  ghost predicate WellFormed(d: Dict) {
    Distinct(d.order) && forall g :: g in d.entries <==> g in d.order
  }

  /** The distinct gene IDs among some rows. */
  function Genes(rows: seq<Row>): set<string> {
    set i | 0 <= i < |rows| :: rows[i].gene
  }

  function EntryOf(row: Row): Entry {
    Entry(row.transcript, row.name)
  }

  /** One pass of the ingest loop: add the row's gene only if it is not a key yet. */
  function Record(d: Dict, row: Row): (r: Dict)
    ensures row.gene in d.entries ==> r == d
    ensures r.entries.Keys == d.entries.Keys + {row.gene}
    ensures row.gene !in d.entries ==> r.order == d.order + [row.gene] && r.entries[row.gene] == EntryOf(row)
    ensures forall h :: h in d.entries ==> r.entries[h] == d.entries[h]
    ensures WellFormed(d) ==> WellFormed(r)
  {
    if row.gene in d.entries then d
    else Dict(d.order + [row.gene], d.entries[row.gene := EntryOf(row)])
  }

  /**
   * The table after ingesting `rows` in order, starting from the empty dict.
   * Its keys are exactly the distinct gene IDs of the rows, each listed once in
   * the insertion order.
   */
  function Ingested(rows: seq<Row>): (d: Dict)
    ensures WellFormed(d)
    ensures d.entries.Keys == Genes(rows)
  {
    if rows == [] then Dict([], map[])
    else
      var prefix, last := rows[..|rows| - 1], rows[|rows| - 1];
      assert rows == prefix + [last];
      assert Genes(rows) == Genes(prefix) + {last.gene} by {
        forall g | g in Genes(rows) ensures g in Genes(prefix) + {last.gene} {
          var i :| 0 <= i < |rows| && rows[i].gene == g;
          if i < |prefix| { assert prefix[i] == rows[i]; }
        }
        forall g | g in Genes(prefix) ensures g in Genes(rows) {
          var i :| 0 <= i < |prefix| && prefix[i].gene == g;
          assert rows[i] == prefix[i];
        }
      }
      Record(Ingested(prefix), last)
  }

  /**
   * Ingesting one more row: a gene ID that is already a key leaves the table
   * exactly as it was (no overwrite, no new key); a new gene ID is appended to
   * the insertion order and mapped to the row's transcript and name.
   */
  lemma IngestedStep(rows: seq<Row>, row: Row)
    ensures row.gene in Genes(rows) ==> Ingested(rows + [row]) == Ingested(rows)
    ensures row.gene !in Genes(rows) ==>
              var d := Ingested(rows);
              Ingested(rows + [row]) == Dict(d.order + [row.gene], d.entries[row.gene := EntryOf(row)])
  {
    assert (rows + [row])[..|rows|] == rows;
  }

  /**
   * The table maps a gene ID to the transcript and name of the FIRST row that
   * carries it; later rows with the same gene ID change nothing.
   */
  lemma {:induction false} IngestedKeepsFirst(rows: seq<Row>, i: nat)
    requires i < |rows|
    requires forall j :: 0 <= j < i ==> rows[j].gene != rows[i].gene
    ensures rows[i].gene in Ingested(rows).entries
    ensures Ingested(rows).entries[rows[i].gene] == EntryOf(rows[i])
  {
    var prefix, last := rows[..|rows| - 1], rows[|rows| - 1];
    assert rows == prefix + [last];
    IngestedStep(prefix, last);
    if i < |rows| - 1 {
      assert prefix[i] == rows[i];
      IngestedKeepsFirst(prefix, i);
    }
  }

  /** Position of the first row carrying gene ID `g`. */
  function FirstIndex(rows: seq<Row>, g: string): (k: nat)
    requires g in Genes(rows)
    ensures k < |rows| && rows[k].gene == g
    ensures forall j :: 0 <= j < k ==> rows[j].gene != g
  {
    if rows[0].gene == g then 0
    else
      assert g in Genes(rows[1..]) by {
        var i :| 0 <= i < |rows| && rows[i].gene == g;
        assert rows[1..][i - 1] == rows[i];
      }
      1 + FirstIndex(rows[1..], g)
  }

  /** Appending a row does not move the first occurrence of a gene already present. */
  lemma FirstIndexExtend(rows: seq<Row>, row: Row, g: string)
    requires g in Genes(rows)
    ensures g in Genes(rows + [row])
    ensures FirstIndex(rows + [row], g) == FirstIndex(rows, g)
  {
    var k := FirstIndex(rows, g);
    assert (rows + [row])[k] == rows[k];
  }

  /** A gene absent from `rows` first occurs in `rows + [row]` at the appended row. */
  lemma FirstIndexNew(rows: seq<Row>, row: Row)
    requires row.gene !in Genes(rows)
    ensures row.gene in Genes(rows + [row])
    ensures FirstIndex(rows + [row], row.gene) == |rows|
  {
    assert (rows + [row])[|rows|] == row;
  }

  /** Gene IDs of `rows`, listed so that each one first occurs in `rows` after the ones before it. */
  ghost predicate FirstSeenOrder(rows: seq<Row>, order: seq<string>) {
    && (forall k :: 0 <= k < |order| ==> order[k] in Genes(rows))
    && (forall a, b :: 0 <= a < b < |order| ==> FirstIndex(rows, order[a]) < FirstIndex(rows, order[b]))
  }

  /**
   * One more row keeps a first-seen order valid, and appending the row's gene ID
   * to it keeps it valid too when that gene ID is new.
   */
  lemma FirstSeenOrderStep(rows: seq<Row>, row: Row, order: seq<string>)
    requires FirstSeenOrder(rows, order)
    ensures FirstSeenOrder(rows + [row], order)
    ensures row.gene !in Genes(rows) ==> FirstSeenOrder(rows + [row], order + [row.gene])
  {
    forall k | 0 <= k < |order| ensures order[k] in Genes(rows + [row]) && FirstIndex(rows + [row], order[k]) == FirstIndex(rows, order[k]) {
      FirstIndexExtend(rows, row, order[k]);
    }
    if row.gene !in Genes(rows) {
      FirstIndexNew(rows, row);
      var longer := order + [row.gene];
      forall a, b | 0 <= a < b < |longer|
        ensures FirstIndex(rows + [row], longer[a]) < FirstIndex(rows + [row], longer[b])
      {
        assert longer[a] == order[a];
        if b < |order| {
          assert longer[b] == order[b];
        }
      }
    }
  }

  /**
   * The insertion order is first-encounter order: of two keys, the one listed
   * earlier first occurs earlier in the input.
   */
  lemma {:induction false} IngestedOrder(rows: seq<Row>)
    ensures FirstSeenOrder(rows, Ingested(rows).order)
  {
    if rows != [] {
      var prefix, last := rows[..|rows| - 1], rows[|rows| - 1];
      assert rows == prefix + [last];
      IngestedOrder(prefix);
      IngestedStep(prefix, last);
      FirstSeenOrderStep(prefix, last, Ingested(prefix).order);
    }
  }

  lemma {:induction false} DistinctCardinality(s: seq<string>)
    requires Distinct(s)
    ensures |set i | 0 <= i < |s| :: s[i]| == |s|
  {
    if s != [] {
      var prefix := s[..|s| - 1];
      DistinctCardinality(prefix);
      var all, before := set i | 0 <= i < |s| :: s[i], set i | 0 <= i < |prefix| :: prefix[i];
      assert all == before + {s[|s| - 1]} by {
        forall g | g in all ensures g in before + {s[|s| - 1]} {
          var i :| 0 <= i < |s| && s[i] == g;
          if i < |prefix| { assert prefix[i] == s[i]; }
        }
      }
      assert s[|s| - 1] !in before;
    }
  }

  /**
   * `len(ID_dict)`: the number of keys, which is the length of the insertion
   * order and the number of distinct gene IDs in the input (0 for no input).
   */
  lemma IngestedCount(rows: seq<Row>)
    ensures |Ingested(rows).entries| == |Ingested(rows).order| == |Genes(rows)|
    ensures rows == [] ==> |Ingested(rows).entries| == 0
  {
    var d := Ingested(rows);
    DistinctCardinality(d.order);
    assert d.entries.Keys == set i | 0 <= i < |d.order| :: d.order[i];
  }

  /** Rows whose gene IDs are pairwise distinct. */
  ghost predicate DistinctGenes(rows: seq<Row>) {
    forall i, j :: 0 <= i < j < |rows| ==> rows[i].gene != rows[j].gene
  }

  /** When no gene ID repeats, every row is kept, in input order. */
  lemma {:induction false} IngestedDistinct(rows: seq<Row>)
    requires DistinctGenes(rows)
    ensures |Ingested(rows).order| == |rows|
    ensures forall i :: 0 <= i < |rows| ==>
              Ingested(rows).order[i] == rows[i].gene &&
              Ingested(rows).entries[rows[i].gene] == EntryOf(rows[i])
  {
    if rows != [] {
      var prefix, last := rows[..|rows| - 1], rows[|rows| - 1];
      assert rows == prefix + [last];
      assert forall k :: 0 <= k < |prefix| ==> prefix[k] == rows[k];
      IngestedDistinct(prefix);
      assert last.gene !in Genes(prefix);
      IngestedStep(prefix, last);
      var before, after := Ingested(prefix), Ingested(rows);
      assert after.order == before.order + [last.gene];
      assert after.entries == before.entries[last.gene := EntryOf(last)];
      forall i | 0 <= i < |rows|
        ensures after.order[i] == rows[i].gene && after.entries[rows[i].gene] == EntryOf(rows[i])
      {
        if i < |prefix| {
          assert before.order[i] == prefix[i].gene;
          assert before.entries[prefix[i].gene] == EntryOf(prefix[i]);
        }
      }
    }
  }
}
