/**
 * Transcript stable IDs are dot-separated: a base, an index and optionally a
 * version, as in `F07C3.7.1` (base `F07C3`, index `7`, version `1`). The
 * cleanup script drops the version: an ID with exactly three dot-separated
 * segments keeps the first two, and any other ID is kept whole.
 */
module Transcript {
  import opened Text

  /**
   * The emitted transcript ID. With exactly two dots the result is the ID up to
   * (not including) its last dot, so the version segment and the dot before it
   * go; with any other number of dots the ID is unchanged. Nothing else is
   * touched: an isoform letter in the index (`T13A10.10a.1`) stays (`T13A10.10a`).
   */
  function Normalize(id: string): (r: string)
    ensures multiset(id)['.'] != 2 ==> r == id
    ensures multiset(id)['.'] == 2 ==>
              && |r| < |id| && r == id[..|r|] && id[|r|] == '.'
              && '.' !in id[|r| + 1..]
              && multiset(r)['.'] == 1
  {
    var segments := Split(id, '.');
    if |segments| == 3 then
      NormalizeThree(id);
      segments[0] + "." + segments[1]
    else
      id
  }

  /** An ID with three dot-separated segments is the first two, a dot, and the third. */
  lemma NormalizeThree(id: string)
    requires |Split(id, '.')| == 3
    ensures var segments := Split(id, '.');
            var r := segments[0] + "." + segments[1];
            && id == r + "." + segments[2]
            && |r| < |id| && r == id[..|r|] && id[|r|] == '.'
            && id[|r| + 1..] == segments[2]
            && multiset(r)['.'] == 1
  {
    var segments := Split(id, '.');
    JoinSplit(id, '.');
    JoinThree(segments, '.');
    var r := segments[0] + "." + segments[1];
    assert id == r + "." + segments[2];
    assert id[..|r|] == r;
    assert id[|r| + 1..] == segments[2];
    assert multiset(r) == multiset(segments[0]) + multiset{'.'} + multiset(segments[1]);
  }

  /**
   * `Normalize` unfolded into the branch the emit loop takes on the segment
   * count. It only links the loop body of `Cleanup.Emit` to `Normalize`; the
   * segment-level property itself is `NormalizeSegments`.
   */
  lemma NormalizeBySegments(id: string)
    ensures var segments := Split(id, '.');
            Normalize(id) == if |segments| == 3 then segments[0] + "." + segments[1] else id
  {
  }

  /** Normalising twice is normalising once: a normalised ID has at most one dot or is unchanged. */
  lemma NormalizeIdempotent(id: string)
    ensures Normalize(Normalize(id)) == Normalize(id)
  {
  }

  /**
   * In segment terms: a three-segment ID becomes its base and index segments,
   * and an ID with any other segment count (one, two, four or more) is unchanged.
   */
  lemma NormalizeSegments(id: string)
    ensures |Split(id, '.')| == 3 ==> Split(Normalize(id), '.') == Split(id, '.')[..2]
    ensures |Split(id, '.')| != 3 ==> Normalize(id) == id
  {
    var segments := Split(id, '.');
    if |segments| == 3 {
      var base := segments[..2];
      JoinCons(base[0], [base[1]], '.');
      assert [base[0]] + [base[1]] == base;
      SplitJoin(base, '.');
    }
  }

  /**
   * A dot-free base, index and version: the version and its dot are dropped and
   * the index is kept as it is, so `F07C3.7.1` becomes `F07C3.7` and
   * `T13A10.10a.1` becomes `T13A10.10a`.
   */
  lemma NormalizeDropsVersion(base: string, index: string, version: string)
    requires '.' !in base && '.' !in index && '.' !in version
    ensures Normalize(base + "." + index + "." + version) == base + "." + index
  {
    var segments := [base, index, version];
    JoinCons(index, [version], '.');
    assert [index] + [version] == segments[1..];
    JoinCons(base, segments[1..], '.');
    var id := base + "." + index + "." + version;
    assert Join(segments, '.') == id;
    SplitJoin(segments, '.');
    assert Split(id, '.') == segments;
  }

  /** A dot-free base and index without a version pass through unchanged (`F07C3.7`). */
  lemma NormalizeKeepsUnversioned(base: string, index: string)
    requires '.' !in base && '.' !in index
    ensures Normalize(base + "." + index) == base + "." + index
  {
    JoinCons(base, [index], '.');
    assert Join([base, index], '.') == base + "." + index;
    SplitJoin([base, index], '.');
  }

  /** Normalising never introduces a tab: the result is the ID or a prefix of it. */
  lemma NormalizeTabFree(id: string)
    requires '\t' !in id
    ensures '\t' !in Normalize(id)
  {
    var r := Normalize(id);
    assert forall k :: 0 <= k < |r| ==> r[k] == id[k];
  }
}
