/**
 * The two string operations the cleanup script relies on, as Python defines them:
 * `str.strip()` with no argument, and splitting on a single literal character
 * (`re.split("\t", s)` and `re.split("\.", s)` split exactly like `s.split(c)`).
 * `Join` is the inverse of `Split` and serves as its specification.
 */
module Text {

  /** Python's `str.isspace()` for one character: the whitespace `strip()` removes. */
  predicate IsSpace(c: char) {
    || ('\t' <= c <= '\r')              // tab, line feed, vertical tab, form feed, carriage return
    || ('\U{1c}' <= c <= '\U{1f}')      // file, group, record and unit separators
    || c == ' '
    || c == '\U{85}' || c == '\U{a0}' || c == '\U{1680}'
    || ('\U{2000}' <= c <= '\U{200a}')
    || c == '\U{2028}' || c == '\U{2029}' || c == '\U{202f}' || c == '\U{205f}' || c == '\U{3000}'
  }

  ghost predicate AllSpace(s: string) {
    forall i :: 0 <= i < |s| ==> IsSpace(s[i])
  }

  /** True when `s` has no whitespace at either end (a string `strip()` leaves alone). */
  predicate Trimmed(s: string) {
    s == [] || (!IsSpace(s[0]) && !IsSpace(s[|s| - 1]))
  }

  /** Number of whitespace characters at the start of `s`. */
  function LeadingSpace(s: string): (n: nat)
    ensures n <= |s|
    ensures AllSpace(s[..n])
    ensures n < |s| ==> !IsSpace(s[n])
  {
    if s != [] && IsSpace(s[0]) then 1 + LeadingSpace(s[1..]) else 0
  }

  /** Number of whitespace characters at the end of `s`. */
  function TrailingSpace(s: string): (n: nat)
    ensures n <= |s|
    ensures AllSpace(s[|s| - n..])
    ensures n < |s| ==> !IsSpace(s[|s| - 1 - n])
  {
    if s != [] && IsSpace(s[|s| - 1]) then 1 + TrailingSpace(s[..|s| - 1]) else 0
  }

  /** `t` without its trailing whitespace: a prefix with only whitespace after it. */
  function TrimEnd(t: string): (r: string)
    ensures r <= t
    ensures AllSpace(t[|r|..])
    ensures r != [] ==> !IsSpace(r[|r| - 1])
  {
    var n := TrailingSpace(t);
    assert t[|t| - n..] == t[|t[..|t| - n]|..];
    t[..|t| - n]
  }

  /**
   * `s.strip()`: the part of `s` left once the whitespace at both ends is removed.
   * The result is the infix of `s` that starts after its leading whitespace,
   * has only whitespace after it, and has no whitespace at its own ends.
   */
  function Strip(s: string): (r: string)
    ensures Trimmed(r)
    ensures var i := LeadingSpace(s);
            i + |r| <= |s| && s[i..i + |r|] == r && AllSpace(s[..i]) && AllSpace(s[i + |r|..])
  {
    var i := LeadingSpace(s);
    var r := TrimEnd(s[i..]);
    assert s[i..][|r|..] == s[i + |r|..];
    assert s[i..i + |r|] == s[i..][..|r|];
    assert r != [] ==> r[0] == s[i];
    r
  }

  /** Stripping a string that only has whitespace around an already trimmed core gives that core. */
  lemma StripAround(before: string, core: string, after: string)
    requires AllSpace(before) && AllSpace(after) && Trimmed(core)
    ensures Strip(before + core + after) == core
  {
    var s := before + core + after;
    var i := LeadingSpace(s);
    if core == [] {
      assert AllSpace(s);
      assert i == |s|;
    } else {
      assert s[|before|] == core[0];
      assert i == |before|;
      var t := s[i..];
      assert t == core + after;
      assert t[|core| - 1] == core[|core| - 1];
      assert TrailingSpace(t) == |after|;
      assert t[..|core|] == core;
    }
  }

  /**
   * `s.split(sep)` for a one-character separator: the pieces between separators,
   * one more than there are separators, none containing the separator.
   */
  function Split(s: string, sep: char): (parts: seq<string>)
    ensures |parts| == multiset(s)[sep] + 1
    ensures forall k :: 0 <= k < |parts| ==> sep !in parts[k]
  {
    if s == [] then [""]
    else
      var rest := Split(s[1..], sep);
      assert s == [s[0]] + s[1..];
      if s[0] == sep then [""] + rest
      else [[s[0]] + rest[0]] + rest[1..]
  }

  /** `sep.join(parts)`: the pieces with one separator between neighbours. */
  function Join(parts: seq<string>, sep: char): string {
    if |parts| == 0 then ""
    else if |parts| == 1 then parts[0]
    else parts[0] + [sep] + Join(parts[1..], sep)
  }

  /** How `Split` extends its result by one leading character. */
  lemma SplitCons(c: char, t: string, sep: char)
    ensures var rest := Split(t, sep);
            Split([c] + t, sep) == if c == sep then [""] + rest else [[c] + rest[0]] + rest[1..]
  {
    assert ([c] + t)[1..] == t;
  }

  /** Joining the pieces of a split gives back the string. */
  lemma {:induction false} JoinSplit(s: string, sep: char)
    ensures Join(Split(s, sep), sep) == s
  {
    if s != [] {
      JoinSplit(s[1..], sep);
      JoinSplitCons(s[0], s[1..], sep);
      assert s == [s[0]] + s[1..];
    }
  }

  /** The inductive step of `JoinSplit`: one more leading character. */
  lemma JoinSplitCons(c: char, t: string, sep: char)
    requires Join(Split(t, sep), sep) == t
    ensures Join(Split([c] + t, sep), sep) == [c] + t
  {
    SplitCons(c, t, sep);
    var rest := Split(t, sep);
    if c == sep {
      JoinCons("", rest, sep);
    } else {
      JoinExtendHead(c, rest, sep);
    }
  }

  /** Putting a character in front of the first piece puts it in front of the join. */
  lemma JoinExtendHead(c: char, parts: seq<string>, sep: char)
    requires |parts| >= 1
    ensures Join([[c] + parts[0]] + parts[1..], sep) == [c] + Join(parts, sep)
  {
    if |parts| > 1 {
      JoinCons([c] + parts[0], parts[1..], sep);
      JoinCons(parts[0], parts[1..], sep);
      assert [parts[0]] + parts[1..] == parts;
    }
  }

  /** `Join` of a non-empty tail puts one separator after the head. */
  lemma JoinCons(head: string, tail: seq<string>, sep: char)
    requires |tail| >= 1
    ensures Join([head] + tail, sep) == head + [sep] + Join(tail, sep)
  {
    assert ([head] + tail)[1..] == tail;
  }

  /**
   * The first three pieces of a join, with separators between them, start the
   * joined string, and a separator follows them unless they are all of it.
   */
  lemma JoinFirstThree(parts: seq<string>, sep: char)
    requires |parts| >= 3
    ensures var p, s := parts[0] + [sep] + parts[1] + [sep] + parts[2], Join(parts, sep);
            p <= s && (|p| < |s| ==> s[|p|] == sep)
  {
    assert parts == [parts[0]] + parts[1..];
    assert parts[1..] == [parts[1]] + parts[2..];
    JoinCons(parts[0], parts[1..], sep);
    JoinCons(parts[1], parts[2..], sep);
    if |parts| > 3 {
      assert parts[2..] == [parts[2]] + parts[3..];
      JoinCons(parts[2], parts[3..], sep);
    }
  }

  /** Three pieces joined: each neighbour pair has one separator between them. */
  lemma JoinThree(parts: seq<string>, sep: char)
    requires |parts| == 3
    ensures Join(parts, sep) == parts[0] + [sep] + parts[1] + [sep] + parts[2]
  {
    assert parts[2..] == [parts[2]];
    JoinCons(parts[1], parts[2..], sep);
    JoinCons(parts[0], parts[1..], sep);
    assert [parts[0]] + parts[1..] == parts;
    assert [parts[1]] + parts[2..] == parts[1..];
  }

  /** A proper prefix followed by `c` has fewer occurrences of `c` than the whole. */
  lemma PrefixThenChar(p: string, s: string, c: char)
    requires p <= s && |p| < |s| && s[|p|] == c
    ensures multiset(p)[c] < multiset(s)[c]
  {
    assert s == p + [c] + s[|p| + 1..];
  }

  /** A string without the separator splits into itself alone. */
  lemma {:induction false} SplitWhole(p: string, sep: char)
    requires sep !in p
    ensures Split(p, sep) == [p]
  {
    if p != [] {
      SplitWhole(p[1..], sep);
      assert p == [p[0]] + p[1..];
    }
  }

  /** A separator-free piece followed by the separator splits off as the first piece. */
  lemma {:induction false} SplitFirst(p: string, sep: char, rest: string)
    requires sep !in p
    ensures Split(p + [sep] + rest, sep) == [p] + Split(rest, sep)
  {
    if p == [] {
      SplitCons(sep, rest, sep);
      assert p + [sep] + rest == [sep] + rest;
    } else {
      var t := p[1..] + [sep] + rest;
      SplitFirst(p[1..], sep, rest);
      SplitCons(p[0], t, sep);
      ConsAppend(p, sep, rest);
      assert ([p[1..]] + Split(rest, sep))[1..] == Split(rest, sep);
    }
  }

  lemma ConsAppend(p: string, sep: char, rest: string)
    requires p != []
    ensures p + [sep] + rest == [p[0]] + (p[1..] + [sep] + rest)
    ensures [p[0]] + p[1..] == p
  {
  }

  /** Splitting a join of separator-free pieces gives back the pieces. */
  lemma {:induction false} SplitJoin(parts: seq<string>, sep: char)
    requires |parts| >= 1
    requires forall k :: 0 <= k < |parts| ==> sep !in parts[k]
    ensures Split(Join(parts, sep), sep) == parts
  {
    if |parts| == 1 {
      SplitWhole(parts[0], sep);
    } else {
      SplitJoin(parts[1..], sep);
      SplitFirst(parts[0], sep, Join(parts[1..], sep));
    }
  }
}
