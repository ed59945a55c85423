/** Splitting text at a delimiter character with the semantics of repeated
    `std::getline(stream, field, delim)` calls: every delimiter ends a field,
    an empty input yields no field, and a delimiter at the very end does not
    start a further (empty) field. The same splitting turns a file into lines
    (delimiter '\n') and a line into cells (delimiter ','). */
module Delimited {

  /** The fields that a loop `while (std::getline(ss, field, d))` collects
      from a stream holding `s`. A delimiter ends the current field (an
      empty one if nothing came before it); any other character extends the
      field that the rest of the text starts with, or starts the only field
      when nothing follows. */
  function Split(s: string, d: char): (r: seq<string>)
    ensures r == [] <==> s == []
  {
    if s == [] then []
    else if s[0] == d then [[]] + Split(s[1..], d)
    else
      var r := Split(s[1..], d);
      if r == [] then [[s[0]]] else [[s[0]] + r[0]] + r[1..]
  }

  /** A non-empty text without the delimiter is one field. */
  lemma {:induction false} SplitWhole(s: string, d: char)
    requires s != [] && d !in s
    ensures Split(s, d) == [s]
    decreases |s|
  {
    if |s| == 1 {
      assert s[1..] == [] && [s[0]] == s;
    } else {
      SplitWhole(s[1..], d);
      assert [s[0]] + s[1..] == s;
    }
  }

  /** A text made of a delimiter-free field, a delimiter and more text splits
      into that field followed by the fields of the rest. */
  lemma {:induction false} SplitAfterField(field: string, d: char, rest: string)
    requires d !in field
    ensures Split(field + [d] + rest, d) == [field] + Split(rest, d)
    decreases |field|
  {
    var s := field + [d] + rest;
    if field == [] {
      assert s[1..] == rest;
    } else {
      assert s[1..] == field[1..] + [d] + rest;
      SplitAfterField(field[1..], d, rest);
      assert [s[0]] + field[1..] == field;
    }
  }

  /** Every character of a field comes from the text and is not the
      delimiter: no field holds the delimiter, and a character the text lacks
      is in no field. */
  lemma {:induction false} SplitFieldsFree(s: string, d: char)
    ensures forall k, ch :: 0 <= k < |Split(s, d)| && ch in Split(s, d)[k] ==> ch in s && ch != d
    decreases |s|
  {
    if s != [] {
      SplitFieldsFree(s[1..], d);
      var r := Split(s[1..], d);
      var fields := Split(s, d);
      forall k, ch | 0 <= k < |fields| && ch in fields[k]
        ensures ch in s && ch != d
      {
        if s[0] == d {
          assert fields[k] == r[k - 1];
          assert ch in s[1..];
        } else if r == [] {
          assert ch == s[0];
        } else if k == 0 {
          assert ch == s[0] || ch in r[0];
          assert ch in s[1..] ==> ch in s;
        } else {
          assert fields[k] == r[k];
          assert ch in s[1..];
        }
      }
    }
  }

  /** No field holds the delimiter. */
  lemma SplitNoDelimiter(s: string, d: char)
    ensures forall k :: 0 <= k < |Split(s, d)| ==> d !in Split(s, d)[k]
  {
    SplitFieldsFree(s, d);
  }

  /** The fields written out each followed by `d`, as a file is written
      line by line, each line ended by '\n'. */
  function Terminated(fields: seq<string>, d: char): string
  {
    if fields == [] then [] else fields[0] + [d] + Terminated(fields[1..], d)
  }

  /** The fields written out with `d` between each two of them. */
  function Join(fields: seq<string>, d: char): string
  {
    if fields == [] then []
    else if |fields| == 1 then fields[0]
    else fields[0] + [d] + Join(fields[1..], d)
  }

  /** Number of occurrences of `d` in `s`. */
  function Count(s: string, d: char): nat
  {
    multiset(s)[d]
  }

  /** One call of `std::getline(stream, field, d)` on a stream holding `s`
      whose read position is `pos`. It fails at the end of the stream;
      otherwise it extracts characters up to the next `d` (consumed, not
      stored) or up to the end, and the fields still to come are those of
      the rest of the stream. */
  method Getline(s: string, pos: nat, d: char) returns (ok: bool, field: string, next: nat)
    requires pos <= |s|
    ensures ok <==> pos < |s|
    ensures ok ==> pos < next <= |s|
    ensures ok ==> d !in field && Split(s[pos..], d) == [field] + Split(s[next..], d)
    ensures !ok ==> field == [] && next == pos
  {
    if pos == |s| {
      return false, [], pos;
    }
    var j := pos;
    while j < |s| && s[j] != d
      invariant pos <= j <= |s|
      invariant forall k :: pos <= k < j ==> s[k] != d
    {
      j := j + 1;
    }
    ok, field := true, s[pos..j];
    if j < |s| {
      next := j + 1;
      assert s[pos..] == field + [d] + s[next..];
      SplitAfterField(field, d, s[next..]);
    } else {
      next := j;
      assert s[pos..] == field;
      SplitWhole(field, d);
    }
  }

  /** Writing out a field in front of more fields. */
  lemma TerminatedCons(field: string, fields: seq<string>, d: char)
    ensures Terminated([field] + fields, d) == field + [d] + Terminated(fields, d)
  {
    assert ([field] + fields)[1..] == fields;
  }

  /** Writing out the fields of a text with one more character in front
      writes out that character first, unless that character alone would
      form a last field without its delimiter. */
  lemma TerminatedSplitCons(c: char, t: string, d: char)
    requires t != [] || c == d
    ensures Terminated(Split([c] + t, d), d) == [c] + Terminated(Split(t, d), d)
  {
    var s := [c] + t;
    assert s[0] == c && s[1..] == t;
    var r := Split(t, d);
    if c == d {
      TerminatedCons([], r, d);
    } else {
      assert r == [r[0]] + r[1..];
      TerminatedCons(r[0], r[1..], d);
      TerminatedCons([c] + r[0], r[1..], d);
    }
  }

  /** Every text is its fields written out each followed by the delimiter,
      except that the delimiter that `std::getline` needs at the very end is
      added when the text lacks it. */
  lemma {:induction false} TerminatedSplit(s: string, d: char)
    ensures Terminated(Split(s, d), d) == if s == [] || s[|s| - 1] == d then s else s + [d]
    decreases |s|
  {
    if s != [] {
      var t := s[1..];
      assert s == [s[0]] + t;
      if t == [] {
        TerminatedCons(s, [], d);
      } else {
        TerminatedSplit(t, d);
        TerminatedSplitCons(s[0], t, d);
        assert s[|s| - 1] == t[|t| - 1];
      }
    }
  }

  /** Splitting undoes writing out fields that hold no delimiter, each
      followed by the delimiter. */
  lemma {:induction false} SplitTerminated(fields: seq<string>, d: char)
    requires forall k :: 0 <= k < |fields| ==> d !in fields[k]
    ensures Split(Terminated(fields, d), d) == fields
    decreases |fields|
  {
    if fields != [] {
      SplitTerminated(fields[1..], d);
      SplitAfterField(fields[0], d, Terminated(fields[1..], d));
    }
  }

  /** Joining with the delimiter between and then adding one at the end
      writes the fields out each followed by the delimiter. */
  lemma {:induction false} JoinTerminated(fields: seq<string>, d: char)
    requires fields != []
    ensures Join(fields, d) + [d] == Terminated(fields, d)
    decreases |fields|
  {
    if |fields| > 1 {
      JoinTerminated(fields[1..], d);
      assert Join(fields, d) + [d] == fields[0] + [d] + (Join(fields[1..], d) + [d]);
    }
  }

  /** Round trip for a non-empty line that does not end in the delimiter:
      joining its fields with the delimiter gives the line back. */
  lemma {:induction false} SplitRoundTrip(s: string, d: char)
    requires s != [] && s[|s| - 1] != d
    ensures Join(Split(s, d), d) == s
  {
    TerminatedSplit(s, d);
    JoinTerminated(Split(s, d), d);
    assert Join(Split(s, d), d) + [d] == s + [d];
    assert Join(Split(s, d), d) == (Join(Split(s, d), d) + [d])[..|s|];
  }

  /** A delimiter at the very end changes nothing: `std::getline` emits the
      same fields for a non-empty text with or without it. */
  lemma SplitIgnoresFinalDelimiter(s: string, d: char)
    requires s != [] && s[|s| - 1] != d
    ensures Split(s + [d], d) == Split(s, d)
  {
    TerminatedSplit(s, d);
    SplitNoDelimiter(s, d);
    SplitTerminated(Split(s, d), d);
  }

  /** A non-empty text has one field more than it has delimiters, unless it
      ends in the delimiter, whose empty field is never emitted. */
  lemma {:induction false} SplitCount(s: string, d: char)
    requires s != []
    ensures |Split(s, d)| == Count(s, d) + (if s[|s| - 1] == d then 0 else 1)
    decreases |s|
  {
    var t := s[1..];
    assert s == [s[0]] + t;
    assert multiset(s) == multiset([s[0]]) + multiset(t);
    if t != [] {
      SplitCount(t, d);
      assert s[|s| - 1] == t[|t| - 1];
    }
  }

  /** A delimiter followed by a non-empty delimiter-free field gives an
      empty field and that field. */
  lemma SplitEmptyThenField(c: string, d: char)
    requires d !in c && c != []
    ensures Split([d] + c, d) == [[], c]
  {
    SplitWhole(c, d);
    SplitAfterField([], d, c);
    assert [] + [d] + c == [d] + c;
  }

  /** An empty field between two delimiters is kept: for delimiter-free
      `a`, `b` and a non-empty delimiter-free `c`, the line `a,b,,c` has
      the four fields `a`, `b`, "" and `c`. */
  lemma SplitKeepsInnerEmpty(a: string, b: string, c: string, d: char)
    requires d !in a && d !in b && d !in c && c != []
    ensures Split(a + [d] + (b + [d] + ([d] + c)), d) == [a, b, [], c]
  {
    SplitEmptyThenField(c, d);
    SplitAfterField(b, d, [d] + c);
    SplitAfterField(a, d, b + [d] + ([d] + c));
  }

  /** A delimiter at the end of a line ends the last field and starts no
      further one: `a,b,` has the two fields `a` and `b`, and a lone
      delimiter has the one empty field. */
  lemma SplitDropsTrailingEmpty(a: string, b: string, d: char)
    requires d !in a && d !in b
    ensures Split(a + [d] + (b + [d]), d) == [a, b]
    ensures Split([d], d) == [[]]
  {
    SplitAfterField(b, d, []);
    assert b + [d] + [] == b + [d];
    SplitAfterField(a, d, b + [d]);
    SplitAfterField([], d, []);
    assert [] + [d] + [] == [d];
  }
}
