/**
  Turning a 2xx response body into records: blank lines are dropped, every
  other line is split on `,` and each field is trimmed.
 */
module Csv {
  import opened KText
  import opened Model

  /** `.map { it.trim() }`. */
  function TrimAll(pieces: seq<string>): (r: seq<string>)
    ensures |r| == |pieces|
    ensures forall k :: 0 <= k < |r| ==> TrimmedFrom(pieces[k], r[k])
  {
    if |pieces| == 0 then []
    else
      var rest := TrimAll(pieces[1..]);
      assert forall k :: 1 <= k < |pieces| ==> pieces[k] == pieces[1..][k - 1];
      [Trim(pieces[0])] + rest
  }

  /** `CsvRecord(line.split(",").map { it.trim() })`: one field per comma-separated
      piece of the line, in order, each the trim of its piece. */
  function ParseLine(line: string): (r: CsvRecord)
    ensures |r.columns| == Count(line, ',') + 1
    ensures forall k :: 0 <= k < |r.columns| ==> ',' !in r.columns[k]
    ensures forall k :: 0 <= k < |r.columns| ==> TrimmedFrom(Split(line, ',')[k], r.columns[k])
  {
    var pieces := Split(line, ',');
    var columns := TrimAll(pieces);
    assert forall k :: 0 <= k < |columns| ==> ',' !in columns[k] by {
      forall k | 0 <= k < |columns| ensures ',' !in columns[k] {
        var i: nat :| TrimmedAt(pieces[k], columns[k], i);
        assert columns[k] == pieces[k][i..i + |columns[k]|];
      }
    }
    CsvRecord(columns)
  }

  /** The lines that survive `filter { it.isNotBlank() }`, in their original order. */
  function NonBlankLines(lines: seq<string>): (r: seq<string>)
    ensures |r| <= |lines|
    ensures forall k :: 0 <= k < |r| ==> !IsBlank(r[k]) && r[k] in lines
    ensures |r| == 0 <==> forall k :: 0 <= k < |lines| ==> IsBlank(lines[k])
  {
    if |lines| == 0 then []
    else
      var rest := NonBlankLines(lines[1..]);
      assert forall k :: 1 <= k < |lines| ==> lines[k] == lines[1..][k - 1];
      if IsBlank(lines[0]) then rest else [lines[0]] + rest
  }

  /** The records of a response body: one per non-blank line, in line order. */
  function ParseBody(lines: seq<string>): (records: seq<CsvRecord>)
    ensures |records| == |NonBlankLines(lines)|
    ensures forall k :: 0 <= k < |records| ==> records[k] == ParseLine(NonBlankLines(lines)[k])
    ensures forall k :: 0 <= k < |records| ==> |records[k].columns| >= 1
    ensures |records| == 0 <==> forall k :: 0 <= k < |lines| ==> IsBlank(lines[k])
  {
    MapSeq(ParseLine, NonBlankLines(lines))
  }

  /** `xs.map(f)`. */
  function MapSeq<A, B>(f: A -> B, xs: seq<A>): (r: seq<B>)
    ensures |r| == |xs|
    ensures forall k :: 0 <= k < |xs| ==> r[k] == f(xs[k])
  {
    seq(|xs|, k requires 0 <= k < |xs| => f(xs[k]))
  }

  /** Filtering works line by line: the lines of a concatenation are the
      surviving lines of each part, in order. */
  lemma {:induction false} NonBlankLinesAppend(a: seq<string>, b: seq<string>)
    ensures NonBlankLines(a + b) == NonBlankLines(a) + NonBlankLines(b)
  {
    if |a| == 0 {
      assert a + b == b;
    } else {
      var head := if IsBlank(a[0]) then [] else [a[0]];
      assert NonBlankLines(a + b) == head + NonBlankLines(a[1..] + b) by {
        assert (a + b)[0] == a[0] && (a + b)[1..] == a[1..] + b;
        NonBlankLinesFirst(a + b);
      }
      assert NonBlankLines(a) == head + NonBlankLines(a[1..]) by {
        NonBlankLinesFirst(a);
      }
      NonBlankLinesAppend(a[1..], b);
      ConcatAssoc(head, NonBlankLines(a[1..]), NonBlankLines(b));
    }
  }

  /** The filter drops the blank lines and nothing else: every non-blank line is
      kept as often as it occurs, and no blank line survives. */
  lemma {:induction false} NonBlankLinesCounts(lines: seq<string>)
    ensures forall x :: !IsBlank(x) ==> multiset(NonBlankLines(lines))[x] == multiset(lines)[x]
    ensures forall x :: IsBlank(x) ==> multiset(NonBlankLines(lines))[x] == 0
    decreases |lines|
  {
    if |lines| > 0 {
      var head := if IsBlank(lines[0]) then [] else [lines[0]];
      assert NonBlankLines(lines) == head + NonBlankLines(lines[1..]) by {
        NonBlankLinesFirst(lines);
      }
      assert multiset(lines) == multiset([lines[0]]) + multiset(lines[1..]) by {
        assert lines == [lines[0]] + lines[1..];
      }
      NonBlankLinesCounts(lines[1..]);
    }
  }

  /** Every non-blank line of the body reaches the parser. */
  lemma NonBlankLinesKeepsEvery(lines: seq<string>)
    ensures forall k :: 0 <= k < |lines| && !IsBlank(lines[k]) ==> lines[k] in NonBlankLines(lines)
  {
    NonBlankLinesCounts(lines);
    forall k | 0 <= k < |lines| && !IsBlank(lines[k])
      ensures lines[k] in NonBlankLines(lines)
    {
      assert lines[k] in multiset(lines);
    }
  }

  /** Concatenation is associative. */
  lemma ConcatAssoc<T>(x: seq<T>, y: seq<T>, z: seq<T>)
    ensures x + (y + z) == (x + y) + z
  {
  }

  /** The filter decides on the first line and moves on to the rest. */
  lemma NonBlankLinesFirst(lines: seq<string>)
    requires |lines| > 0
    ensures NonBlankLines(lines) == (if IsBlank(lines[0]) then [] else [lines[0]]) + NonBlankLines(lines[1..])
  {
  }

  /** Parsing keeps line order: the records of two consecutive chunks of a body
      are the records of the first chunk followed by those of the second. */
  lemma ParseBodyAppend(a: seq<string>, b: seq<string>)
    ensures ParseBody(a + b) == ParseBody(a) + ParseBody(b)
  {
    NonBlankLinesAppend(a, b);
    MapSeqAppend(ParseLine, NonBlankLines(a), NonBlankLines(b));
  }

  /** Mapping over a concatenation maps over each part. */
  lemma MapSeqAppend<A, B>(f: A -> B, x: seq<A>, y: seq<A>)
    ensures MapSeq(f, x + y) == MapSeq(f, x) + MapSeq(f, y)
  {
  }

  /** A body whose only line is `line` gives exactly one record for a non-blank
      line and none for a blank one. */
  lemma ParseSingleLine(line: string)
    ensures !IsBlank(line) ==> ParseBody([line]) == [ParseLine(line)]
    ensures IsBlank(line) ==> ParseBody([line]) == []
  {
    assert [line][1..] == [];
  }
}
