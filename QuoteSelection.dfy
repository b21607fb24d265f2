/** The command itself: decide whether the cursor sits inside a double-quoted pair and, if so,
    walk out to the nearest quote characters on either side. Positions are gap indices into
    the normalised text: gap `p` lies between characters `p - 1` and `p`. */
module QuoteSelection {
  import opened TextScan
  import opened Chunking

  datatype Option<T> = None | Some(value: T)

  /** A selection from gap `start` to gap `end`. */
  datatype Span = Span(start: int, end: int)

  /** The host's 1-based character offset of a cursor standing at gap `cursor`. */
  function AbsoluteCharOffset(cursor: int): (offset: int)
  {
    cursor + 1
  }

  /** The containment test: some pair with exactly two entries has its first entry below
      `curPos` and its second above it. */
  predicate InDoubleQuotes(pairs: seq<seq<int>>, curPos: int)
    ensures (forall x :: x in pairs ==> |x| != 2) ==> !InDoubleQuotes(pairs, curPos)
    ensures InDoubleQuotes(pairs, curPos) ==> exists x :: x in pairs && |x| == 2 && x[0] + 2 <= x[1]
  {
    exists x :: x in pairs && |x| == 2 && x[0] < curPos && x[1] > curPos
  }

  /** Entries `k` and `k + 1` of `p`, for an even `k`, strictly bracket `curPos`. */
  ghost predicate BracketedByPair(p: seq<int>, curPos: int)
  {
    exists k :: 0 <= k && k + 1 < |p| && k % 2 == 0 && p[k] < curPos < p[k + 1]
  }

  /** The cursor lies after an opening double quote and no later than its closing one. */
  ghost predicate InsideQuotedPair(t: string, cursor: int)
  {
    PairEncloses(Occurrences('"', t), cursor)
  }

  /** Occurrences `k` and `k + 1`, for an even `k`, lie before and at-or-after gap `cursor`. */
  ghost predicate PairEncloses(occ: seq<nat>, cursor: int)
  {
    exists k :: 0 <= k && k + 1 < |occ| && k % 2 == 0 && occ[k] < cursor <= occ[k + 1]
  }

  /** On chunks of two, the test looks only at the pairs (entries 2j, 2j + 1): a trailing
      single entry never counts, and an offset equal to an entry is not inside. */
  lemma {:induction false} InDoubleQuotesOnChunks(p: seq<int>, curPos: int)
    ensures InDoubleQuotes(Chunks(p, 2), curPos) <==> BracketedByPair(p, curPos)
    decreases |p|
  {
    if |p| <= 2 {
      if p != [] {
        assert p[..Min(2, |p|)] == p;
        assert p[Min(2, |p|)..] == [];
        assert Chunks(p, 2) == [p];
        if |p| == 2 && p[0] < curPos < p[1] {
          assert p in Chunks(p, 2);
        }
      }
    } else {
      assert p[..Min(2, |p|)] == p[..2];
      assert Chunks(p, 2) == [p[..2]] + Chunks(p[2..], 2);
      InDoubleQuotesOnChunks(p[2..], curPos);
      InDoubleQuotesCons(p[..2], Chunks(p[2..], 2), curPos);
      BracketedByPairStep(p, curPos);
    }
  }

  /** The test on a list of groups with one more group in front. */
  lemma InDoubleQuotesCons(x: seq<int>, pairs: seq<seq<int>>, curPos: int)
    ensures InDoubleQuotes([x] + pairs, curPos) <==>
            (|x| == 2 && x[0] < curPos < x[1]) || InDoubleQuotes(pairs, curPos)
  {
    if InDoubleQuotes([x] + pairs, curPos) {
      var y :| y in [x] + pairs && |y| == 2 && y[0] < curPos && y[1] > curPos;
      if y != x {
        assert y in pairs;
      }
    }
    if InDoubleQuotes(pairs, curPos) {
      var y :| y in pairs && |y| == 2 && y[0] < curPos && y[1] > curPos;
      assert y in [x] + pairs;
    }
  }

  /** Bracketing by one of the pairs of `p` is bracketing by its first two entries or by a
      pair of the remainder. */
  lemma BracketedByPairStep(p: seq<int>, curPos: int)
    requires |p| > 2
    ensures BracketedByPair(p, curPos) <==>
            (p[0] < curPos < p[1]) || BracketedByPair(p[2..], curPos)
  {
    var rest := p[2..];
    if BracketedByPair(p, curPos) {
      var k :| 0 <= k && k + 1 < |p| && k % 2 == 0 && p[k] < curPos < p[k + 1];
      if k != 0 {
        assert rest[k - 2] == p[k] && rest[k - 2 + 1] == p[k + 1];
        assert (k - 2) % 2 == 0;
      }
    }
    if BracketedByPair(rest, curPos) {
      var k :| 0 <= k && k + 1 < |rest| && k % 2 == 0 && rest[k] < curPos < rest[k + 1];
      assert p[k + 2] == rest[k] && p[k + 2 + 1] == rest[k + 1];
      assert (k + 2) % 2 == 0;
    }
    if p[0] < curPos < p[1] {
      assert 0 + 1 < |p| && p[0] < curPos < p[0 + 1];
    }
  }

  /** The +1/+2 bias turns "strictly between the recorded entries of a pair, at host offset
      `cursor + 1`" into "after the opening occurrence, no later than the closing one". */
  lemma BiasedBrackets(occ: seq<nat>, cursor: int)
    ensures BracketedByPair(Biased(occ), cursor + 1) <==> PairEncloses(occ, cursor)
  {
    var p := Biased(occ);
    if BracketedByPair(p, cursor + 1) {
      var k :| 0 <= k && k + 1 < |p| && k % 2 == 0 && p[k] < cursor + 1 < p[k + 1];
      assert p[k] == occ[k] + 1 && p[k + 1] == occ[k + 1] + 2;
    }
    if PairEncloses(occ, cursor) {
      var k :| 0 <= k && k + 1 < |occ| && k % 2 == 0 && occ[k] < cursor <= occ[k + 1];
      assert p[k] == occ[k] + 1 && p[k + 1] == occ[k + 1] + 2;
    }
  }

  /** With the host offset `cursor + 1`, the test on the chunked double-quote positions holds
      exactly when an opening double quote lies before the cursor gap and its closing quote
      at or after it. */
  lemma ContainmentTest(input: string, cursor: int)
    ensures InDoubleQuotes(Chunks(Positions('"', input), 2), AbsoluteCharOffset(cursor))
            <==> InsideQuotedPair(Normalise(input), cursor)
  {
    InDoubleQuotesOnChunks(Positions('"', input), cursor + 1);
    BiasedBrackets(Occurrences('"', Normalise(input)), cursor);
  }

  /** The characters at which both walks stop: the double and the single quote. */
  predicate IsQuote(ch: char)
  {
    ch == '"' || ch == '\''
  }

  /** `s` is where the leftward walk from gap `cursor` stops: no quote between `s` and the
      cursor, and `s` is the document start or has a quote just to its left. */
  ghost predicate IsLeftStop(t: string, cursor: int, s: int)
  {
    0 <= s <= cursor <= |t| &&
    (forall k :: s <= k < cursor ==> !IsQuote(t[k])) &&
    (s == 0 || IsQuote(t[s - 1]))
  }

  /** `e` is where the rightward walk from gap `cursor` stops: no quote between the cursor and
      `e`, and `e` is the document end or has a quote just to its right. */
  ghost predicate IsRightStop(t: string, cursor: int, e: int)
  {
    0 <= cursor <= e <= |t| &&
    (forall k :: cursor <= k < e ==> !IsQuote(t[k])) &&
    (e == |t| || IsQuote(t[e]))
  }

  /** Moves left one character at a time until the document start or a quote to the left. */
  method WalkLeft(t: string, cursor: int) returns (s: int)
    requires 0 <= cursor <= |t|
    ensures IsLeftStop(t, cursor, s)
  {
    s := cursor;
    while s > 0
      invariant 0 <= s <= cursor
      invariant forall k :: s <= k < cursor ==> !IsQuote(t[k])
    {
      if IsQuote(t[s - 1]) {
        break;
      }
      s := s - 1;
    }
  }

  /** Moves right one character at a time until the document end or a quote to the right. */
  method WalkRight(t: string, cursor: int) returns (e: int)
    requires 0 <= cursor <= |t|
    ensures IsRightStop(t, cursor, e)
  {
    e := cursor;
    while e < |t|
      invariant cursor <= e <= |t|
      invariant forall k :: cursor <= k < e ==> !IsQuote(t[k])
    {
      if IsQuote(t[e]) {
        break;
      }
      e := e + 1;
    }
  }

  /** Each walk has exactly one possible stopping point: the nearest quote on its side. */
  lemma StopsAreUnique(t: string, cursor: int, s1: int, s2: int, e1: int, e2: int)
    requires IsLeftStop(t, cursor, s1) && IsLeftStop(t, cursor, s2)
    requires IsRightStop(t, cursor, e1) && IsRightStop(t, cursor, e2)
    ensures s1 == s2 && e1 == e2
  {
  }

  /** From a cursor with a quote somewhere before it and one at or after it, both walks stop at
      a quote, never at a document boundary, and stay within those two quotes. */
  lemma WalksStayBetweenQuotes(t: string, cursor: int, q: int, r: int, s: int, e: int)
    requires 0 <= q < cursor <= r < |t| && IsQuote(t[q]) && IsQuote(t[r])
    requires IsLeftStop(t, cursor, s) && IsRightStop(t, cursor, e)
    ensures q < s <= cursor <= e <= r
    ensures IsQuote(t[s - 1]) && IsQuote(t[e])
  {
  }

  /** When no quote lies strictly between the two, the span is exactly their interior. */
  lemma SpanIsInterior(t: string, cursor: int, q: int, r: int, s: int, e: int)
    requires 0 <= q < cursor <= r < |t| && IsQuote(t[q]) && IsQuote(t[r])
    requires forall k :: q < k < r ==> !IsQuote(t[k])
    requires IsLeftStop(t, cursor, s) && IsRightStop(t, cursor, e)
    ensures s == q + 1 && e == r
  {
  }

  /** Inside a double-quoted pair, both walks end at a quote character. */
  lemma InsidePairStopsAtQuotes(t: string, cursor: int, s: int, e: int)
    requires InsideQuotedPair(t, cursor)
    requires IsLeftStop(t, cursor, s) && IsRightStop(t, cursor, e)
    ensures 0 < s <= cursor <= e < |t|
    ensures IsQuote(t[s - 1]) && IsQuote(t[e])
  {
  }

  /** The command on document text `allText` with the cursor at gap `cursor` of the normalised
      text: the span to select, or `None` when the selection is left alone. */
  method Execute(allText: string, cursor: int) returns (span: Option<Span>)
    requires 0 <= cursor <= |Normalise(allText)|
    ensures span.Some? <==> InsideQuotedPair(Normalise(allText), cursor)
    ensures span.Some? ==>
              IsLeftStop(Normalise(allText), cursor, span.value.start) &&
              IsRightStop(Normalise(allText), cursor, span.value.end)
    ensures span.Some? ==>
              0 < span.value.start <= cursor <= span.value.end < |Normalise(allText)| &&
              IsQuote(Normalise(allText)[span.value.start - 1]) &&
              IsQuote(Normalise(allText)[span.value.end])
  {
    var positions := GetCharPositions('"', allText);
    var doubleQuotes := ChunkList(positions, 2);
    var curPos := AbsoluteCharOffset(cursor);
    var inDoubleQuotes := InDoubleQuotes(doubleQuotes, curPos);
    ContainmentTest(allText, cursor);
    if inDoubleQuotes {
      var t := Normalise(allText);
      var startPoint := WalkLeft(t, cursor);
      var endPoint := WalkRight(t, cursor);
      InsidePairStopsAtQuotes(t, cursor, startPoint, endPoint);
      span := Some(Span(startPoint, endPoint));
    } else {
      span := None;
    }
  }

  /** A text without double quotes never yields a span. */
  lemma NoDoubleQuoteNoSpan(allText: string, cursor: int)
    requires '"' !in allText
    ensures !InsideQuotedPair(Normalise(allText), cursor)
  {
    NormaliseRemovesCr(allText);
  }

  /** The first two double quotes of a text, at `q` and `r`, form its first pair. */
  lemma FirstQuotePair(t: string, q: int, r: int)
    requires 0 <= q < r < |t| && t[q] == '"' && t[r] == '"'
    requires forall k :: 0 <= k < r && k != q ==> t[k] != '"'
    ensures |Occurrences('"', t)| >= 2
    ensures Occurrences('"', t)[0] == q && Occurrences('"', t)[1] == r
  {
  }

  /** An offset equal to a recorded pair entry is not inside: in `a"bc"d` the quotes sit at
      indices 1 and 4, the pair is (2, 6), offsets 2 and 6 fail the test and 3 to 5 pass it. */
  lemma BoundaryOffsets(t: string)
    requires t == "a\"bc\"d"
    ensures Positions('"', t) == [2, 6]
    ensures !InDoubleQuotes(Chunks(Positions('"', t), 2), 2)
    ensures InDoubleQuotes(Chunks(Positions('"', t), 2), 3)
    ensures InDoubleQuotes(Chunks(Positions('"', t), 2), 4)
    ensures InDoubleQuotes(Chunks(Positions('"', t), 2), 5)
    ensures !InDoubleQuotes(Chunks(Positions('"', t), 2), 6)
  {
    NormaliseWithoutCr(t);
    FirstQuotePair(t, 1, 4);
    var occ := Occurrences('"', t);
    assert occ == [1, 4];
    var b := Biased([1, 4]);
    assert |b| == 2 && b[0] == 2 && b[1] == 6;
    assert b == [2, 6];
    assert b[..Min(2, |b|)] == b && b[Min(2, |b|)..] == [];
    assert Chunks(b, 2) == [[2, 6]];
  }

  /** An opening quote that is never closed yields no span, although the rightward walk
      would run to the end of the document. */
  lemma UnclosedQuote(t: string, cursor: int, e: int)
    requires t == "\"open but never closed"
    requires 1 <= cursor <= |t| && IsRightStop(t, cursor, e)
    ensures Normalise(t) == t
    ensures !InsideQuotedPair(t, cursor)
    ensures e == |t|
  {
    UnclosedQuoteNoPair(t, cursor);
    NormaliseWithoutCr(t);
  }

  /** A text whose only double quote is its first character has no quoted pair, so no
      cursor, wherever it is, lies inside one. */
  lemma UnclosedQuoteNoPair(t: string, cursor: int)
    requires t == "\"open but never closed"
    ensures !InsideQuotedPair(t, cursor)
  {
    assert forall k :: 1 <= k < |t| ==> t[k] != '"';
  }

  /** The walks stop at the nearest quote of either kind: in `"He said 'hi' to me"` a cursor
      between `h` and `i` lies inside the double-quoted pair, and the span is just `hi`. */
  lemma MixedDelimiters(t: string, s: int, e: int)
    requires t == "\"He said 'hi' to me\""
    requires IsLeftStop(t, 11, s) && IsRightStop(t, 11, e)
    ensures Normalise(t) == t
    ensures InsideQuotedPair(t, 11)
    ensures s == 10 && e == 12
  {
    MixedDelimitersSpan(t, s, e);
    NormaliseWithoutCr(t);
  }

  /** The span part of `MixedDelimiters`, kept apart from the normalisation fact. */
  lemma MixedDelimitersSpan(t: string, s: int, e: int)
    requires t == "\"He said 'hi' to me\""
    requires IsLeftStop(t, 11, s) && IsRightStop(t, 11, e)
    ensures InsideQuotedPair(t, 11)
    ensures s == 10 && e == 12
  {
    assert forall k :: 1 <= k < 19 ==> t[k] != '"';
    FirstQuotePair(t, 0, 19);
    SpanIsInterior(t, 11, 9, 12, s, e);
  }
}
