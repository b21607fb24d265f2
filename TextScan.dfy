/** Line-ending normalisation and the quote-position scan (`GetCharPositions`). */
module TextScan {

  /** Ordinal `string.Replace`: scans left to right and replaces every
      non-overlapping occurrence of `pat` by `rep`. */
  function ReplaceAll(s: string, pat: string, rep: string): (r: string)
    requires pat != []
    ensures |rep| <= |pat| ==> |r| <= |s|
    ensures |pat| == 1 && pat[0] !in rep ==> pat[0] !in r
    decreases |s|
  {
    if |s| < |pat| then s
    else if s[..|pat|] == pat then rep + ReplaceAll(s[|pat|..], pat, rep)
    else [s[0]] + ReplaceAll(s[1..], pat, rep)
  }

  /** The text actually scanned: CR LF pairs first become LF, then every CR left over does. */
  function Normalise(input: string): (r: string)
    ensures '\r' !in r
    ensures |r| <= |input|
  {
    ReplaceAll(ReplaceAll(input, "\r\n", "\n"), "\r", "\n")
  }

  /** The line-ending rule stated in one pass: a CR LF pair or a lone CR becomes a single LF,
      every other character is kept. */
  function LfLineEndings(s: string): (r: string)
    ensures '\r' !in r
    ensures forall ch :: ch in r ==> ch == '\n' || ch in s
    decreases |s|
  {
    if s == [] then []
    else if s[0] == '\r' then "\n" + LfLineEndings(if |s| > 1 && s[1] == '\n' then s[2..] else s[1..])
    else [s[0]] + LfLineEndings(s[1..])
  }

  /** Replacing a one-character pattern looks at one character at a time. */
  lemma ReplaceCharStep(x: char, rest: string, c: char, rep: string)
    ensures ReplaceAll([x] + rest, [c], rep) == (if x == c then rep else [x]) + ReplaceAll(rest, [c], rep)
  {
  }

  /** The two `Replace` passes implement the one-pass line-ending rule. */
  lemma {:induction false} NormaliseIsLfLineEndings(s: string)
    ensures Normalise(s) == LfLineEndings(s)
    decreases |s|
  {
    if s == [] {
    } else if |s| < 2 {
      assert s == [s[0]] + [];
      ReplaceCharStep(s[0], [], '\r', "\n");
    } else if s[..2] == "\r\n" {
      var a := ReplaceAll(s[2..], "\r\n", "\n");
      assert ReplaceAll(s, "\r\n", "\n") == "\n" + a;
      ReplaceCharStep('\n', a, '\r', "\n");
      NormaliseIsLfLineEndings(s[2..]);
      assert s[0] == '\r' && s[1] == '\n';
    } else {
      var a := ReplaceAll(s[1..], "\r\n", "\n");
      assert ReplaceAll(s, "\r\n", "\n") == [s[0]] + a;
      ReplaceCharStep(s[0], a, '\r', "\n");
      NormaliseIsLfLineEndings(s[1..]);
      assert s[0] == '\r' ==> s[1] != '\n';
    }
  }

  /** After normalisation no carriage return is left, and every other character came from the input. */
  lemma NormaliseRemovesCr(s: string)
    ensures '\r' !in Normalise(s)
    ensures forall ch :: ch in Normalise(s) ==> ch == '\n' || ch in s
  {
    NormaliseIsLfLineEndings(s);
  }

  /** A text without carriage returns is left as it is. */
  lemma {:induction false} LfLineEndingsWithoutCr(s: string)
    requires '\r' !in s
    ensures LfLineEndings(s) == s
    decreases |s|
  {
    if s != [] {
      assert s[0] in s;
      assert forall ch :: ch in s[1..] ==> ch in s;
      LfLineEndingsWithoutCr(s[1..]);
      assert s == [s[0]] + s[1..];
    }
  }

  lemma NormaliseWithoutCr(s: string)
    requires '\r' !in s
    ensures Normalise(s) == s
  {
    NormaliseIsLfLineEndings(s);
    LfLineEndingsWithoutCr(s);
  }

  /** Normalising twice is normalising once. */
  lemma NormaliseIdempotent(s: string)
    ensures Normalise(Normalise(s)) == Normalise(s)
  {
    NormaliseRemovesCr(s);
    NormaliseWithoutCr(Normalise(s));
  }

  /** The indices of `c` in `t`, in increasing order. */
  function Occurrences(c: char, t: string): (occ: seq<nat>)
    ensures forall k :: 0 <= k < |occ| ==> occ[k] < |t| && t[occ[k]] == c
    ensures forall k, l :: 0 <= k < l < |occ| ==> occ[k] < occ[l]
    ensures forall i :: 0 <= i < |t| && t[i] == c ==> i in occ
    decreases |t|
  {
    if t == [] then []
    else
      var rest := Occurrences(c, t[..|t| - 1]);
      if t[|t| - 1] == c then rest + [|t| - 1] else rest
  }

  /** Scanning one more character adds its index exactly when it is `c`. */
  lemma OccurrencesSnoc(c: char, t: string, x: char)
    ensures Occurrences(c, t + [x]) == Occurrences(c, t) + (if x == c then [|t|] else [])
  {
  }

  /** There is one occurrence per copy of `c` in `t`. */
  lemma {:induction false} OccurrencesCount(c: char, t: string)
    ensures |Occurrences(c, t)| == multiset(t)[c]
    decreases |t|
  {
    if t != [] {
      var init := t[..|t| - 1];
      assert t == init + [t[|t| - 1]];
      OccurrencesCount(c, init);
    }
  }

  /** The offset bias of the k-th recorded occurrence: opening ones get +1, closing ones +2. */
  function Bias(k: nat): (b: int)
  {
    if k % 2 == 0 then 1 else 2
  }

  /** An occurrence list with the opening/closing bias applied to each entry. */
  function Biased(occ: seq<nat>): (p: seq<int>)
  {
    seq(|occ|, k requires 0 <= k < |occ| => occ[k] + Bias(k))
  }

  lemma BiasedAppend(occ: seq<nat>, i: nat)
    ensures Biased(occ + [i]) == Biased(occ) + [i + Bias(|occ|)]
  {
  }

  /** One more entry flips the parity of the entry count. */
  lemma ParityStep(n: nat)
    ensures (n + 1) % 2 == 0 <==> n % 2 != 0
  {
  }

  /** What `GetCharPositions(c, input)` returns. */
  function Positions(c: char, input: string): (p: seq<int>)
  {
    Biased(Occurrences(c, Normalise(input)))
  }

  /** Scans the normalised text once, recording `index + 1` for an opening occurrence of `c`
      and `index + 2` for a closing one. */
  method GetCharPositions(c: char, input: string) returns (positions: seq<int>)
    ensures positions == Positions(c, input)
  {
    var cleaned := ReplaceAll(ReplaceAll(input, "\r\n", "\n"), "\r", "\n");
    positions := [];
    var start := true;
    for i := 0 to |cleaned|
      invariant positions == Biased(Occurrences(c, cleaned[..i]))
      invariant start <==> |positions| % 2 == 0
    {
      ghost var before := Occurrences(c, cleaned[..i]);
      assert cleaned[..i + 1] == cleaned[..i] + [cleaned[i]];
      OccurrencesSnoc(c, cleaned[..i], cleaned[i]);
      if cleaned[i] == c {
        BiasedAppend(before, i);
        ParityStep(|positions|);
        if start {
          positions := positions + [i + 1];
          start := false;
        } else {
          positions := positions + [i + 2];
          start := true;
        }
      }
    }
    assert cleaned[..|cleaned|] == cleaned;
  }

  /** One entry per occurrence of `c` in the normalised text, each entry one or two past
      the index of its occurrence. */
  lemma PositionsOfOccurrences(c: char, input: string)
    ensures |Positions(c, input)| == multiset(Normalise(input))[c]
    ensures forall k :: 0 <= k < |Positions(c, input)| ==>
              var i := Positions(c, input)[k] - Bias(k);
              0 <= i < |Normalise(input)| && Normalise(input)[i] == c
  {
    OccurrencesCount(c, Normalise(input));
  }

  /** Within each (opening, closing) pair the first entry is strictly smaller; the whole list
      never decreases, and all entries lie between 1 and one past the text length. */
  lemma PositionsOrdered(c: char, input: string)
    ensures forall k :: 0 <= k && k + 1 < |Positions(c, input)| && k % 2 == 0 ==>
              Positions(c, input)[k] < Positions(c, input)[k + 1]
    ensures forall k, l :: 0 <= k <= l < |Positions(c, input)| ==>
              Positions(c, input)[k] <= Positions(c, input)[l]
    ensures forall k :: 0 <= k < |Positions(c, input)| ==>
              1 <= Positions(c, input)[k] <= |Normalise(input)| + 1
  {
  }

  /** Three quotes in a row: the second pair starts where the first ends. */
  lemma AdjacentPairsTouch(t: string)
    requires t == "\"\"\""
    ensures Positions('"', t) == [1, 3, 3]
  {
    NormaliseWithoutCr(t);
    ThreeQuoteOccurrences(t);
    assert Biased([0, 1, 2]) == [1, 3, 3];
  }

  lemma ThreeQuoteOccurrences(t: string)
    requires t == "\"\"\""
    ensures Occurrences('"', t) == [0, 1, 2]
  {
    assert t[..1] == t[..0] + [t[0]];
    OccurrencesSnoc('"', t[..0], t[0]);
    assert t[..2] == t[..1] + [t[1]];
    OccurrencesSnoc('"', t[..1], t[1]);
    assert t == t[..2] + [t[2]];
    OccurrencesSnoc('"', t[..2], t[2]);
  }
}
