/**
 * `split_long_text(text, max_length)`: the slices
 * `text[i:i+max_length]` for `i` in `range(0, len(text), max_length)`.
 */
module TextSplit {

  function Concat(pieces: seq<string>): string {
    if pieces == [] then [] else pieces[0] + Concat(pieces[1..])
  }

  /** The slices for the positions `start, start + n, ...` below `|text|`. */
  function ChunksFrom(text: string, n: nat, start: nat): (pieces: seq<string>)
    requires n > 0 && start <= |text|
    decreases |text| - start
  {
    if start == |text| then []
    else [text[start..if start + n <= |text| then start + n else |text|]] + ChunksFrom(text, n, if start + n <= |text| then start + n else |text|)
  }

  /**
   * `split_long_text`. A step of 0 makes `range` raise, so it is excluded;
   * a negative step gives an empty range and so no pieces.
   */
  function SplitLongText(text: string, maxLength: int): (pieces: seq<string>)
    requires maxLength != 0
    ensures maxLength < 0 ==> pieces == []
    ensures maxLength > 0 ==> Concat(pieces) == text && WellSized(pieces, maxLength)
  {
    if maxLength < 0 then []
    else
      ChunksFromConcat(text, maxLength, 0);
      ChunksFromSizes(text, maxLength, 0);
      ChunksFrom(text, maxLength, 0)
  }

  /** `sep.join(pieces)`: the pieces with `sep` between each two neighbours. */
  function JoinWith(sep: string, pieces: seq<string>): (r: string)
    ensures |pieces| > 0 ==> |r| == |Concat(pieces)| + |sep| * (|pieces| - 1)
    ensures |pieces| >= 2 ==> r[..|pieces[0]|] == pieces[0] && r[|pieces[0]|..|pieces[0]| + |sep|] == sep
    decreases |pieces|
  {
    if pieces == [] then []
    else if |pieces| == 1 then pieces[0]
    else
      var r := pieces[0] + sep + JoinWith(sep, pieces[1..]);
      assert r[..|pieces[0]|] == pieces[0];
      assert r[|pieces[0]|..|pieces[0]| + |sep|] == sep;
      r
  }

  /** Joining the pieces gives back the text from `start` on. */
  lemma {:induction false} ChunksFromConcat(text: string, n: nat, start: nat)
    requires n > 0 && start <= |text|
    ensures Concat(ChunksFrom(text, n, start)) == text[start..]
    decreases |text| - start
  {
    if start < |text| {
      var next := if start + n <= |text| then start + n else |text|;
      ChunksFromConcat(text, n, next);
      assert text[start..] == text[start..next] + text[next..];
    }
  }

  /** Every piece is non-empty and at most `n` long; all but the last are exactly `n` long. */
  predicate WellSized(pieces: seq<string>, n: nat) {
    && (forall i :: 0 <= i < |pieces| ==> 1 <= |pieces[i]| <= n)
    && (forall i :: 0 <= i < |pieces| - 1 ==> |pieces[i]| == n)
  }

  lemma {:induction false} ChunksFromSizes(text: string, n: nat, start: nat)
    requires n > 0 && start <= |text|
    ensures WellSized(ChunksFrom(text, n, start), n)
    decreases |text| - start
  {
    if start < |text| {
      var next := if start + n <= |text| then start + n else |text|;
      ChunksFromSizes(text, n, next);
      var pieces, rest := ChunksFrom(text, n, start), ChunksFrom(text, n, next);
      assert pieces == [text[start..next]] + rest;
      forall i | 0 <= i < |pieces|
        ensures 1 <= |pieces[i]| <= n && (i < |pieces| - 1 ==> |pieces[i]| == n)
      {
        if i > 0 {
          assert pieces[i] == rest[i - 1];
        } else if next == |text| {
          assert rest == [];
        }
      }
    }
  }

  /** The number of pieces is the ceiling of `(|text| - start) / n`. */
  lemma {:induction false} ChunksFromCount(text: string, n: nat, start: nat)
    requires n > 0 && start <= |text|
    ensures var k := |ChunksFrom(text, n, start)|;
            (k - 1) * n < |text| - start <= k * n
    decreases |text| - start
  {
    if start < |text| {
      var next := if start + n <= |text| then start + n else |text|;
      ChunksFromCount(text, n, next);
    }
  }

  /** The properties `split_long_text` promises its callers, for a positive width. */
  lemma SplitLongTextSpec(text: string, maxLength: int)
    requires maxLength > 0
    ensures var pieces := SplitLongText(text, maxLength);
            && Concat(pieces) == text
            && WellSized(pieces, maxLength)
            && (|pieces| - 1) * maxLength < |text| <= |pieces| * maxLength
            && (pieces == [] <==> text == [])
  {
    ChunksFromConcat(text, maxLength, 0);
    ChunksFromSizes(text, maxLength, 0);
    ChunksFromCount(text, maxLength, 0);
  }

  /**
   * Splitting an answer longer than 3900 characters gives at least two
   * pieces: its first 3900 characters, then pieces that join back into the
   * rest. The rest is one piece when it is at most 3900 characters long, and
   * otherwise the second piece is the next 3900 characters.
   */
  lemma LongAnswerChunks(response: string)
    requires |response| > 3900
    ensures var chunks := SplitLongText(response, 3900);
            && |chunks| >= 2
            && chunks[0] == response[..3900]
            && Concat(chunks[1..]) == response[3900..]
            && (|response| <= 7800 ==> chunks[1..] == [response[3900..]])
            && (|response| > 7800 ==> |chunks| >= 3 && chunks[1] == response[3900..7800])
  {
    var chunks := SplitLongText(response, 3900);
    SplitLongTextSpec(response, 3900);
    ChunksFromConcat(response, 3900, 3900);
    assert chunks == [response[..3900]] + ChunksFrom(response, 3900, 3900);
    assert chunks[1..] == ChunksFrom(response, 3900, 3900);
    if |response| <= 7800 {
      assert ChunksFrom(response, 3900, |response|) == [];
      assert ChunksFrom(response, 3900, 3900) == [response[3900..|response|]] + [];
      assert response[3900..|response|] == response[3900..];
      assert [response[3900..]] + [] == [response[3900..]];
    } else {
      assert chunks[1] == response[3900..7800];
    }
  }

  /**
   * The inline handling of a long answer: split by 3900 characters, show the
   * first piece, and join the other pieces with blank lines into a remainder
   * that nothing reads afterwards (the "show more" button splits the answer
   * again). The shown part is exactly the first 3900 characters; the
   * remainder is the rest of the answer with a blank line between pieces, so
   * two characters longer per extra piece: the rest itself when the answer is
   * at most 7800 characters, and otherwise the next 3900 characters then a
   * blank line.
   */
  function LongAnswerParts(response: string): (parts: (string, string))
    requires |response| > 3900
    ensures parts.0 == response[..3900]
    ensures |parts.1| == |response| - 3900 + 2 * (|SplitLongText(response, 3900)| - 2)
    ensures |response| <= 7800 ==> parts.1 == response[3900..]
    ensures |response| > 7800 ==> |parts.1| >= 3902 && parts.1[..3900] == response[3900..7800] && parts.1[3900..3902] == "\n\n"
  {
    var chunks := SplitLongText(response, 3900);
    LongAnswerChunks(response);
    (chunks[0], JoinWith("\n\n", chunks[1..]))
  }
}
