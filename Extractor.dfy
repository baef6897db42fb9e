/**
 `extractJsonObjects` (utils.js): the outer search for the next `{`, the inner
 depth/quote scan of each candidate, and the accumulation of the complete
 objects found, in order. A functional specification (SpansFrom, Extract)
 and the imperative method proved against it.
 */
module Extractor {
  import opened BraceScan

  /** A region `text[start..end]` of the input (end exclusive). */
  datatype Span = Span(start: nat, end: nat)

  /**
   `text.indexOf(c, from)`: the first index at or after `from` holding `c`,
   or -1 when there is none.
   */
  function IndexOf(text: string, c: char, from: nat): (r: int)
    ensures r == -1 || (from <= r < |text| && text[r] == c)
    decreases |text| - from
  {
    if from >= |text| then -1
    else if text[from] == c then from
    else IndexOf(text, c, from + 1)
  }

  /** IndexOf finds the first occurrence, and reports -1 exactly when there is none. */
  lemma {:induction false} IndexOfSpec(text: string, c: char, from: nat)
    ensures IndexOf(text, c, from) == -1 <==> forall n :: from <= n < |text| ==> text[n] != c
    ensures IndexOf(text, c, from) != -1 ==> forall n :: from <= n < IndexOf(text, c, from) ==> text[n] != c
    decreases |text| - from
  {
    if from < |text| && text[from] != c {
      IndexOfSpec(text, c, from + 1);
    }
  }

  /**
   The regions the extractor emits when its cursor stands at `i`: find the
   next `{`, scan it to its closing `}` and go on after that brace; stop when
   the cursor reaches the end, when no `{` is left, or when the candidate is
   still open at the end of the text (a truncated trailing object).
   */
  function SpansFrom(text: string, i: nat): (sp: seq<Span>)
    ensures forall k :: 0 <= k < |sp| ==> i <= sp[k].start < sp[k].end <= |text|
    decreases |text| - i
  {
    if i >= |text| then []
    else
      var s := IndexOf(text, '{', i);
      if s == -1 then []
      else
        match Close(text, s)
        case None => []
        case Some(j) => [Span(s, j + 1)] + SpansFrom(text, j + 1)
  }

  /** All the regions the extractor emits for `text`. */
  function Spans(text: string): seq<Span>
  {
    SpansFrom(text, 0)
  }

  /** Every span lies inside the text. */
  ghost predicate InText(text: string, sp: seq<Span>)
  {
    forall k :: 0 <= k < |sp| ==> sp[k].start <= sp[k].end <= |text|
  }

  /** The substrings the spans select, in the same order. */
  function Slices(text: string, sp: seq<Span>): (r: seq<string>)
    requires InText(text, sp)
    ensures |r| == |sp|
    ensures forall k :: 0 <= k < |r| ==> r[k] == text[sp[k].start..sp[k].end]
  {
    seq(|sp|, k requires 0 <= k < |sp| => text[sp[k].start..sp[k].end])
  }

  /** The result of `extractJsonObjects(text)`. */
  function Extract(text: string): seq<string>
  {
    Slices(text, Spans(text))
  }

  lemma SlicesCons(text: string, x: Span, rest: seq<Span>)
    requires x.start <= x.end <= |text| && InText(text, rest)
    ensures InText(text, [x] + rest)
    ensures Slices(text, [x] + rest) == [text[x.start..x.end]] + Slices(text, rest)
  {
    var sp := [x] + rest;
    assert forall k :: 0 < k < |sp| ==> sp[k] == rest[k - 1];
  }

  /** One round of the outer loop that closes a candidate emits its slice and moves past it. */
  lemma SlicesFromNext(text: string, i: nat, j: nat)
    requires i < |text| && IndexOf(text, '{', i) != -1
    requires Close(text, IndexOf(text, '{', i)) == Some(j)
    ensures Slices(text, SpansFrom(text, i)) ==
            [text[IndexOf(text, '{', i)..j + 1]] + Slices(text, SpansFrom(text, j + 1))
  {
    SlicesCons(text, Span(IndexOf(text, '{', i), j + 1), SpansFrom(text, j + 1));
  }

  /** The scanner mode encoded by the extractor's two flags. */
  function ModeOf(inString: bool, escaped: bool): Mode
  {
    if escaped then Escaped else if inString then InString else Normal
  }

  /**
   The extractor itself. The outer loop searches for the next `{` from the
   cursor `i`; the inner loop runs the depth counter and the quote/escape
   flags from that brace until the depth returns to 0 (push the region and
   move the cursor past it) or the text ends (stop: a truncated trailing
   candidate is discarded).
   */
  method ExtractJsonObjects(text: string) returns (results: seq<string>)
    ensures results == Extract(text)
  {
    results := [];
    var i := 0;
    while i < |text|
      invariant 0 <= i <= |text|
      invariant results + Slices(text, SpansFrom(text, i)) == Extract(text)
      decreases |text| - i
    {
      var startIndex := IndexOf(text, '{', i);
      if startIndex == -1 {
        break;
      }
      var depth := 0;
      var inString := false;
      var escaped := false;
      var j := startIndex;
      var closed := false;
      while j < |text|
        invariant startIndex <= j <= |text|
        invariant escaped ==> inString
        invariant Close(text, startIndex) == ScanFrom(text, j, ScanState(depth, ModeOf(inString, escaped)))
      {
        ghost var before := ScanState(depth, ModeOf(inString, escaped));
        var c := text[j];
        if escaped {
          escaped := false;
        } else if inString {
          if c == '\\' {
            escaped := true;
          } else if c == '"' {
            inString := false;
          }
        } else if c == '"' {
          inString := true;
        } else if c == '{' {
          depth := depth + 1;
        } else if c == '}' {
          depth := depth - 1;
          if depth == 0 {
            assert Closes(before, c);
            SlicesFromNext(text, i, j);
            results := results + [text[startIndex..j + 1]];
            i := j + 1;
            closed := true;
            break;
          }
        }
        assert !Closes(before, c) && ScanState(depth, ModeOf(inString, escaped)) == Step(before, c);
        j := j + 1;
      }
      if !closed {
        assert SpansFrom(text, i) == [];
        return;
      }
    }
  }
}
