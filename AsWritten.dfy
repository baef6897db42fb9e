/**
 `extractJsonObjects` exactly as utils.js:2-28 spells it, next to the
 corrected extractor of module Extractor. Three defects, each exhibited on a
 concrete input:
 - `char` (utils.js:16) is never declared, so the first character test throws;
 - even with `char` read as `text[j]`, nothing moves the cursor `i`
   (utils.js:6-26), so the outer loop never ends once it finds a `{`;
 - the string/escape handling is only a comment (utils.js:15), so a `}`
   inside a string literal closes the object early.
 */
module AsWritten {
  import opened BraceScan
  import opened Extractor

  /** How a call of the function as written ends. */
  datatype Outcome = Returned(results: seq<string>) | ReferenceError

  /**
   The function as written: the outer loop runs while `0 < text.length`; the
   inner loop, entered as soon as a `{` is found, evaluates the undeclared
   `char` on its first iteration and throws.
   */
  function Call(text: string): Outcome
  {
    if |text| == 0 then Returned([])
    else if IndexOf(text, '{', 0) == -1 then Returned([])
    else ReferenceError
  }

  /**
   As written, every text containing a `{` throws; the others return the
   empty array, which is also what the corrected extractor returns for them.
   */
  lemma UndefinedCharThrows(text: string)
    ensures Call(text) == ReferenceError <==> exists n :: 0 <= n < |text| && text[n] == '{'
    ensures Call(text).Returned? ==> Call(text).results == [] == Extract(text)
  {
    IndexOfSpec(text, '{', 0);
  }

  /** The smallest object: thrown on as written, extracted by the corrected version. */
  lemma UndefinedCharCounterexample()
    ensures Call("{}") == ReferenceError
    ensures Extract("{}") == ["{}"]
  {
    assert "{}"[0] == '{';
    UndefinedCharThrows("{}");
    var text := "{}";
    assert IndexOf(text, '{', 0) == 0;
    assert Close(text, 0) == Some(1);
    assert SpansFrom(text, 2) == [];
    assert text[0..2] == text;
  }

  /**
   The inner loop as written, with `char` read as `text[j]`: every `{` and
   `}` counts, whether or not it is inside a string.
   */
  function BraceOnlyScanFrom(text: string, j: nat, depth: int): (r: Option<nat>)
    requires j <= |text|
    ensures r.Some? ==> j <= r.value < |text| && text[r.value] == '}'
    decreases |text| - j
  {
    if j == |text| then None
    else if text[j] == '{' then BraceOnlyScanFrom(text, j + 1, depth + 1)
    else if text[j] == '}' then
      if depth - 1 == 0 then Some(j) else BraceOnlyScanFrom(text, j + 1, depth - 1)
    else BraceOnlyScanFrom(text, j + 1, depth)
  }

  /**
   On text free of `"` the two inner loops agree: the as-written scan is the
   corrected one with the string handling never triggered. They differ only
   where a quote is involved.
   */
  lemma {:induction false} BraceOnlyAgreesWithoutQuotes(text: string, j: nat, depth: int)
    requires j <= |text|
    requires forall n :: j <= n < |text| ==> text[n] != '"'
    ensures BraceOnlyScanFrom(text, j, depth) == ScanFrom(text, j, ScanState(depth, Normal))
    decreases |text| - j
  {
    if j < |text| {
      BraceOnlyAgreesWithoutQuotes(text, j + 1, depth + 1);
      BraceOnlyAgreesWithoutQuotes(text, j + 1, depth - 1);
      BraceOnlyAgreesWithoutQuotes(text, j + 1, depth);
    }
  }

  /**
   Without string handling, the `}` inside the string value of
   `{"a": "x}y"}` closes the object after 9 characters, leaving the string
   open; the corrected scan closes it at its last character.
   */
  lemma QuotedBraceClosesEarly()
    ensures BraceOnlyScanFrom("{\"a\": \"x}y\"}", 0, 0) == Some(8)
    ensures Close("{\"a\": \"x}y\"}", 0) == Some(11)
    ensures Extract("{\"a\": \"x}y\"}") == ["{\"a\": \"x}y\"}"]
  {
    var text := "{\"a\": \"x}y\"}";
    assert IndexOf(text, '{', 0) == 0;
    assert SpansFrom(text, 12) == [];
    assert text[0..12] == text;
  }

  /** The state of the outer loop: cursor, results so far, and whether it has exited. */
  datatype Loop = Loop(i: nat, results: seq<string>, exited: bool)

  /**
   One round of the outer loop as written, with `char` read as `text[j]`:
   the search and the scan run, a closed object is pushed, and `i` is left
   unchanged whether or not the scan closed.
   */
  function Round(text: string, st: Loop): Loop
  {
    if st.exited || st.i >= |text| then st.(exited := true)
    else
      var s := IndexOf(text, '{', st.i);
      if s == -1 then st.(exited := true)
      else
        match BraceOnlyScanFrom(text, s, 0)
        case Some(j) => st.(results := st.results + [text[s..j + 1]])
        case None => st
  }

  /** The outer loop as written after `n` rounds from a cursor at 0. */
  function Rounds(text: string, n: nat): Loop
  {
    if n == 0 then Loop(0, [], false) else Round(text, Rounds(text, n - 1))
  }

  /**
   As written, once the text holds a `{` the loop never exits: after any
   number of rounds the cursor is still 0 and the loop is still running.
   */
  lemma {:induction false} CursorNeverAdvances(text: string, n: nat)
    requires exists k :: 0 <= k < |text| && text[k] == '{'
    ensures Rounds(text, n).i == 0 && !Rounds(text, n).exited
  {
    IndexOfSpec(text, '{', 0);
    if n > 0 {
      CursorNeverAdvances(text, n - 1);
    }
  }

  /**
   On `{}` every round pushes the same object again: after `n` rounds the
   results hold `n` copies of it, while the corrected extractor returns
   it once.
   */
  lemma {:induction false} RepeatsForever(n: nat)
    ensures Rounds("{}", n).results == seq(n, _ => "{}")
    ensures Extract("{}") == ["{}"]
  {
    UndefinedCharCounterexample();
    if n > 0 {
      RepeatsForever(n - 1);
      var text := "{}";
      assert text[0] == '{';
      CursorNeverAdvances(text, n - 1);
      var prev := Rounds(text, n - 1);
      assert prev == Loop(0, seq(n - 1, _ => "{}"), false);
      assert IndexOf(text, '{', 0) == 0;
      assert BraceOnlyScanFrom(text, 0, 0) == Some(1);
      assert text[0..2] == text;
      assert seq(n - 1, _ => "{}") + ["{}"] == seq(n, _ => "{}");
    }
  }
}
