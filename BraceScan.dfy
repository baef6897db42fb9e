/**
 The character-level scanner at the heart of `extractJsonObjects` (utils.js):
 a brace-depth counter driven by a three-mode quote/escape state machine.
 Braces count only outside double-quoted strings; inside a string a
 backslash makes the next character literal.
 */
module BraceScan {

  datatype Option<T> = None | Some(value: T)

  /** Lexical mode: outside any string, inside a string, or inside a string just after a backslash. */
  datatype Mode = Normal | InString | Escaped

  /** What the inner loop of the extractor keeps: the brace depth and the lexical mode. */
  datatype ScanState = ScanState(depth: int, mode: Mode)

  /** The state at the opening of every candidate: depth 0, outside any string. */
  const Start := ScanState(0, Normal)

  /** One character of the scan. Only an unquoted brace moves the depth. */
  function Step(st: ScanState, c: char): ScanState
  {
    match st.mode
    case Escaped => st.(mode := InString)
    case InString =>
      if c == '\\' then st.(mode := Escaped)
      else if c == '"' then st.(mode := Normal)
      else st
    case Normal =>
      if c == '"' then st.(mode := InString)
      else if c == '{' then st.(depth := st.depth + 1)
      else if c == '}' then st.(depth := st.depth - 1)
      else st
  }

  /** The state reached from Start after reading all of `s`. */
  function Run(s: string): ScanState
    decreases |s|
  {
    if s == [] then Start else Step(Run(s[..|s| - 1]), s[|s| - 1])
  }

  /**
   `text[s..e]` is a complete object: it opens with `{`, ends back at depth 0
   outside any string, and every proper non-empty prefix of it is still open
   (depth at least 1), so no shorter prefix closes it.
   */
  ghost predicate ObjectAt(text: string, s: nat, e: nat)
  {
    s < e <= |text| && text[s] == '{' && Run(text[s..e]) == Start &&
    forall n :: s < n < e ==> Run(text[s..n]).depth > 0
  }

  /** A whole string that is one complete object. */
  ghost predicate IsObject(r: string)
  {
    ObjectAt(r, 0, |r|)
  }

  /** The test of the inner loop: `c` is an unquoted `}` that brings the depth from 1 to 0. */
  predicate Closes(st: ScanState, c: char)
  {
    st.mode == Normal && c == '}' && st.depth - 1 == 0
  }

  /**
   The inner loop from index `j` on in state `st`: the index of the `}` that
   closes the candidate, or None when the text ends first.
   */
  function ScanFrom(text: string, j: nat, st: ScanState): (r: Option<nat>)
    requires j <= |text|
    ensures r.Some? ==> j <= r.value < |text| && text[r.value] == '}'
    decreases |text| - j
  {
    if j == |text| then None
    else if Closes(st, text[j]) then Some(j)
    else ScanFrom(text, j + 1, Step(st, text[j]))
  }

  /** The candidate opened at `s`: the index of its closing brace, if any. */
  function Close(text: string, s: nat): Option<nat>
    requires s <= |text|
  {
    ScanFrom(text, s, Start)
  }

  /** Reading one more character of a slice is one more Step. */
  lemma RunSnoc(text: string, s: nat, j: nat)
    requires s <= j < |text|
    ensures Run(text[s..j + 1]) == Step(Run(text[s..j]), text[j])
  {
    assert text[s..j + 1][..j - s] == text[s..j];
  }

  /**
   The inner loop, started at any point `j` of a candidate opened at `s` that
   is still open, finds exactly the object's end, or reports None only when
   the candidate stays open to the end of the text.
   */
  lemma {:induction false} ScanFromSound(text: string, s: nat, j: nat)
    requires s < |text| && text[s] == '{' && s <= j <= |text|
    requires forall n :: s < n <= j ==> Run(text[s..n]).depth > 0
    ensures ScanFrom(text, j, Run(text[s..j])).Some? ==>
              ObjectAt(text, s, ScanFrom(text, j, Run(text[s..j])).value + 1)
    ensures ScanFrom(text, j, Run(text[s..j])).None? ==>
              forall n :: s < n <= |text| ==> Run(text[s..n]).depth > 0
    decreases |text| - j
  {
    if j < |text| {
      var st := Run(text[s..j]);
      RunSnoc(text, s, j);
      if j == s {
        assert text[s..s] == [];
        assert !Closes(st, text[j]);
        ScanFromSound(text, s, j + 1);
      } else {
        assert st.depth > 0;
        if Closes(st, text[j]) {
          assert Run(text[s..j + 1]) == Start;
        } else {
          assert Run(text[s..j + 1]).depth > 0;
          ScanFromSound(text, s, j + 1);
        }
      }
    }
  }

  /** Two ends of objects opened at the same `{` coincide: the first close is the only one. */
  lemma ObjectEndUnique(text: string, s: nat, e1: nat, e2: nat)
    requires ObjectAt(text, s, e1) && ObjectAt(text, s, e2)
    ensures e1 == e2
  {
  }

  /**
   Close is exact: for a candidate opened at a `{`, it returns `j` precisely
   when `text[s..j+1]` is a complete object, and None precisely when no end
   at all makes one (every object end forces a Some).
   */
  lemma CloseSpec(text: string, s: nat)
    requires s < |text| && text[s] == '{'
    ensures Close(text, s).Some? ==> ObjectAt(text, s, Close(text, s).value + 1)
    ensures forall e :: ObjectAt(text, s, e) ==> Close(text, s) == Some(e - 1)
  {
    assert text[s..s] == [];
    ScanFromSound(text, s, s);
    forall e | ObjectAt(text, s, e)
      ensures Close(text, s) == Some(e - 1)
    {
      match Close(text, s)
      case Some(k) => ObjectEndUnique(text, s, e, k + 1);
      case None => assert false;
    }
  }
}
