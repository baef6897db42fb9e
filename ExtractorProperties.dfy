/**
 What `extractJsonObjects` (utils.js) promises about its results, proved of
 the specification in Extractor: every result is a complete, minimal,
 quote-aware balanced object cut out of the input; results come in input
 order, do not overlap and skip no `{`; a truncated trailing candidate ends
 the extraction; extraction is idempotent on its own results and only ever
 grows as the text grows.
 */
module ExtractorProperties {
  import opened BraceScan
  import opened Extractor

  // ---------------------------------------------------------------------
  // Objects depend only on their own characters
  // ---------------------------------------------------------------------

  /** Whether `a[s..e]` is an object depends on nothing but those characters. */
  lemma ObjectAtLocal(a: string, s: nat, e: nat, b: string, s2: nat, e2: nat)
    requires s <= e <= |a| && s2 <= e2 <= |b| && a[s..e] == b[s2..e2]
    ensures ObjectAt(a, s, e) <==> ObjectAt(b, s2, e2)
  {
    assert e - s == e2 - s2;
    forall n | s <= n <= e
      ensures a[s..n] == b[s2..s2 + (n - s)]
    {
      assert a[s..n] == a[s..e][..n - s];
      assert b[s2..s2 + (n - s)] == b[s2..e2][..n - s];
    }
    if e > s {
      assert a[s] == a[s..e][0] == b[s2..e2][0] == b[s2];
    }
    if ObjectAt(a, s, e) {
      forall n2 | s2 < n2 < e2 ensures Run(b[s2..n2]).depth > 0 {
        assert a[s..s + (n2 - s2)] == b[s2..n2];
      }
    }
  }

  /** An object cut out of a text is an object on its own, and conversely. */
  lemma ObjectSlice(text: string, s: nat, e: nat)
    requires s <= e <= |text|
    ensures ObjectAt(text, s, e) <==> IsObject(text[s..e])
  {
    var r := text[s..e];
    assert r[0..|r|] == r;
    ObjectAtLocal(text, s, e, r, 0, |r|);
  }

  /** A complete object opens with `{`, closes with `}` and so has at least two characters. */
  lemma ObjectShape(r: string)
    requires IsObject(r)
    ensures |r| >= 2 && r[0] == '{' && r[|r| - 1] == '}'
  {
    assert r[0..|r|] == r;
    var m := |r| - 1;
    assert Run(r) == Step(Run(r[..m]), r[m]);
    if m == 0 {
      assert false;
    }
    assert r[0..m] == r[..m];
    assert Run(r[..m]).depth > 0;
  }

  // ---------------------------------------------------------------------
  // A declarative description of the extractor's output
  // ---------------------------------------------------------------------

  /** No `{` among `text[a..b]`. */
  ghost predicate NoBraceIn(text: string, a: nat, b: nat)
  {
    forall n :: a <= n < b && n < |text| ==> text[n] != '{'
  }

  /**
   The outer loop ends at cursor `i`: the cursor is at the end, or the first
   `{` from `i` on (if any) opens a candidate that no end of the text closes.
   */
  ghost predicate Stops(text: string, i: nat)
  {
    i >= |text| ||
    forall s :: i <= s < |text| && text[s] == '{' && NoBraceIn(text, i, s) ==>
      forall e :: !ObjectAt(text, s, e)
  }

  /**
   `sp` is what a left-to-right extraction from cursor `i` must produce:
   each region starts at the first `{` after the previous region (or after
   `i`), is a complete object, and the next search resumes at its end; the
   extraction ends exactly where Stops holds.
   */
  ghost predicate Tiles(text: string, i: nat, sp: seq<Span>)
    decreases |sp|
  {
    if sp == [] then Stops(text, i)
    else
      i <= sp[0].start && NoBraceIn(text, i, sp[0].start) &&
      ObjectAt(text, sp[0].start, sp[0].end) && Tiles(text, sp[0].end, sp[1..])
  }

  /** Where the cursor stands after the regions `sp`, starting from `i`. */
  function Resume(i: nat, sp: seq<Span>): nat
  {
    if sp == [] then i else sp[|sp| - 1].end
  }

  /** The extractor emits nothing from cursor `i` exactly when it stops there. */
  lemma StopsIffNoSpans(text: string, i: nat)
    ensures Stops(text, i) <==> SpansFrom(text, i) == []
  {
    if i < |text| {
      var s := IndexOf(text, '{', i);
      IndexOfSpec(text, '{', i);
      if s != -1 {
        CloseSpec(text, s);
        assert NoBraceIn(text, i, s);
        if Close(text, s).None? {
          forall s' | i <= s' < |text| && text[s'] == '{' && NoBraceIn(text, i, s')
            ensures forall e :: !ObjectAt(text, s', e)
          {
            assert s' == s;
          }
        } else {
          assert ObjectAt(text, s, Close(text, s).value + 1);
        }
      }
    }
  }

  /** The first region the extractor emits starts at the first `{` and is a complete object. */
  lemma FirstSpan(text: string, i: nat)
    requires SpansFrom(text, i) != []
    ensures var x := SpansFrom(text, i)[0];
      i <= x.start && NoBraceIn(text, i, x.start) && ObjectAt(text, x.start, x.end) &&
      SpansFrom(text, i)[1..] == SpansFrom(text, x.end)
  {
    IndexOfSpec(text, '{', i);
    var s := IndexOf(text, '{', i);
    CloseSpec(text, s);
    assert ObjectAt(text, s, Close(text, s).value + 1);
  }

  /** The specification produces a tiling. */
  lemma {:induction false} SpansFromTiles(text: string, i: nat)
    ensures Tiles(text, i, SpansFrom(text, i))
    decreases |text| - i
  {
    StopsIffNoSpans(text, i);
    var sp := SpansFrom(text, i);
    if sp != [] {
      FirstSpan(text, i);
      SpansFromTiles(text, sp[0].end);
    }
  }

  /** The first region of a tiling is the first region the extractor emits. */
  lemma FirstRegion(text: string, i: nat, x: Span)
    requires i <= x.start && NoBraceIn(text, i, x.start) && ObjectAt(text, x.start, x.end)
    ensures SpansFrom(text, i) == [x] + SpansFrom(text, x.end)
  {
    IndexOfSpec(text, '{', i);
    var s := IndexOf(text, '{', i);
    assert s == x.start;
    CloseSpec(text, s);
    assert Close(text, s) == Some(x.end - 1);
  }

  /** A tiling is unique: it is the specification's output. */
  lemma {:induction false} TilesUnique(text: string, i: nat, sp: seq<Span>)
    requires Tiles(text, i, sp)
    ensures sp == SpansFrom(text, i)
    decreases |sp|
  {
    if sp == [] {
      StopsIffNoSpans(text, i);
    } else {
      FirstRegion(text, i, sp[0]);
      TilesUnique(text, sp[0].end, sp[1..]);
      assert sp == [sp[0]] + sp[1..];
    }
  }

  /**
   The extractor's regions are exactly the tiling of the text: a sequence of
   regions is the output if and only if it satisfies Tiles.
   */
  lemma SpansExactlyTile(text: string, sp: seq<Span>)
    ensures Tiles(text, 0, sp) <==> sp == Spans(text)
  {
    SpansFromTiles(text, 0);
    if Tiles(text, 0, sp) {
      TilesUnique(text, 0, sp);
    }
  }

  /**
   The flat consequences of a tiling: every region is an object at or after
   the cursor, regions come in order without overlapping, no `{` is skipped
   between them, and the extraction stops after the last one.
   */
  lemma {:induction false} TilesFacts(text: string, i: nat, sp: seq<Span>)
    requires Tiles(text, i, sp)
    ensures forall k :: 0 <= k < |sp| ==> i <= sp[k].start && ObjectAt(text, sp[k].start, sp[k].end)
    ensures forall k, l :: 0 <= k < l < |sp| ==> sp[k].end <= sp[l].start
    ensures |sp| > 0 ==> NoBraceIn(text, i, sp[0].start)
    ensures forall k :: 0 <= k < |sp| - 1 ==> NoBraceIn(text, sp[k].end, sp[k + 1].start)
    ensures Stops(text, Resume(i, sp))
    decreases |sp|
  {
    if sp != [] {
      var rest := sp[1..];
      TilesFacts(text, sp[0].end, rest);
      assert forall k :: 0 < k < |sp| ==> sp[k] == rest[k - 1];
      if |rest| > 0 {
        assert Resume(i, sp) == Resume(sp[0].end, rest);
      }
    }
  }

  // ---------------------------------------------------------------------
  // The results themselves
  // ---------------------------------------------------------------------

  /**
   Every result is the contiguous slice of the input between a `{` and the
   `}` that closes it, and is a complete, minimal, quote-aware object: it
   opens with `{`, ends with `}` back at depth 0 outside any string, and
   every proper prefix is still open (so nested objects are absorbed).
   */
  lemma ResultsAreObjects(text: string)
    ensures |Extract(text)| == |Spans(text)|
    ensures forall k :: 0 <= k < |Extract(text)| ==>
              Extract(text)[k] == text[Spans(text)[k].start..Spans(text)[k].end] &&
              IsObject(Extract(text)[k]) &&
              Extract(text)[k][0] == '{' && Extract(text)[k][|Extract(text)[k]| - 1] == '}'
  {
    var sp := Spans(text);
    SpansFromTiles(text, 0);
    TilesFacts(text, 0, sp);
    forall k | 0 <= k < |sp|
      ensures IsObject(text[sp[k].start..sp[k].end])
      ensures text[sp[k].start..sp[k].end][0] == '{'
      ensures text[sp[k].start..sp[k].end][sp[k].end - sp[k].start - 1] == '}'
    {
      ObjectSlice(text, sp[k].start, sp[k].end);
      ObjectShape(text[sp[k].start..sp[k].end]);
    }
  }

  /**
   Results appear in the order of their opening braces and never overlap;
   no `{` outside the results is passed over before the last one.
   */
  lemma ResultsInOrder(text: string)
    ensures forall k, l :: 0 <= k < l < |Spans(text)| ==> Spans(text)[k].end <= Spans(text)[l].start
    ensures |Spans(text)| > 0 ==> NoBraceIn(text, 0, Spans(text)[0].start)
    ensures forall k :: 0 <= k < |Spans(text)| - 1 ==>
              NoBraceIn(text, Spans(text)[k].end, Spans(text)[k + 1].start)
  {
    SpansFromTiles(text, 0);
    TilesFacts(text, 0, Spans(text));
  }

  /**
   After the last result the extraction ends because the cursor is at the end,
   no `{` is left, or the next `{` opens a truncated candidate; such a
   candidate is never emitted.
   */
  lemma TruncatedTailDropped(text: string)
    ensures Stops(text, Resume(0, Spans(text)))
  {
    SpansFromTiles(text, 0);
    TilesFacts(text, 0, Spans(text));
  }

  /** A text without `{` yields no results. */
  lemma NoBraceNoResults(text: string)
    requires forall n :: 0 <= n < |text| ==> text[n] != '{'
    ensures Extract(text) == []
  {
    IndexOfSpec(text, '{', 0);
  }

  /** A complete object, extracted on its own, yields exactly itself. */
  lemma ObjectExtractsToItself(r: string)
    requires IsObject(r)
    ensures Extract(r) == [r]
  {
    ObjectShape(r);
    CloseSpec(r, 0);
    assert IndexOf(r, '{', 0) == 0;
    assert Close(r, 0) == Some(|r| - 1);
    assert SpansFrom(r, |r|) == [];
    assert Spans(r) == [Span(0, |r|)];
    assert r[0..|r|] == r;
  }

  /** Idempotence: re-extracting any result gives back that one result. */
  lemma ExtractIdempotent(text: string, k: nat)
    requires k < |Extract(text)|
    ensures Extract(Extract(text)[k]) == [Extract(text)[k]]
  {
    ResultsAreObjects(text);
    ObjectExtractsToItself(Extract(text)[k]);
  }

  // ---------------------------------------------------------------------
  // Concatenation and streaming
  // ---------------------------------------------------------------------

  /** The regions `sp` moved `d` characters to the right. */
  function Shift(sp: seq<Span>, d: nat): seq<Span>
  {
    seq(|sp|, k requires 0 <= k < |sp| => Span(sp[k].start + d, sp[k].end + d))
  }

  /** Prepending text keeps an object an object, shifted. */
  lemma ObjectAtShift(p: string, t: string, s: nat, e: nat)
    requires s <= e <= |t|
    ensures ObjectAt(p + t, |p| + s, |p| + e) <==> ObjectAt(t, s, e)
  {
    assert (p + t)[|p| + s..|p| + e] == t[s..e];
    ObjectAtLocal(p + t, |p| + s, |p| + e, t, s, e);
  }

  lemma NoBraceShift(p: string, t: string, a: nat, b: nat)
    requires NoBraceIn(t, a, b)
    ensures NoBraceIn(p + t, |p| + a, |p| + b)
  {
    forall n | |p| + a <= n < |p| + b && n < |p + t|
      ensures (p + t)[n] != '{'
    {
      assert (p + t)[n] == t[n - |p|];
    }
  }

  lemma StopsShift(p: string, t: string, i: nat)
    requires Stops(t, i)
    ensures Stops(p + t, |p| + i)
  {
    var text := p + t;
    var d := |p|;
    if d + i < |text| {
      forall s | d + i <= s < |text| && text[s] == '{' && NoBraceIn(text, d + i, s)
        ensures forall e :: !ObjectAt(text, s, e)
      {
        assert t[s - d] == text[s];
        assert NoBraceIn(t, i, s - d) by {
          forall n | i <= n < s - d && n < |t| ensures t[n] != '{' {
            assert text[d + n] == t[n];
          }
        }
        forall e: nat ensures !ObjectAt(text, s, e) {
          if s < e <= |text| {
            ObjectAtShift(p, t, s - d, e - d);
          }
        }
      }
    }
  }

  /** Text in front of the cursor does not matter: a tiling of `t` shifts to one of `p + t`. */
  lemma {:induction false} TilesShift(p: string, t: string, i: nat, sp: seq<Span>)
    requires Tiles(t, i, sp)
    ensures Tiles(p + t, |p| + i, Shift(sp, |p|))
    decreases |sp|
  {
    if sp == [] {
      StopsShift(p, t, i);
    } else {
      var x := sp[0];
      ObjectAtShift(p, t, x.start, x.end);
      NoBraceShift(p, t, i, x.start);
      TilesShift(p, t, x.end, sp[1..]);
      var shifted, tail := Shift(sp, |p|), Shift(sp[1..], |p|);
      assert forall k :: 0 <= k < |tail| ==> shifted[1..][k] == tail[k];
      assert shifted[1..] == tail;
      assert shifted[0] == Span(|p| + x.start, |p| + x.end);
    }
  }

  /** The slices of shifted spans in `p + t` are the slices of the spans in `t`. */
  lemma SlicesShift(p: string, t: string, sp: seq<Span>)
    requires InText(t, sp)
    ensures InText(p + t, Shift(sp, |p|))
    ensures Slices(p + t, Shift(sp, |p|)) == Slices(t, sp)
  {
    var a := Slices(p + t, Shift(sp, |p|));
    var b := Slices(t, sp);
    forall k | 0 <= k < |sp| ensures a[k] == b[k] {
      assert (p + t)[|p| + sp[k].start..|p| + sp[k].end] == t[sp[k].start..sp[k].end];
    }
  }

  /** The regions of an object followed by any text. */
  lemma ObjectThenTextSpans(r: string, t: string)
    requires IsObject(r)
    ensures Spans(r + t) == [Span(0, |r|)] + Shift(Spans(t), |r|)
  {
    var text := r + t;
    var sp := Spans(t);
    SpansFromTiles(t, 0);
    TilesShift(r, t, 0, sp);
    assert r[0..|r|] == text[0..|r|];
    ObjectAtLocal(r, 0, |r|, text, 0, |r|);
    var all := [Span(0, |r|)] + Shift(sp, |r|);
    assert all[1..] == Shift(sp, |r|);
    assert Tiles(text, 0, all);
    TilesUnique(text, 0, all);
  }

  /**
   A complete object followed by any text: the object is the first result,
   and the rest are exactly the results of the text after it (so adjacent
   objects with nothing between them are emitted separately).
   */
  lemma ObjectThenText(r: string, t: string)
    requires IsObject(r)
    ensures Extract(r + t) == [r] + Extract(t)
  {
    ObjectThenTextSpans(r, t);
    SlicesShift(r, t, Spans(t));
    SlicesCons(r + t, Span(0, |r|), Shift(Spans(t), |r|));
    assert (r + t)[0..|r|] == r;
  }

  /** A candidate that closes in a text closes at the same `}` in any extension of it. */
  lemma CloseExtend(text: string, more: string, s: nat, j: nat)
    requires s < |text| && text[s] == '{' && Close(text, s) == Some(j)
    ensures Close(text + more, s) == Some(j)
  {
    CloseSpec(text, s);
    CloseSpec(text + more, s);
    assert (text + more)[s..j + 1] == text[s..j + 1];
    ObjectAtLocal(text, s, j + 1, text + more, s, j + 1);
  }

  /** The regions found in a text are a prefix of those found in any extension of it. */
  lemma {:induction false} SpansFromExtend(text: string, more: string, i: nat)
    ensures SpansFrom(text, i) <= SpansFrom(text + more, i)
    decreases |text| - i
  {
    if i < |text| {
      var s := IndexOf(text, '{', i);
      if s != -1 {
        IndexOfSpec(text, '{', i);
        IndexOfSpec(text + more, '{', i);
        var s2 := IndexOf(text + more, '{', i);
        assert (text + more)[s] == '{';
        assert s2 == s;
        match Close(text, s)
        case None =>
        case Some(j) =>
          CloseExtend(text, more, s, j);
          SpansFromExtend(text, more, j + 1);
      }
    }
  }

  /**
   Streaming: feeding more text never retracts or changes a result already
   extracted; the results for a text are a prefix of the results for any
   extension of it. This is what discarding a truncated tail buys.
   */
  lemma StreamingPrefix(text: string, more: string)
    ensures Extract(text) <= Extract(text + more)
  {
    var sp := Spans(text);
    var sp2 := Spans(text + more);
    SpansFromExtend(text, more, 0);
    var a := Extract(text);
    var b := Extract(text + more);
    assert |a| <= |b|;
    forall k | 0 <= k < |a| ensures a[k] == b[k] {
      assert sp[k] == sp2[k];
      assert (text + more)[sp[k].start..sp[k].end] == text[sp[k].start..sp[k].end];
    }
  }

  // ---------------------------------------------------------------------
  // Strings and escapes
  // ---------------------------------------------------------------------

  /**
   The inside of a JSON string as the scanner sees it: characters other than
   `"` and `\`, and escape pairs `\` + any character.
   */
  ghost predicate StringBody(q: string)
    decreases |q|
  {
    q == [] ||
    (q[0] != '"' && q[0] != '\\' && StringBody(q[1..])) ||
    (|q| >= 2 && q[0] == '\\' && StringBody(q[2..]))
  }

  /**
   Inside a string, a string body changes nothing: braces in it do not move
   the depth, an escaped `"` does not end the string, and `\\` leaves no
   pending escape.
   */
  lemma {:induction false} StringBodyTransparent(p: string, q: string)
    requires Run(p).mode == InString && StringBody(q)
    ensures Run(p + q) == Run(p)
    decreases |q|
  {
    if q == [] {
      assert p + q == p;
    } else {
      if q[0] != '"' && q[0] != '\\' && StringBody(q[1..]) {
        var p' := p + [q[0]];
        assert p'[..|p'| - 1] == p;
        assert Run(p') == Run(p);
        assert p' + q[1..] == p + q;
        StringBodyTransparent(p', q[1..]);
      } else {
        var p1 := p + [q[0]];
        var p2 := p1 + [q[1]];
        assert p1[..|p1| - 1] == p;
        assert p2[..|p2| - 1] == p1;
        assert Run(p1).mode == Escaped;
        assert Run(p2) == Run(p);
        assert p2 + q[2..] == p + q;
        StringBodyTransparent(p2, q[2..]);
      }
    }
  }

  /** A whole quoted string read outside any string leaves the scan state as it was. */
  lemma StringLiteralTransparent(p: string, q: string)
    requires Run(p).mode == Normal && StringBody(q)
    ensures Run(p + ['"'] + q + ['"']) == Run(p)
  {
    var p1 := p + ['"'];
    assert p1[..|p1| - 1] == p;
    assert Run(p1) == Run(p).(mode := InString);
    StringBodyTransparent(p1, q);
    var p2 := p1 + q + ['"'];
    assert p2[..|p2| - 1] == p1 + q;
    assert p + ['"'] + q + ['"'] == p2;
  }

  // ---------------------------------------------------------------------
  // Worked examples
  // ---------------------------------------------------------------------

  lemma ExampleEmptyObject()
    ensures Extract("{}") == ["{}"]
  {
    var text := "{}";
    assert IndexOf(text, '{', 0) == 0;
    assert Close(text, 0) == Some(1);
    assert SpansFrom(text, 2) == [];
    assert text[0..2] == text;
  }

  lemma ExampleNested()
    ensures Extract("{\"a\": {\"b\": 1}}") == ["{\"a\": {\"b\": 1}}"]
  {
    var text := "{\"a\": {\"b\": 1}}";
    assert IndexOf(text, '{', 0) == 0;
    assert ScanFrom(text, 13, ScanState(2, Normal)) == Some(14);
    assert ScanFrom(text, 10, ScanState(2, Normal)) == Some(14);
    assert ScanFrom(text, 7, ScanState(2, Normal)) == Some(14);
    assert ScanFrom(text, 4, ScanState(1, Normal)) == Some(14);
    assert Close(text, 0) == Some(14);
    assert SpansFrom(text, 15) == [];
    assert text[0..15] == text;
  }

  lemma ExampleAdjacent()
    ensures Extract("{\"a\":1}{\"b\":2}") == ["{\"a\":1}", "{\"b\":2}"]
  {
    var r, t := "{\"a\":1}", "{\"b\":2}";
    CloseSpec(r, 0);
    CloseSpec(t, 0);
    assert Close(r, 0) == Some(6);
    assert Close(t, 0) == Some(6);
    ObjectExtractsToItself(t);
    ObjectThenText(r, t);
    assert r + t == "{\"a\":1}{\"b\":2}";
  }

  lemma ExampleQuotedBrace()
    ensures Extract("{\"a\": \"x}y\"}") == ["{\"a\": \"x}y\"}"]
  {
    var text := "{\"a\": \"x}y\"}";
    assert IndexOf(text, '{', 0) == 0;
    assert Close(text, 0) == Some(11);
    assert SpansFrom(text, 12) == [];
    assert text[0..12] == text;
  }

  lemma ExampleTruncated()
    ensures Extract("prefix {\"a\": 1") == []
  {
    var text := "prefix {\"a\": 1";
    assert IndexOf(text, '{', 0) == 7;
    assert Close(text, 7) == None;
    assert SpansFrom(text, 0) == [];
  }
}
