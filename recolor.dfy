/**
  Recolouring a template (src/lib/templates.ts, from `findColorMatches` on).

  The matches of the two patterns are merged into start order, each is given
  the palette entry nearest to it in lightness, and the text is rebuilt with
  every match replaced by that entry, written in the match's own syntax
  (`css` for `oklch(...)`, `hex` for `#...`).
*/
module Recolor {
  import opened Wrappers
  import opened Templates
  import Colors

  // ---------------------------------------------------------------------------
  // findColorMatches: both scans, then the sort by start
  // ---------------------------------------------------------------------------

  /** Starts never decrease along `ms`. */
  ghost predicate SortedByStart(ms: seq<Match>) {
    forall j, k :: 0 <= j < k < |ms| ==> ms[j].start <= ms[k].start
  }

  /** Every match of `ms` starts at or after `p`. */
  ghost predicate AllStartAtLeast(ms: seq<Match>, p: nat) {
    forall k :: 0 <= k < |ms| ==> p <= ms[k].start
  }

  /**
    `out.sort((a, b) => a.start - b.start)` applied to the hex matches
    followed by the oklch matches: a stable sort of two runs already in start
    order leaves them merged, and on equal starts the earlier run first.
  */
  function MergeByStart(a: seq<Match>, b: seq<Match>): (r: seq<Match>)
    ensures |r| == |a| + |b|
    decreases |a| + |b|
  {
    if a == [] then b
    else if b == [] then a
    else if a[0].start <= b[0].start then [a[0]] + MergeByStart(a[1..], b)
    else [b[0]] + MergeByStart(a, b[1..])
  }

  /** The merge keeps every match of both runs, and adds none. */
  lemma {:induction false} MergeByStartPermutes(a: seq<Match>, b: seq<Match>)
    ensures multiset(MergeByStart(a, b)) == multiset(a) + multiset(b)
    decreases |a| + |b|
  {
    if a != [] && b != [] {
      if a[0].start <= b[0].start {
        MergeByStartPermutes(a[1..], b);
        MultisetOfHead(a);
        MultisetOfCons(a[0], MergeByStart(a[1..], b));
      } else {
        MergeByStartPermutes(a, b[1..]);
        MultisetOfHead(b);
        MultisetOfCons(b[0], MergeByStart(a, b[1..]));
      }
    }
  }

  /** A non-empty sequence holds its head and the elements of its tail. */
  lemma MultisetOfHead(a: seq<Match>)
    requires a != []
    ensures multiset(a) == multiset{a[0]} + multiset(a[1..])
  {
    assert a == [a[0]] + a[1..];
  }

  /** A match put in front adds one occurrence of it. */
  lemma MultisetOfCons(m: Match, rest: seq<Match>)
    ensures multiset([m] + rest) == multiset{m} + multiset(rest)
  {
  }

  /** A lower bound on the starts of both runs bounds the merge. */
  lemma {:induction false} MergeByStartAtLeast(a: seq<Match>, b: seq<Match>, p: nat)
    requires AllStartAtLeast(a, p) && AllStartAtLeast(b, p)
    ensures AllStartAtLeast(MergeByStart(a, b), p)
    decreases |a| + |b|
  {
    if a != [] && b != [] {
      if a[0].start <= b[0].start {
        MergeByStartAtLeast(a[1..], b, p);
        ConsAtLeast(a[0], MergeByStart(a[1..], b), p);
      } else {
        MergeByStartAtLeast(a, b[1..], p);
        ConsAtLeast(b[0], MergeByStart(a, b[1..]), p);
      }
    }
  }

  /** A match starting at or after `p`, put in front, keeps the bound. */
  lemma ConsAtLeast(m: Match, rest: seq<Match>, p: nat)
    requires p <= m.start && AllStartAtLeast(rest, p)
    ensures AllStartAtLeast([m] + rest, p)
  {
    var r := [m] + rest;
    forall k | 1 <= k < |r|
      ensures p <= r[k].start
    {
      assert r[k] == rest[k - 1];
    }
  }

  /** Putting a match in front of matches that start no earlier keeps start order. */
  lemma ConsSorted(m: Match, rest: seq<Match>)
    requires SortedByStart(rest) && AllStartAtLeast(rest, m.start)
    ensures SortedByStart([m] + rest)
  {
    var r := [m] + rest;
    forall j, k | 0 <= j < k < |r|
      ensures r[j].start <= r[k].start
    {
      assert r[k] == rest[k - 1];
      if j > 0 {
        assert r[j] == rest[j - 1];
      }
    }
  }

  /** Merging two runs in start order yields one run in start order. */
  lemma {:induction false} MergeByStartSorted(a: seq<Match>, b: seq<Match>)
    requires SortedByStart(a) && SortedByStart(b)
    ensures SortedByStart(MergeByStart(a, b))
    decreases |a| + |b|
  {
    if a != [] && b != [] {
      if a[0].start <= b[0].start {
        MergeByStartSorted(a[1..], b);
        MergeByStartAtLeast(a[1..], b, a[0].start);
        ConsSorted(a[0], MergeByStart(a[1..], b));
      } else {
        MergeByStartSorted(a, b[1..]);
        MergeByStartAtLeast(a, b[1..], b[0].start);
        ConsSorted(b[0], MergeByStart(a, b[1..]));
      }
    }
  }

  /** The value `findColorMatches` returns: the decoded matches of both patterns, by start. */
  function ColorMatches(text: string, decode: Decoder): seq<Match> {
    MergeByStart(KindMatches(text, HexKind, decode), KindMatches(text, OklchKind, decode))
  }

  /** Matches of one pattern, following one another, are in start order. */
  lemma KindMatchesSorted(text: string, kind: Kind, decode: Decoder)
    ensures SortedByStart(KindMatches(text, kind, decode))
  {
    var r := KindMatches(text, kind, decode);
    KindMatchesExact(text, kind, decode);
    forall j, k | 0 <= j < k < |r|
      ensures r[j].start <= r[k].start
    {
      assert IsDecodedMatch(text, r[j], kind, decode);
    }
  }

  /**
    `findColorMatches` returns the hex and oklch matches, all of them and
    nothing else, in ascending start order.
  */
  lemma ColorMatchesSortedPermutation(text: string, decode: Decoder)
    ensures SortedByStart(ColorMatches(text, decode))
    ensures multiset(ColorMatches(text, decode))
         == multiset(KindMatches(text, HexKind, decode)) + multiset(KindMatches(text, OklchKind, decode))
  {
    KindMatchesSorted(text, HexKind, decode);
    KindMatchesSorted(text, OklchKind, decode);
    MergeByStartSorted(KindMatches(text, HexKind, decode), KindMatches(text, OklchKind, decode));
    MergeByStartPermutes(KindMatches(text, HexKind, decode), KindMatches(text, OklchKind, decode));
  }

  /** A span the pattern of `kind` reports is a literal of that kind, of the span's length. */
  lemma CandidateIsLiteral(text: string, kind: Kind, k: nat)
    requires k < |Candidates(text, kind, 0)|
    ensures var sp := Candidates(text, kind, 0)[k];
      && (kind == HexKind ==> IsHexMatchAt(text, sp.start, sp.end - sp.start))
      && (kind == OklchKind ==> IsOklchMatchAt(text, sp.start, sp.end - sp.start))
  {
    var tab := MatchTable(text, kind);
    var sp := Candidates(text, kind, 0)[k];
    ScanIsMatch(tab, 0, k);
    MatchTableAt(text, kind, sp.start);
    if kind == HexKind {
      HexLiteralAtIff(text, sp.start, sp.end - sp.start);
    } else {
      OklchLiteralAtIff(text, sp.start, sp.end - sp.start);
    }
  }

  /** A match as `findColorMatches` keeps it: a literal of its kind, decoded from the text it spans. */
  ghost predicate IsColorMatch(text: string, m: Match, decode: Decoder) {
    && IsDecodedMatch(text, m, m.kind, decode)
    && (m.kind == HexKind ==> IsHexMatchAt(text, m.start, m.end - m.start))
    && (m.kind == OklchKind ==> IsOklchMatchAt(text, m.start, m.end - m.start))
  }

  /** Every match of one pattern is a literal of its kind whose text decodes to its lightness. */
  lemma KindMatchesAreColorMatches(text: string, kind: Kind, decode: Decoder, j: nat)
    requires j < |KindMatches(text, kind, decode)|
    ensures IsColorMatch(text, KindMatches(text, kind, decode)[j], decode)
  {
    var r := KindMatches(text, kind, decode);
    var c := Candidates(text, kind, 0);
    KindMatchesExact(text, kind, decode);
    assert Span(r[j].start, r[j].end) in c;
    var k :| 0 <= k < |c| && c[k] == Span(r[j].start, r[j].end);
    CandidateIsLiteral(text, kind, k);
  }

  /**
    No hex match starts where an oklch match starts: one starts at `#`, the
    other at `o` or `O`.  With each run's starts strictly increasing, the
    start-sorted arrangement of the two runs is therefore unique, whatever
    the sort does with equal keys.
  */
  lemma HexOklchStartsDiffer(text: string, decode: Decoder, j: nat, k: nat)
    requires j < |KindMatches(text, HexKind, decode)|
    requires k < |KindMatches(text, OklchKind, decode)|
    ensures KindMatches(text, HexKind, decode)[j].start != KindMatches(text, OklchKind, decode)[k].start
  {
    var h := KindMatches(text, HexKind, decode)[j];
    var o := KindMatches(text, OklchKind, decode)[k];
    KindMatchesExact(text, HexKind, decode);
    KindMatchesExact(text, OklchKind, decode);
    KindMatchesAreColorMatches(text, HexKind, decode, j);
    KindMatchesAreColorMatches(text, OklchKind, decode, k);
    assert h.kind == HexKind && o.kind == OklchKind;
    assert text[h.start] == text[h.start..h.end][0] == '#';
    var lit := text[o.start..o.start + (o.end - o.start)];
    assert IsOklchLiteral(lit) && lit[0] == text[o.start];
  }

  /**
    Every match `findColorMatches` returns is a hex or oklch literal of the
    text, with `raw` the text it spans, and carries the decoded lightness.
  */
  lemma ColorMatchesSound(text: string, decode: Decoder)
    ensures forall m :: m in ColorMatches(text, decode) ==> IsColorMatch(text, m, decode)
  {
    var hex := KindMatches(text, HexKind, decode);
    var ok := KindMatches(text, OklchKind, decode);
    ColorMatchesSortedPermutation(text, decode);
    forall m | m in ColorMatches(text, decode)
      ensures IsColorMatch(text, m, decode)
    {
      assert m in multiset(ColorMatches(text, decode));
      if m in multiset(hex) {
        var j :| 0 <= j < |hex| && hex[j] == m;
        KindMatchesAreColorMatches(text, HexKind, decode, j);
      } else {
        assert m in multiset(ok);
        var j :| 0 <= j < |ok| && ok[j] == m;
        KindMatchesAreColorMatches(text, OklchKind, decode, j);
      }
    }
  }

  /**
    The two patterns can both match inside one literal: in `oklch(#abc)` the
    hex pattern matches at offset 6, since `)` ends the word.  Only a decoder
    that rejects one of the two keeps them from overlapping.
  */
  lemma PatternsOverlap()
    ensures HexLiteralAt("oklch(#abc)", 6) == Some(4)
    ensures OklchLiteralAt("oklch(#abc)", 0) == Some(11)
  {
    var t := "oklch(#abc)";
    assert HexDigitsAt(t, 7, 3);
    assert FirstClose(t, 7) == 10 by {
      assert FirstClose(t, 10) == 10;
      assert FirstClose(t, 9) == 10;
      assert FirstClose(t, 8) == 10;
    }
    assert FirstClose(t, 6) == 10;
  }

  /** `findColorMatches`: scan for hex literals, then for oklch literals, then sort by start. */
  method FindColorMatches(text: string, decode: Decoder) returns (out: seq<Match>)
    ensures out == ColorMatches(text, decode)
    ensures SortedByStart(out)
    ensures forall m :: m in out ==> IsColorMatch(text, m, decode)
  {
    var hex := ScanKind(text, HexKind, decode);
    var ok := ScanKind(text, OklchKind, decode);
    out := MergeByStart(hex, ok);
    ColorMatchesSortedPermutation(text, decode);
    ColorMatchesSound(text, decode);
  }

  // ---------------------------------------------------------------------------
  // nearestByLightness
  // ---------------------------------------------------------------------------

  /** `Math.abs(a - b)`. */
  function Dist(a: real, b: real): (d: real)
    ensures 0.0 <= d
    ensures d == a - b || d == b - a
  {
    if a < b then b - a else a - b
  }

  /** The distance in lightness between palette entry `k` and `l`. */
  function DistAt(palette: seq<Colors.NamedColor>, k: nat, l: real): real
    requires k < |palette|
  {
    Dist(palette[k].oklch.l, l)
  }

  /**
    Entry `k` is nearest to `l` among the first `n` entries, and earlier
    entries are strictly farther: the first of the nearest.
  */
  ghost predicate IsNearestIn(palette: seq<Colors.NamedColor>, n: nat, l: real, k: nat)
    requires n <= |palette|
  {
    && k < n
    && (forall j :: 0 <= j < n ==> DistAt(palette, k, l) <= DistAt(palette, j, l))
    && (forall j :: 0 <= j < k ==> DistAt(palette, k, l) < DistAt(palette, j, l))
  }

  /** Entry `k` is the first of the entries nearest to `l`. */
  ghost predicate IsNearest(palette: seq<Colors.NamedColor>, l: real, k: nat) {
    IsNearestIn(palette, |palette|, l, k)
  }

  /** There is at most one first nearest entry. */
  lemma NearestUnique(palette: seq<Colors.NamedColor>, l: real, k1: nat, k2: nat)
    requires IsNearest(palette, l, k1) && IsNearest(palette, l, k2)
    ensures k1 == k2
  {
    assert DistAt(palette, k1, l) <= DistAt(palette, k2, l);
    assert DistAt(palette, k2, l) <= DistAt(palette, k1, l);
  }

  /**
    The inner loop of `nearestByLightness` after the first `n` entries: the
    entry held in `best`, or None while `bestD` is still `Infinity`.  An entry
    replaces `best` only when strictly nearer.
  */
  function BestAfter(palette: seq<Colors.NamedColor>, l: real, n: nat): Option<nat>
    requires n <= |palette|
  {
    if n == 0 then None
    else
      var b := BestAfter(palette, l, n - 1);
      if b.None? || (b.value < |palette| && DistAt(palette, n - 1, l) < DistAt(palette, b.value, l)) then Some(n - 1)
      else b
  }

  /** After `n` entries the loop holds the first nearest of them, and holds one unless `n` is 0. */
  lemma {:induction false} BestAfterIsNearest(palette: seq<Colors.NamedColor>, l: real, n: nat)
    requires n <= |palette|
    ensures BestAfter(palette, l, n).None? <==> n == 0
    ensures BestAfter(palette, l, n).Some? ==> IsNearestIn(palette, n, l, BestAfter(palette, l, n).value)
  {
    if n > 0 {
      BestAfterIsNearest(palette, l, n - 1);
      var b := BestAfter(palette, l, n - 1);
      if b.Some? && !(DistAt(palette, n - 1, l) < DistAt(palette, b.value, l)) {
        assert IsNearestIn(palette, n - 1, l, b.value);
        forall j | 0 <= j < n
          ensures DistAt(palette, b.value, l) <= DistAt(palette, j, l)
        {
        }
      }
    }
  }

  /** The palette entry the replacement for lightness `l` is taken from. */
  function NearestOf(palette: seq<Colors.NamedColor>, l: real): (k: nat)
    requires |palette| > 0
    ensures k < |palette|
  {
    BestAfterIsNearest(palette, l, |palette|);
    BestAfter(palette, l, |palette|).value
  }

  /** The chosen entry is the first of the entries nearest in lightness. */
  lemma NearestOfIsNearest(palette: seq<Colors.NamedColor>, l: real)
    requires |palette| > 0
    ensures IsNearest(palette, l, NearestOf(palette, l))
  {
    BestAfterIsNearest(palette, l, |palette|);
  }

  /**
    The inner loop of `nearestByLightness`: the first palette entry nearest
    to `l`, or None for an empty palette, where `best` stays null.
  */
  method NearestIndex(palette: seq<Colors.NamedColor>, l: real) returns (best: Option<nat>)
    ensures best.None? <==> |palette| == 0
    ensures best.Some? ==> best.value == NearestOf(palette, l) && IsNearest(palette, l, best.value)
  {
    best := None;
    var bestD := 0.0;
    for i := 0 to |palette|
      invariant best == BestAfter(palette, l, i)
      invariant best.Some? ==> best.value < i && bestD == DistAt(palette, best.value, l)
    {
      var d := Dist(palette[i].oklch.l, l);
      if best.None? || d < bestD {
        bestD := d;
        best := Some(i);
      }
    }
    BestAfterIsNearest(palette, l, |palette|);
  }

  /** The replacement text for a match of `kind`: the entry's `css` for oklch, its `hex` for hex. */
  function ReplacementFor(kind: Kind, chosen: Colors.NamedColor): string {
    if kind == OklchKind then chosen.css else chosen.hex
  }

  /** The error `best!.css` raises when no entry was chosen. */
  const NullChosen: string := "TypeError: chosen is null"

  /**
    The value of `nearestByLightness`: one replacement per match, in match
    order; with an empty palette the first match raises.
  */
  function Replacements(ms: seq<Match>, palette: seq<Colors.NamedColor>): Result<seq<string>, string> {
    if |ms| > 0 && |palette| == 0 then Err(NullChosen)
    else Ok(seq(|ms|, i requires 0 <= i < |ms| && |palette| > 0 => ReplacementFor(ms[i].kind, palette[NearestOf(palette, ms[i].l)])))
  }

  /** `s` is the replacement for `m`: its syntax, taken from the first palette entry nearest in lightness. */
  ghost predicate IsReplacement(palette: seq<Colors.NamedColor>, m: Match, s: string) {
    exists k: nat :: IsNearest(palette, m.l, k) && s == ReplacementFor(m.kind, palette[k])
  }

  /**
    `nearestByLightness` fails exactly when there is a match and no palette
    entry; otherwise replacement `i` is the first entry nearest to match
    `i` in lightness, in the syntax of that match.
  */
  lemma ReplacementsNearest(ms: seq<Match>, palette: seq<Colors.NamedColor>)
    ensures Replacements(ms, palette).Err? <==> |ms| > 0 && |palette| == 0
    ensures var r := Replacements(ms, palette);
      r.Ok? ==> (|r.value| == |ms| && forall i :: 0 <= i < |ms| ==> IsReplacement(palette, ms[i], r.value[i]))
  {
    var r := Replacements(ms, palette);
    if r.Ok? {
      forall i | 0 <= i < |ms|
        ensures IsReplacement(palette, ms[i], r.value[i])
      {
        var k := NearestOf(palette, ms[i].l);
        NearestOfIsNearest(palette, ms[i].l);
        assert IsNearest(palette, ms[i].l, k) && r.value[i] == ReplacementFor(ms[i].kind, palette[k]);
      }
    }
  }

  /** `nearestByLightness`: for each match, the inner argmin loop, then the replacement text. */
  method NearestByLightness(ms: seq<Match>, palette: seq<Colors.NamedColor>) returns (r: Result<seq<string>, string>)
    ensures r == Replacements(ms, palette)
  {
    var out: seq<string> := [];
    for i := 0 to |ms|
      invariant |out| == i
      invariant i > 0 ==> |palette| > 0
      invariant forall j :: 0 <= j < i ==> out[j] == ReplacementFor(ms[j].kind, palette[NearestOf(palette, ms[j].l)])
    {
      var best := NearestIndex(palette, ms[i].l);
      if best.None? {
        return Err(NullChosen);
      }
      out := out + [ReplacementFor(ms[i].kind, palette[best.value])];
    }
    assert out == Replacements(ms, palette).value;
    r := Ok(out);
  }

  // ---------------------------------------------------------------------------
  // The rewrite loop of applyTemplates
  // ---------------------------------------------------------------------------

  /**
    JavaScript's `s.slice(from, to)` for non-negative arguments: both are
    clamped to the length, and an empty string results when `to` is not
    after `from`.
  */
  function JsSlice(s: string, from: nat, to: nat): (r: string)
    ensures from <= to <= |s| ==> r == s[from..to]
    ensures to <= from ==> r == []
  {
    var a := if from < |s| then from else |s|;
    var b := if to < |s| then to else |s|;
    if a < b then s[a..b] else []
  }

  /**
    The text the rewrite loop builds from `cursor` on: the slice up to each
    match, its replacement, and finally the rest of the text.
  */
  function Rebuild(text: string, ms: seq<Match>, reps: seq<string>, cursor: nat): string
    requires |reps| == |ms|
    decreases |ms|
  {
    if ms == [] then JsSlice(text, cursor, |text|)
    else JsSlice(text, cursor, ms[0].start) + reps[0] + Rebuild(text, ms[1..], reps[1..], ms[0].end)
  }

  /** One turn of the rewrite loop, on the matches from `i` on. */
  lemma RebuildStep(text: string, ms: seq<Match>, reps: seq<string>, i: nat, cursor: nat)
    requires |reps| == |ms| && i < |ms|
    ensures Rebuild(text, ms[i..], reps[i..], cursor)
         == JsSlice(text, cursor, ms[i].start) + reps[i] + Rebuild(text, ms[i + 1..], reps[i + 1..], ms[i].end)
  {
    assert ms[i..][1..] == ms[i + 1..];
    assert reps[i..][1..] == reps[i + 1..];
  }

  /** The rewrite loop of `applyTemplates`: `out` grows by a gap and a replacement per match, then the tail. */
  method Splice(text: string, ms: seq<Match>, reps: seq<string>) returns (out: string)
    requires |reps| == |ms|
    ensures out == Rebuild(text, ms, reps, 0)
  {
    var cursor := 0;
    out := "";
    for i := 0 to |ms|
      invariant out + Rebuild(text, ms[i..], reps[i..], cursor) == Rebuild(text, ms, reps, 0)
    {
      RebuildStep(text, ms, reps, i, cursor);
      ghost var rest := Rebuild(text, ms[i + 1..], reps[i + 1..], ms[i].end);
      AppendAssoc(out, JsSlice(text, cursor, ms[i].start) + reps[i], rest);
      AppendAssoc(out, JsSlice(text, cursor, ms[i].start), reps[i]);
      out := out + JsSlice(text, cursor, ms[i].start);
      out := out + reps[i];
      cursor := ms[i].end;
    }
    assert ms[|ms|..] == [] && reps[|ms|..] == [];
    out := out + JsSlice(text, cursor, |text|);
  }

  /**
    The matches lie in a text of length `n`, from `cursor` on, in order and
    without overlapping.
  */
  predicate InOrder(n: nat, ms: seq<Match>, cursor: nat)
    decreases |ms|
  {
    if ms == [] then cursor <= n
    else cursor <= ms[0].start <= ms[0].end <= n && InOrder(n, ms[1..], ms[0].end)
  }

  /** The stretches of text between the matches, from `cursor` on, the tail last. */
  function Gaps(text: string, ms: seq<Match>, cursor: nat): (g: seq<string>)
    requires InOrder(|text|, ms, cursor)
    ensures |g| == |ms| + 1
    decreases |ms|
  {
    if ms == [] then [text[cursor..]]
    else [text[cursor..ms[0].start]] + Gaps(text, ms[1..], ms[0].end)
  }

  /** `g[0] + r[0] + g[1] + ... + r[n - 1] + g[n]`. */
  function Interleave(g: seq<string>, r: seq<string>): string
    requires |g| == |r| + 1
    decreases |r|
  {
    if r == [] then g[0] else g[0] + r[0] + Interleave(g[1..], r[1..])
  }

  /**
    With the matches in order and apart, the rewrite yields gap 0, replacement
    0, gap 1, and so on up to the tail, where every gap is the text between
    two matches copied verbatim.
  */
  lemma {:induction false} RebuildLayout(text: string, ms: seq<Match>, reps: seq<string>, cursor: nat)
    requires |reps| == |ms| && InOrder(|text|, ms, cursor)
    ensures Rebuild(text, ms, reps, cursor) == Interleave(Gaps(text, ms, cursor), reps)
    decreases |ms|
  {
    if ms != [] {
      RebuildLayout(text, ms[1..], reps[1..], ms[0].end);
      var g := Gaps(text, ms, cursor);
      assert g[1..] == Gaps(text, ms[1..], ms[0].end);
    }
  }

  /** The growth of the text: the length of each replacement less the length of the match it replaces. */
  function Delta(ms: seq<Match>, reps: seq<string>): int
    requires |reps| == |ms|
    decreases |ms|
  {
    if ms == [] then 0 else |reps[0]| - (ms[0].end - ms[0].start) + Delta(ms[1..], reps[1..])
  }

  /** With the matches in order and apart, the output length is the text's plus the growth of each replacement. */
  lemma {:induction false} RebuildLength(text: string, ms: seq<Match>, reps: seq<string>, cursor: nat)
    requires |reps| == |ms| && InOrder(|text|, ms, cursor)
    ensures |Rebuild(text, ms, reps, cursor)| == |text| - cursor + Delta(ms, reps)
    decreases |ms|
  {
    if ms != [] {
      RebuildLength(text, ms[1..], reps[1..], ms[0].end);
    }
  }

  /** Replacing every match with its own text gives back the text. */
  lemma {:induction false} RebuildIdentity(text: string, ms: seq<Match>, reps: seq<string>, cursor: nat)
    requires |reps| == |ms| && cursor <= |text| && InOrder(|text|, ms, cursor)
    requires forall i :: 0 <= i < |ms| ==> ms[i].start <= ms[i].end <= |text| && reps[i] == text[ms[i].start..ms[i].end]
    ensures Rebuild(text, ms, reps, cursor) == text[cursor..]
    decreases |ms|
  {
    if ms != [] {
      assert forall i :: 1 <= i < |ms| ==> ms[1..][i - 1] == ms[i] && reps[1..][i - 1] == reps[i];
      RebuildIdentity(text, ms[1..], reps[1..], ms[0].end);
      assert text[cursor..] == text[cursor..ms[0].start] + text[ms[0].start..ms[0].end] + text[ms[0].end..];
    }
  }

  // ---------------------------------------------------------------------------
  // One mapping of applyTemplates
  // ---------------------------------------------------------------------------

  /**
    The content `applyTemplates` writes for one template (lines 70-86): the
    template itself when it holds no match, otherwise the rewrite; an empty
    palette with a match raises.
  */
  function Recolor(content: string, palette: seq<Colors.NamedColor>, decode: Decoder): Result<string, string> {
    var ms := ColorMatches(content, decode);
    if |ms| == 0 then Ok(content)
    else
      match Replacements(ms, palette)
      case Err(e) => Err(e)
      case Ok(reps) => Ok(Rebuild(content, ms, reps, 0))
  }

  /**
    The recolouring fails exactly when the template holds a match and the
    palette is empty; a template without a match is written through as it is.
  */
  lemma RecolorOutcome(content: string, palette: seq<Colors.NamedColor>, decode: Decoder)
    ensures Recolor(content, palette, decode).Err? <==> |ColorMatches(content, decode)| > 0 && |palette| == 0
    ensures ColorMatches(content, decode) == [] ==> Recolor(content, palette, decode) == Ok(content)
  {
    ReplacementsNearest(ColorMatches(content, decode), palette);
  }

  /** The palette of any scheme has entries, so recolouring against it never fails. */
  lemma RecolorWithScheme(content: string, s: Colors.Scheme, decode: Decoder)
    ensures Recolor(content, Colors.AllSchemeColors(s), decode).Ok?
  {
    RecolorOutcome(content, Colors.AllSchemeColors(s), decode);
  }

  /**
    When the matches lie apart, the output is the text between them copied
    verbatim with a replacement in each match's place, and its length is the
    content's plus the growth of each replacement.
  */
  lemma RecolorLayout(content: string, palette: seq<Colors.NamedColor>, decode: Decoder)
    requires |palette| > 0
    requires InOrder(|content|, ColorMatches(content, decode), 0)
    ensures var ms := ColorMatches(content, decode);
      var reps := Replacements(ms, palette).value;
      && |reps| == |ms|
      && Recolor(content, palette, decode) == Ok(Interleave(Gaps(content, ms, 0), reps))
      && |Recolor(content, palette, decode).value| == |content| + Delta(ms, reps)
  {
    var ms := ColorMatches(content, decode);
    var reps := Replacements(ms, palette).value;
    RebuildLayout(content, ms, reps, 0);
    RebuildLength(content, ms, reps, 0);
    if ms == [] {
      assert Gaps(content, ms, 0) == [content[0..]];
    }
  }

  /** The work `applyTemplates` does for one existing template, after reading it. */
  method RecolorContent(content: string, palette: seq<Colors.NamedColor>, decode: Decoder) returns (r: Result<string, string>)
    ensures r == Recolor(content, palette, decode)
  {
    var ms := FindColorMatches(content, decode);
    if |ms| == 0 {
      return Ok(content);
    }
    var reps := NearestByLightness(ms, palette);
    if reps.Err? {
      return Err(reps.error);
    }
    var out := Splice(content, ms, reps.value);
    r := Ok(out);
  }
}
