/**
  Colour-literal scanning (src/lib/templates.ts, the two loops of
  `findColorMatches`).

  A template is scanned for two kinds of colour literal: `#` with 3 or 6 hex
  digits (`HEX_RE`) and `oklch(...)` (`OKLCH_RE`).  Each literal found is
  decoded to a lightness; those that do not decode are dropped.

  The regular expressions become an explicit left-to-right scanner; the
  colour library's parser (`parse` then `toOklch`) is a parameter that maps a
  literal to its lightness, or to None when it does not parse.
*/
module Templates {
  import opened Wrappers
  import opened Ascii

  /** Which pattern found a literal. */
  datatype Kind = HexKind | OklchKind

  /** A literal found in the text: the span `[start, end)`, its text and decoded lightness. */
  datatype Match = Match(start: nat, end: nat, raw: string, kind: Kind, l: real)

  /** A span the pattern matched, before decoding. */
  datatype Span = Span(start: nat, end: nat)

  /** The colour library's parser: the lightness of a literal, or None. */
  type Decoder = string -> Option<real>

  // ---------------------------------------------------------------------------
  // The two literal grammars
  // ---------------------------------------------------------------------------

  predicate IsHexDigit(c: char) {
    '0' <= c <= '9' || 'a' <= c <= 'f' || 'A' <= c <= 'F'
  }

  /** The characters of `\w`: letters, digits and underscore. */
  predicate IsWordChar(c: char) {
    '0' <= c <= '9' || 'a' <= c <= 'z' || 'A' <= c <= 'Z' || c == '_'
  }

  predicate AllHexDigits(s: string) {
    forall i :: 0 <= i < |s| ==> IsHexDigit(s[i])
  }

  /** The `n` characters from `i` on are hex digits. */
  predicate HexDigitsAt(text: string, i: nat, n: nat)
    requires i + n <= |text|
  {
    forall k :: i <= k < i + n ==> IsHexDigit(text[k])
  }

  /** `\b` right after a word character: end of text or a non-word character. */
  predicate WordEndsAt(text: string, k: nat)
    requires k <= |text|
  {
    k == |text| || !IsWordChar(text[k])
  }

  /** `#` followed by exactly 3 or 6 hex digits. */
  predicate IsHexLiteral(s: string) {
    (|s| == 4 || |s| == 7) && s[0] == '#' && AllHexDigits(s[1..])
  }

  /** The `n` characters at `i` are a hex literal followed by a word boundary. */
  predicate IsHexMatchAt(text: string, i: nat, n: nat) {
    i + n <= |text| && IsHexLiteral(text[i..i + n]) && WordEndsAt(text, i + n)
  }

  /**
    `/#(?:[0-9a-fA-F]{3}|[0-9a-fA-F]{6})\b/` tried at position `i`: the length
    of the match.  The 3-digit branch is tried first; if the boundary after
    it fails, the 6-digit branch is tried.
  */
  function HexLiteralAt(text: string, i: nat): (r: Option<nat>)
    requires i <= |text|
    ensures r.Some? ==> i + r.value <= |text|
    ensures r.Some? ==> (r.value == 4 || r.value == 7) && text[i] == '#'
    ensures r.Some? ==> WordEndsAt(text, i + r.value)
  {
    if i < |text| && text[i] == '#' then
      if i + 4 <= |text| && HexDigitsAt(text, i + 1, 3) && WordEndsAt(text, i + 4) then Some(4)
      else if i + 7 <= |text| && HexDigitsAt(text, i + 1, 6) && WordEndsAt(text, i + 7) then Some(7)
      else None
    else None
  }

  /**
    The hex pattern matches at `i` with length `n` exactly when a hex literal
    of that length and a boundary are there: `#ffff` and `#abcdefg` have no
    match, and the two branches never both apply.
  */
  lemma HexLiteralAtIff(text: string, i: nat, n: nat)
    requires i <= |text|
    ensures HexLiteralAt(text, i) == Some(n) <==> IsHexMatchAt(text, i, n)
  {
    if IsHexMatchAt(text, i, n) {
      var s := text[i..i + n];
      assert s[0] == text[i];
      forall k | i + 1 <= k < i + n
        ensures IsHexDigit(text[k])
      {
        assert s[1..][k - i - 1] == text[k];
      }
      if n == 7 {
        assert IsHexDigit(text[i + 4]);
      }
    }
    if HexLiteralAt(text, i) == Some(n) {
      var s := text[i..i + n];
      forall k | 0 <= k < n - 1
        ensures IsHexDigit(s[1..][k])
      {
        assert s[1..][k] == text[i + 1 + k];
      }
    }
  }

  /** `oklch(` at `i`, the letters in either case. */
  predicate OklchOpenAt(text: string, i: nat)
    requires i + 6 <= |text|
  {
    && LowerChar(text[i]) == 'o' && LowerChar(text[i + 1]) == 'k' && LowerChar(text[i + 2]) == 'l'
    && LowerChar(text[i + 3]) == 'c' && LowerChar(text[i + 4]) == 'h' && text[i + 5] == '('
  }

  /** Case-insensitive `oklch(`, a non-empty body without `)`, then `)`. */
  predicate IsOklchLiteral(s: string) {
    && |s| >= 8
    && OklchOpenAt(s, 0)
    && s[|s| - 1] == ')'
    && forall k :: 6 <= k < |s| - 1 ==> s[k] != ')'
  }

  /** The `n` characters at `i` are an oklch literal. */
  predicate IsOklchMatchAt(text: string, i: nat, n: nat) {
    i + n <= |text| && IsOklchLiteral(text[i..i + n])
  }

  /** The first `)` at or after `k`, or the end of the text. */
  function FirstClose(text: string, k: nat): (j: nat)
    requires k <= |text|
    ensures k <= j <= |text|
    ensures j < |text| ==> text[j] == ')'
    ensures forall m :: k <= m < j ==> text[m] != ')'
    decreases |text| - k
  {
    if k == |text| || text[k] == ')' then k else FirstClose(text, k + 1)
  }

  /**
    `/oklch\(([^)]+)\)/i` tried at position `i`: the length of the match.
    The greedy body stops at the first `)`, which closes the literal; without
    a `)`, or with an empty body, there is no match here.
  */
  function OklchLiteralAt(text: string, i: nat): (r: Option<nat>)
    requires i <= |text|
    ensures r.Some? ==> i + r.value <= |text|
    ensures r.Some? ==> r.value >= 8 && OklchOpenAt(text, i) && text[i + r.value - 1] == ')' 
  {
    if i + 6 <= |text| && OklchOpenAt(text, i) then
      var j := FirstClose(text, i + 6);
      if i + 6 < j < |text| then Some(j + 1 - i) else None
    else None
  }

  /**
    The oklch pattern matches at `i` with length `n` exactly when an oklch
    literal of that length starts there.
  */
  lemma OklchLiteralAtIff(text: string, i: nat, n: nat)
    requires i <= |text|
    ensures OklchLiteralAt(text, i) == Some(n) <==> IsOklchMatchAt(text, i, n)
  {
    if OklchLiteralAt(text, i) == Some(n) {
      var s := text[i..i + n];
      assert forall k :: 0 <= k < n ==> s[k] == text[i + k];
    }
    if IsOklchMatchAt(text, i, n) {
      var s := text[i..i + n];
      assert forall k :: 0 <= k < n ==> s[k] == text[i + k];
    }
  }

  /** The pattern of `kind` tried at position `i`. */
  function LiteralAt(text: string, i: nat, kind: Kind): (r: Option<nat>)
    requires i <= |text|
    ensures r.Some? ==> 0 < r.value && i + r.value <= |text|
  {
    match kind
    case HexKind => HexLiteralAt(text, i)
    case OklchKind => OklchLiteralAt(text, i)
  }

  // ---------------------------------------------------------------------------
  // Scanning one pattern across the text
  // ---------------------------------------------------------------------------

  /**
    The outcome of trying a pattern at every position of a text: `tab[p]` is
    the length of the match at `p`, which is positive and stays in the text.
  */
  ghost predicate IsMatchTable(tab: seq<Option<nat>>) {
    forall p :: 0 <= p < |tab| && tab[p].Some? ==> 0 < tab[p].value <= |tab| - p
  }

  /** The pattern of `kind` tried at every position of `text` from `i` on. */
  function MatchTableFrom(text: string, kind: Kind, i: nat): (tab: seq<Option<nat>>)
    requires i <= |text|
    ensures |tab| == |text| - i
    decreases |text| - i
  {
    if i == |text| then [] else [LiteralAt(text, i, kind)] + MatchTableFrom(text, kind, i + 1)
  }

  /** Entry `p - i` of the table from `i` is the pattern tried at `p`. */
  lemma {:induction false} MatchTableFromAt(text: string, kind: Kind, i: nat, p: nat)
    requires i <= p < |text|
    ensures MatchTableFrom(text, kind, i)[p - i] == LiteralAt(text, p, kind)
    decreases p - i
  {
    if i < p {
      MatchTableFromAt(text, kind, i + 1, p);
    }
  }

  /** The pattern of `kind` tried at every position of `text`. */
  function MatchTable(text: string, kind: Kind): (tab: seq<Option<nat>>)
    ensures |tab| == |text| && IsMatchTable(tab)
  {
    var tab := MatchTableFrom(text, kind, 0);
    assert IsMatchTable(tab) by {
      forall p | 0 <= p < |tab| && tab[p].Some?
        ensures 0 < tab[p].value <= |tab| - p
      {
        MatchTableFromAt(text, kind, 0, p);
      }
    }
    tab
  }

  /** Entry `p` of the table is the pattern tried at `p`. */
  lemma MatchTableAt(text: string, kind: Kind, p: nat)
    requires p < |text|
    ensures MatchTable(text, kind)[p] == LiteralAt(text, p, kind)
  {
    MatchTableFromAt(text, kind, 0, p);
  }

  /** Spans lie inside a text of length `n` and follow one another without overlapping. */
  ghost predicate OrderedSpans(n: nat, spans: seq<Span>) {
    && (forall k :: 0 <= k < |spans| ==> spans[k].start <= spans[k].end <= n)
    && (forall j, k :: 0 <= j < k < |spans| ==> spans[j].end <= spans[k].start)
  }

  /**
    The spans a global regular expression reports from position `i` on, given
    its match table: after a match the search resumes at its end, otherwise
    one position further.
  */
  function Scan(tab: seq<Option<nat>>, i: nat): (r: seq<Span>)
    requires IsMatchTable(tab) && i <= |tab|
    decreases |tab| - i
  {
    if i == |tab| then []
    else
      match tab[i]
      case Some(n) => [Span(i, i + n)] + Scan(tab, i + n)
      case None => Scan(tab, i + 1)
  }

  /** The reported spans lie at or after `i`, are non-empty and do not overlap. */
  lemma {:induction false} ScanOrdered(tab: seq<Option<nat>>, i: nat)
    requires IsMatchTable(tab) && i <= |tab|
    ensures OrderedSpans(|tab|, Scan(tab, i))
    ensures forall k :: 0 <= k < |Scan(tab, i)| ==> i <= Scan(tab, i)[k].start < Scan(tab, i)[k].end
    decreases |tab| - i
  {
    if i < |tab| {
      match tab[i]
      case Some(n) =>
        ScanOrdered(tab, i + n);
      case None =>
        ScanOrdered(tab, i + 1);
    }
  }

  /** Every reported span is the match found at its start. */
  lemma {:induction false} ScanIsMatch(tab: seq<Option<nat>>, i: nat, k: nat)
    requires IsMatchTable(tab) && i <= |tab| && k < |Scan(tab, i)|
    ensures var sp := Scan(tab, i)[k];
      sp.start < |tab| && tab[sp.start] == Some(sp.end - sp.start)
    decreases |tab| - i
  {
    ScanOrdered(tab, i);
    var r := Scan(tab, i);
    match tab[i]
    case Some(n) =>
      if k > 0 {
        ScanIsMatch(tab, i + n, k - 1);
        assert r[k] == Scan(tab, i + n)[k - 1];
      }
    case None =>
      ScanIsMatch(tab, i + 1, k);
  }

  /** Some span of `spans` contains position `p`. */
  ghost predicate CoversPos(spans: seq<Span>, p: nat) {
    exists k :: 0 <= k < |spans| && spans[k].start <= p < spans[k].end
  }

  /**
    Nothing is skipped: every position from `i` on where the pattern
    matches lies inside a reported span.
  */
  lemma {:induction false} ScanCovers(tab: seq<Option<nat>>, i: nat, p: nat)
    requires IsMatchTable(tab) && i <= p < |tab| && tab[p].Some?
    ensures CoversPos(Scan(tab, i), p)
    decreases |tab| - i
  {
    var r := Scan(tab, i);
    match tab[i]
    case Some(n) =>
      if p < i + n {
        assert r[0] == Span(i, i + n);
      } else {
        ScanCovers(tab, i + n, p);
        var rest := Scan(tab, i + n);
        var k :| 0 <= k < |rest| && rest[k].start <= p < rest[k].end;
        assert r[k + 1] == rest[k];
      }
    case None =>
      if p > i {
        ScanCovers(tab, i + 1, p);
        var rest := Scan(tab, i + 1);
        var k :| 0 <= k < |rest| && rest[k].start <= p < rest[k].end;
        assert r[k] == rest[k];
      }
  }

  /** The spans the pattern of `kind` reports over the text from position `i` on. */
  function Candidates(text: string, kind: Kind, i: nat): (r: seq<Span>)
    requires i <= |text|
    ensures OrderedSpans(|text|, r)
    ensures forall k :: 0 <= k < |r| ==> i <= r[k].start < r[k].end
  {
    ScanOrdered(MatchTable(text, kind), i);
    Scan(MatchTable(text, kind), i)
  }

  /** A hex literal has no `#` after its first character. */
  lemma NoHashInsideHex(text: string, s: nat, n: nat, p: nat)
    requires IsHexMatchAt(text, s, n) && s < p < s + n
    ensures text[p] != '#'
  {
    assert text[s..s + n][1..][p - s - 1] == text[p];
  }

  /** Some span of `spans` starts at `p`. */
  ghost predicate StartsSpan(spans: seq<Span>, p: nat) {
    exists k :: 0 <= k < |spans| && spans[k].start == p
  }

  /** Every hex span starts at a hex match. */
  lemma HexSpanIsMatch(text: string, p: nat)
    requires StartsSpan(Candidates(text, HexKind, 0), p)
    ensures p < |text| && HexLiteralAt(text, p).Some?
  {
    var tab := MatchTable(text, HexKind);
    var k :| 0 <= k < |Scan(tab, 0)| && Scan(tab, 0)[k].start == p;
    ScanIsMatch(tab, 0, k);
    MatchTableAt(text, HexKind, p);
  }

  /** A hex match lies inside a hex span that starts where it does. */
  lemma HexMatchStartsSpan(text: string, p: nat)
    requires p < |text| && HexLiteralAt(text, p).Some?
    ensures StartsSpan(Candidates(text, HexKind, 0), p)
  {
    var tab := MatchTable(text, HexKind);
    var r := Scan(tab, 0);
    assert text[p] == '#';
    MatchTableAt(text, HexKind, p);
    ScanCovers(tab, 0, p);
    var k :| 0 <= k < |r| && r[k].start <= p < r[k].end;
    ScanIsMatch(tab, 0, k);
    var s := r[k].start;
    var n := r[k].end - s;
    MatchTableAt(text, HexKind, s);
    HexLiteralAtIff(text, s, n);
    if s < p {
      NoHashInsideHex(text, s, n, p);
      assert false;
    }
  }

  /** A hex literal never contains another `#`, so the hex spans start exactly at the hex matches. */
  lemma HexCandidateStarts(text: string, p: nat)
    requires p < |text|
    ensures StartsSpan(Candidates(text, HexKind, 0), p) <==> HexLiteralAt(text, p).Some?
  {
    if StartsSpan(Candidates(text, HexKind, 0), p) {
      HexSpanIsMatch(text, p);
    }
    if HexLiteralAt(text, p).Some? {
      HexMatchStartsSpan(text, p);
    }
  }

  /** A match of `kind` decoded from the text it spans. */
  ghost predicate IsDecodedMatch(text: string, m: Match, kind: Kind, decode: Decoder) {
    && m.kind == kind
    && m.start <= m.end <= |text|
    && m.raw == text[m.start..m.end]
    && decode(m.raw) == Some(m.l)
  }

  /** Matches follow one another without overlapping. */
  ghost predicate OrderedMatches(ms: seq<Match>) {
    forall j, k :: 0 <= j < k < |ms| ==> ms[j].end <= ms[k].start
  }

  /** Some match of `ms` has exactly the span `sp`. */
  ghost predicate HasMatchWithSpan(ms: seq<Match>, sp: Span) {
    exists j :: 0 <= j < |ms| && ms[j].start == sp.start && ms[j].end == sp.end
  }

  /**
    Scanning and decoding, as one loop of `findColorMatches` does them: the
    matches decoded from the spans the table yields from position `i` on, in
    order; spans whose text does not decode are dropped.
  */
  function ScanDecode(text: string, tab: seq<Option<nat>>, i: nat, kind: Kind, decode: Decoder): (r: seq<Match>)
    requires IsMatchTable(tab) && |tab| == |text| && i <= |tab|
    decreases |tab| - i
  {
    if i == |tab| then []
    else
      match tab[i]
      case None => ScanDecode(text, tab, i + 1, kind, decode)
      case Some(n) =>
        var raw := text[i..i + n];
        match decode(raw)
        case Some(l) => [Match(i, i + n, raw, kind, l)] + ScanDecode(text, tab, i + n, kind, decode)
        case None => ScanDecode(text, tab, i + n, kind, decode)
  }

  /** Concatenation is associative. */
  lemma AppendAssoc<T>(a: seq<T>, b: seq<T>, c: seq<T>)
    ensures a + (b + c) == (a + b) + c
  {
  }

  /** The scan reports the match at `i` and resumes after it. */
  lemma ScanAtHit(tab: seq<Option<nat>>, i: nat)
    requires IsMatchTable(tab) && i < |tab| && tab[i].Some?
    ensures Scan(tab, i) == [Span(i, i + tab[i].value)] + Scan(tab, i + tab[i].value)
  {
  }

  /** Without a match at `i` the scan moves one position on. */
  lemma ScanAtMiss(tab: seq<Option<nat>>, i: nat)
    requires IsMatchTable(tab) && i < |tab| && tab[i].None?
    ensures Scan(tab, i) == Scan(tab, i + 1)
  {
  }

  /** A match at `i` whose text decodes is pushed, and the loop resumes after it. */
  lemma ScanDecodeAtHit(text: string, tab: seq<Option<nat>>, i: nat, kind: Kind, decode: Decoder)
    requires IsMatchTable(tab) && |tab| == |text| && i < |tab| && tab[i].Some?
    requires decode(text[i..i + tab[i].value]).Some?
    ensures var n := tab[i].value; var raw := text[i..i + n];
      ScanDecode(text, tab, i, kind, decode)
        == [Match(i, i + n, raw, kind, decode(raw).value)] + ScanDecode(text, tab, i + n, kind, decode)
  {
  }

  /** A match at `i` whose text does not decode is dropped, and the loop resumes after it. */
  lemma ScanDecodeAtSkip(text: string, tab: seq<Option<nat>>, i: nat, kind: Kind, decode: Decoder)
    requires IsMatchTable(tab) && |tab| == |text| && i < |tab| && tab[i].Some?
    requires decode(text[i..i + tab[i].value]).None?
    ensures ScanDecode(text, tab, i, kind, decode) == ScanDecode(text, tab, i + tab[i].value, kind, decode)
  {
  }

  /** Without a match at `i` the loop moves one position on. */
  lemma ScanDecodeAtMiss(text: string, tab: seq<Option<nat>>, i: nat, kind: Kind, decode: Decoder)
    requires IsMatchTable(tab) && |tab| == |text| && i < |tab| && tab[i].None?
    ensures ScanDecode(text, tab, i, kind, decode) == ScanDecode(text, tab, i + 1, kind, decode)
  {
  }

  /** Every decoded match is decoded from the text it spans. */
  lemma {:induction false} ScanDecodeSound(text: string, tab: seq<Option<nat>>, i: nat, kind: Kind, decode: Decoder, j: nat)
    requires IsMatchTable(tab) && |tab| == |text| && i <= |tab|
    requires j < |ScanDecode(text, tab, i, kind, decode)|
    ensures IsDecodedMatch(text, ScanDecode(text, tab, i, kind, decode)[j], kind, decode)
    decreases |tab| - i
  {
    var r := ScanDecode(text, tab, i, kind, decode);
    assert i < |tab|;
    if tab[i].Some? {
      var n := tab[i].value;
      var raw := text[i..i + n];
      var rest := ScanDecode(text, tab, i + n, kind, decode);
      if decode(raw).Some? {
        ScanDecodeAtHit(text, tab, i, kind, decode);
        if j > 0 {
          ScanDecodeSound(text, tab, i + n, kind, decode, j - 1);
          assert r[j] == rest[j - 1];
        }
      } else {
        ScanDecodeAtSkip(text, tab, i, kind, decode);
        ScanDecodeSound(text, tab, i + n, kind, decode, j);
      }
    } else {
      ScanDecodeAtMiss(text, tab, i, kind, decode);
      ScanDecodeSound(text, tab, i + 1, kind, decode, j);
    }
  }

  /** Every decoded match has the span of one the scan reports: the `k`-th. */
  lemma {:induction false} ScanDecodeSpans(text: string, tab: seq<Option<nat>>, i: nat, kind: Kind, decode: Decoder, j: nat)
    returns (k: nat)
    requires IsMatchTable(tab) && |tab| == |text| && i <= |tab|
    requires j < |ScanDecode(text, tab, i, kind, decode)|
    ensures var m := ScanDecode(text, tab, i, kind, decode)[j];
      k < |Scan(tab, i)| && Scan(tab, i)[k] == Span(m.start, m.end)
    decreases |tab| - i, 1
  {
    assert i < |tab|;
    if tab[i].None? {
      ScanAtMiss(tab, i);
      ScanDecodeAtMiss(text, tab, i, kind, decode);
      k := ScanDecodeSpans(text, tab, i + 1, kind, decode, j);
    } else if decode(text[i..i + tab[i].value]).Some? {
      k := ScanDecodeSpansAtHit(text, tab, i, kind, decode, j);
    } else {
      k := ScanDecodeSpansAtSkip(text, tab, i, kind, decode, j);
    }
  }

  /** `ScanDecodeSpans` where the match at `i` decodes and is pushed. */
  lemma {:induction false} ScanDecodeSpansAtHit(text: string, tab: seq<Option<nat>>, i: nat, kind: Kind, decode: Decoder, j: nat)
    returns (k: nat)
    requires IsMatchTable(tab) && |tab| == |text| && i < |tab| && tab[i].Some?
    requires decode(text[i..i + tab[i].value]).Some?
    requires j < |ScanDecode(text, tab, i, kind, decode)|
    ensures var m := ScanDecode(text, tab, i, kind, decode)[j];
      k < |Scan(tab, i)| && Scan(tab, i)[k] == Span(m.start, m.end)
    decreases |tab| - i, 0
  {
    var n := tab[i].value;
    ScanAtHit(tab, i);
    ScanDecodeAtHit(text, tab, i, kind, decode);
    if j == 0 {
      k := 0;
    } else {
      assert ScanDecode(text, tab, i, kind, decode)[j] == ScanDecode(text, tab, i + n, kind, decode)[j - 1];
      var k' := ScanDecodeSpans(text, tab, i + n, kind, decode, j - 1);
      k := k' + 1;
      assert Scan(tab, i)[k] == Scan(tab, i + n)[k'];
    }
  }

  /** `ScanDecodeSpans` where the match at `i` does not decode and is dropped. */
  lemma {:induction false} ScanDecodeSpansAtSkip(text: string, tab: seq<Option<nat>>, i: nat, kind: Kind, decode: Decoder, j: nat)
    returns (k: nat)
    requires IsMatchTable(tab) && |tab| == |text| && i < |tab| && tab[i].Some?
    requires decode(text[i..i + tab[i].value]).None?
    requires j < |ScanDecode(text, tab, i, kind, decode)|
    ensures var m := ScanDecode(text, tab, i, kind, decode)[j];
      k < |Scan(tab, i)| && Scan(tab, i)[k] == Span(m.start, m.end)
    decreases |tab| - i, 0
  {
    var n := tab[i].value;
    ScanAtHit(tab, i);
    ScanDecodeAtSkip(text, tab, i, kind, decode);
    var k' := ScanDecodeSpans(text, tab, i + n, kind, decode, j);
    k := k' + 1;
    assert Scan(tab, i)[k] == Scan(tab, i + n)[k'];
  }

  /** Every scanned span whose text decodes yields a match with that span: the `j`-th. */
  lemma {:induction false} ScanDecodeKeeps(text: string, tab: seq<Option<nat>>, i: nat, kind: Kind, decode: Decoder, k: nat)
    returns (j: nat)
    requires IsMatchTable(tab) && |tab| == |text| && i <= |tab|
    requires k < |Scan(tab, i)|
    requires var sp := Scan(tab, i)[k];
      sp.start <= sp.end <= |text| && decode(text[sp.start..sp.end]).Some?
    ensures var r := ScanDecode(text, tab, i, kind, decode);
      j < |r| && r[j].start == Scan(tab, i)[k].start && r[j].end == Scan(tab, i)[k].end
    decreases |tab| - i, 1
  {
    assert i < |tab|;
    if tab[i].None? {
      ScanAtMiss(tab, i);
      ScanDecodeAtMiss(text, tab, i, kind, decode);
      j := ScanDecodeKeeps(text, tab, i + 1, kind, decode, k);
    } else if decode(text[i..i + tab[i].value]).Some? {
      j := ScanDecodeKeepsAtHit(text, tab, i, kind, decode, k);
    } else {
      j := ScanDecodeKeepsAtSkip(text, tab, i, kind, decode, k);
    }
  }

  /** `ScanDecodeKeeps` where the match at `i` decodes and is pushed. */
  lemma {:induction false} ScanDecodeKeepsAtHit(text: string, tab: seq<Option<nat>>, i: nat, kind: Kind, decode: Decoder, k: nat)
    returns (j: nat)
    requires IsMatchTable(tab) && |tab| == |text| && i < |tab| && tab[i].Some?
    requires decode(text[i..i + tab[i].value]).Some?
    requires k < |Scan(tab, i)|
    requires var sp := Scan(tab, i)[k];
      sp.start <= sp.end <= |text| && decode(text[sp.start..sp.end]).Some?
    ensures var r := ScanDecode(text, tab, i, kind, decode);
      j < |r| && r[j].start == Scan(tab, i)[k].start && r[j].end == Scan(tab, i)[k].end
    decreases |tab| - i, 0
  {
    var n := tab[i].value;
    ScanAtHit(tab, i);
    ScanDecodeAtHit(text, tab, i, kind, decode);
    if k == 0 {
      j := 0;
    } else {
      assert Scan(tab, i)[k] == Scan(tab, i + n)[k - 1];
      var j' := ScanDecodeKeeps(text, tab, i + n, kind, decode, k - 1);
      j := j' + 1;
      assert ScanDecode(text, tab, i, kind, decode)[j] == ScanDecode(text, tab, i + n, kind, decode)[j'];
    }
  }

  /** `ScanDecodeKeeps` where the match at `i` does not decode and is dropped. */
  lemma {:induction false} ScanDecodeKeepsAtSkip(text: string, tab: seq<Option<nat>>, i: nat, kind: Kind, decode: Decoder, k: nat)
    returns (j: nat)
    requires IsMatchTable(tab) && |tab| == |text| && i < |tab| && tab[i].Some?
    requires decode(text[i..i + tab[i].value]).None?
    requires k < |Scan(tab, i)|
    requires var sp := Scan(tab, i)[k];
      sp.start <= sp.end <= |text| && decode(text[sp.start..sp.end]).Some?
    ensures var r := ScanDecode(text, tab, i, kind, decode);
      j < |r| && r[j].start == Scan(tab, i)[k].start && r[j].end == Scan(tab, i)[k].end
    decreases |tab| - i, 0
  {
    var n := tab[i].value;
    ScanAtHit(tab, i);
    ScanDecodeAtSkip(text, tab, i, kind, decode);
    assert k > 0;
    assert Scan(tab, i)[k] == Scan(tab, i + n)[k - 1];
    j := ScanDecodeKeeps(text, tab, i + n, kind, decode, k - 1);
  }

  /** Every match of `ms` starts at or after `p`. */
  ghost predicate StartsFrom(ms: seq<Match>, p: nat) {
    forall j :: 0 <= j < |ms| ==> p <= ms[j].start
  }

  /** A match that ends before the rest starts can be put in front of them. */
  lemma ConsOrdered(m: Match, rest: seq<Match>, p: nat)
    requires OrderedMatches(rest) && StartsFrom(rest, p) && m.start <= m.end <= p
    ensures OrderedMatches([m] + rest) && StartsFrom([m] + rest, m.start)
  {
    var r := [m] + rest;
    forall a, b | 0 <= a < b < |r|
      ensures r[a].end <= r[b].start
    {
      assert r[b] == rest[b - 1];
      if a > 0 {
        assert r[a] == rest[a - 1];
      }
    }
    forall j | 0 <= j < |r|
      ensures m.start <= r[j].start
    {
      if j > 0 {
        assert r[j] == rest[j - 1];
      }
    }
  }

  /** The decoded matches start at or after `i` and follow one another without overlapping. */
  lemma {:induction false} ScanDecodeOrdered(text: string, tab: seq<Option<nat>>, i: nat, kind: Kind, decode: Decoder)
    requires IsMatchTable(tab) && |tab| == |text| && i <= |tab|
    ensures OrderedMatches(ScanDecode(text, tab, i, kind, decode))
    ensures StartsFrom(ScanDecode(text, tab, i, kind, decode), i)
    decreases |tab| - i
  {
    if i < |tab| {
      if tab[i].Some? {
        var n := tab[i].value;
        var raw := text[i..i + n];
        ScanDecodeOrdered(text, tab, i + n, kind, decode);
        if decode(raw).Some? {
          ScanDecodeAtHit(text, tab, i, kind, decode);
          ConsOrdered(Match(i, i + n, raw, kind, decode(raw).value), ScanDecode(text, tab, i + n, kind, decode), i + n);
        } else {
          ScanDecodeAtSkip(text, tab, i, kind, decode);
        }
      } else {
        ScanDecodeAtMiss(text, tab, i, kind, decode);
        ScanDecodeOrdered(text, tab, i + 1, kind, decode);
      }
    }
  }

  /** The decoded matches of one pattern over the whole text, in text order. */
  function KindMatches(text: string, kind: Kind, decode: Decoder): (r: seq<Match>)
    ensures OrderedMatches(r)
  {
    ScanDecodeOrdered(text, MatchTable(text, kind), 0, kind, decode);
    ScanDecode(text, MatchTable(text, kind), 0, kind, decode)
  }

  /**
    The matches of one pattern are exactly the spans it reports whose text
    decodes: each match is such a span, decoded, and each such span is a match.
  */
  lemma KindMatchesExact(text: string, kind: Kind, decode: Decoder)
    ensures var r := KindMatches(text, kind, decode);
      forall j :: 0 <= j < |r| ==>
        IsDecodedMatch(text, r[j], kind, decode) && Span(r[j].start, r[j].end) in Candidates(text, kind, 0)
    ensures var r := KindMatches(text, kind, decode);
      var c := Candidates(text, kind, 0);
      forall k :: 0 <= k < |c| && decode(text[c[k].start..c[k].end]).Some? ==> HasMatchWithSpan(r, c[k])
  {
    var tab := MatchTable(text, kind);
    var c := Candidates(text, kind, 0);
    var r := KindMatches(text, kind, decode);
    forall j | 0 <= j < |r|
      ensures IsDecodedMatch(text, r[j], kind, decode) && Span(r[j].start, r[j].end) in c
    {
      ScanDecodeSound(text, tab, 0, kind, decode, j);
      var k := ScanDecodeSpans(text, tab, 0, kind, decode, j);
    }
    forall k | 0 <= k < |c| && decode(text[c[k].start..c[k].end]).Some?
      ensures HasMatchWithSpan(r, c[k])
    {
      var j := ScanDecodeKeeps(text, tab, 0, kind, decode, k);
    }
  }

  /**
    One attempt of the pattern of `kind` at position `i`: it reports length
    `n` exactly when a literal of that kind and length starts there (the
    entry of the match table at `i`).
  */
  method TryPatternAt(text: string, i: nat, kind: Kind) returns (r: Option<nat>)
    requires i < |text|
    ensures forall n: nat :: r == Some(n) <==>
      (if kind == HexKind then IsHexMatchAt(text, i, n) else IsOklchMatchAt(text, i, n))
    ensures r == MatchTable(text, kind)[i]
  {
    r := LiteralAt(text, i, kind);
    MatchTableAt(text, kind, i);
    forall n: nat
      ensures r == Some(n) <==> (if kind == HexKind then IsHexMatchAt(text, i, n) else IsOklchMatchAt(text, i, n))
    {
      HexLiteralAtIff(text, i, n);
      OklchLiteralAtIff(text, i, n);
    }
  }

  /** A pushed match: the matches found so far and those still to come are unchanged in total. */
  lemma PushKeepsAll(text: string, tab: seq<Option<nat>>, i: nat, n: nat, kind: Kind, decode: Decoder, out: seq<Match>, l: real)
    requires IsMatchTable(tab) && |tab| == |text| && i < |tab| && tab[i] == Some(n)
    requires decode(text[i..i + n]) == Some(l)
    ensures out + ScanDecode(text, tab, i, kind, decode)
         == (out + [Match(i, i + n, text[i..i + n], kind, l)]) + ScanDecode(text, tab, i + n, kind, decode)
  {
    ScanDecodeAtHit(text, tab, i, kind, decode);
    AppendAssoc(out, [Match(i, i + n, text[i..i + n], kind, l)], ScanDecode(text, tab, i + n, kind, decode));
  }

  /** A dropped match: the matches still to come are those after it. */
  lemma DropKeepsAll(text: string, tab: seq<Option<nat>>, i: nat, n: nat, kind: Kind, decode: Decoder)
    requires IsMatchTable(tab) && |tab| == |text| && i < |tab| && tab[i] == Some(n)
    requires decode(text[i..i + n]).None?
    ensures ScanDecode(text, tab, i, kind, decode) == ScanDecode(text, tab, i + n, kind, decode)
  {
    ScanDecodeAtSkip(text, tab, i, kind, decode);
  }

  /**
    One `while ((m = RE.exec(text)))` loop of `findColorMatches`: the
    pattern is tried position by position, each match is decoded and pushed
    when it decodes, and the search resumes after the match.
  */
  method ScanKind(text: string, kind: Kind, decode: Decoder) returns (out: seq<Match>)
    ensures out == KindMatches(text, kind, decode)
  {
    ghost var tab := MatchTable(text, kind);
    ghost var all := ScanDecode(text, tab, 0, kind, decode);
    out := [];
    var i := 0;
    while i < |text|
      invariant i <= |text|
      invariant all == out + ScanDecode(text, tab, i, kind, decode)
      decreases |text| - i
    {
      var lit := TryPatternAt(text, i, kind);
      if lit.Some? {
        var n := lit.value;
        var raw := text[i..i + n];
        var d := decode(raw);
        if d.Some? {
          PushKeepsAll(text, tab, i, n, kind, decode, out, d.value);
          out := out + [Match(i, i + n, raw, kind, d.value)];
        } else {
          DropKeepsAll(text, tab, i, n, kind, decode);
        }
        i := i + n;
      } else {
        ScanDecodeAtMiss(text, tab, i, kind, decode);
        i := i + 1;
      }
    }
  }
}
