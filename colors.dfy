/**
  Palette generation (src/lib/colors.ts).

  One seed colour in the OKLCH space gives a fixed-shape palette: a
  25-stop lightness ramp that shares the seed's clamped chroma and
  normalised hue, plus error, warning and success accents with fixed hues,
  each as a light (tier 70) and a dark (tier 30) variant.

  The two interchange projections of a colour (a hex string and a CSS
  `oklch(...)` string) come from a colour library and are taken as a
  parameter: any pair of total functions of the OKLCH value.
*/
module Colors {

  /** A colour in the OKLCH space: lightness, chroma, hue in degrees. */
  datatype Oklch = Oklch(l: real, c: real, h: real)

  /** A palette entry: an identifier, its OKLCH value and both projections. */
  datatype NamedColor = NamedColor(name: string, oklch: Oklch, hex: string, css: string)

  /** A semantic role's pair of variants. */
  datatype Accent = Accent(light: NamedColor, dark: NamedColor)

  /** The generated palette: the ramp (`base-98` down to `base-02`) and the three roles. */
  datatype Scheme = Scheme(base: seq<NamedColor>, error: Accent, warning: Accent, success: Accent)

  /** The colour library's projections (`formatHex` after `toRgb`, and `formatCss`). */
  datatype Projection = Projection(hex: Oklch -> string, css: Oklch -> string)

  /** Fixed accent hues in degrees (`H_RED`, `H_YELLOW`, `H_GREEN`). */
  const HueRed: real := 29.0
  const HueYellow: real := 109.0
  const HueGreen: real := 142.0

  /** Chroma bounds applied to the seed. */
  const MinChroma: real := 0.03
  const MaxChroma: real := 0.25

  // ---------------------------------------------------------------------------
  // Chroma clamp and hue normalisation
  // ---------------------------------------------------------------------------

  function Max(a: real, b: real): real { if a < b then b else a }
  function Min(a: real, b: real): real { if a < b then a else b }

  /** `Math.max(0.03, Math.min(c, 0.25))`: the nearest value of [0.03, 0.25]. */
  function ClampChroma(c: real): (r: real)
    ensures MinChroma <= r <= MaxChroma
    ensures MinChroma <= c <= MaxChroma ==> r == c
    ensures c < MinChroma ==> r == MinChroma
    ensures c > MaxChroma ==> r == MaxChroma
  {
    Max(MinChroma, Min(c, MaxChroma))
  }

  /** `Math.trunc`: rounds toward zero. */
  function Trunc(x: real): int {
    if x >= 0.0 then x.Floor else -((-x).Floor)
  }

  /** `k` whole turns of the hue circle. */
  function Turns(k: int): real { 360.0 * k as real }

  /** Two hues name the same angle: they differ by whole turns. */
  ghost predicate SameAngle(a: real, b: real) {
    exists k: int :: a - b == Turns(k)
  }

  /**
    JavaScript's `x % 360`: the remainder truncates toward zero, so it keeps
    the sign of `x` and lies strictly between -360 and 360.
  */
  function Rem360(x: real): (r: real)
    ensures -360.0 < r < 360.0
    ensures x >= 0.0 ==> r >= 0.0
    ensures x <= 0.0 ==> r <= 0.0
    ensures SameAngle(x, r)
  {
    var r := x - Turns(Trunc(x / 360.0));
    assert x - r == Turns(Trunc(x / 360.0));
    r
  }

  /** `((h % 360) + 360) % 360`: the angle of `h` in [0, 360). */
  function NormalizeHue(h: real): (r: real)
    ensures 0.0 <= r < 360.0
    ensures SameAngle(h, r)
    ensures 0.0 <= h < 360.0 ==> r == h
  {
    var a := Rem360(h);
    var r := Rem360(a + 360.0);
    var k1: int :| h - a == Turns(k1);
    var k2: int :| a + 360.0 - r == Turns(k2);
    assert h - r == Turns(k1 + k2 - 1);
    r
  }

  /** Hues that name the same angle normalise to the same value. */
  lemma NormalizeHueOfSameAngle(h1: real, h2: real)
    requires SameAngle(h1, h2)
    ensures NormalizeHue(h1) == NormalizeHue(h2)
  {
    var r1, r2 := NormalizeHue(h1), NormalizeHue(h2);
    var k: int :| h1 - h2 == Turns(k);
    var k1: int :| h1 - r1 == Turns(k1);
    var k2: int :| h2 - r2 == Turns(k2);
    assert r1 - r2 == Turns(k + k2 - k1);
    assert k + k2 - k1 == 0;
  }

  // ---------------------------------------------------------------------------
  // The lightness ramp
  // ---------------------------------------------------------------------------

  /** `Array.from({ length: 25 }, (_, i) => 98 - i * 4)`. */
  function RampTiers(): seq<int> {
    seq(25, i => 98 - i * 4)
  }

  /** `filter((L) => L >= lo)`: the entries at least `lo`, in order. */
  function KeepAtLeast(s: seq<int>, lo: int): (r: seq<int>)
    ensures forall x :: x in r ==> x in s && x >= lo
  {
    if s == [] then []
    else if s[0] >= lo then [s[0]] + KeepAtLeast(s[1..], lo)
    else KeepAtLeast(s[1..], lo)
  }

  /** The filter keeps only entries at least `lo`, and never lengthens the sequence. */
  lemma {:induction false} KeepAtLeastBound(s: seq<int>, lo: int)
    ensures |KeepAtLeast(s, lo)| <= |s|
    ensures forall i :: 0 <= i < |KeepAtLeast(s, lo)| ==> KeepAtLeast(s, lo)[i] >= lo
  {
    if s != [] {
      KeepAtLeastBound(s[1..], lo);
      if s[0] >= lo {
        var r := KeepAtLeast(s, lo);
        assert forall i :: 1 <= i < |r| ==> r[i] == KeepAtLeast(s[1..], lo)[i - 1];
      }
    }
  }

  /** A filter whose test every entry passes removes nothing. */
  lemma {:induction false} KeepAtLeastKeepsAll(s: seq<int>, lo: int)
    requires forall i :: 0 <= i < |s| ==> s[i] >= lo
    ensures KeepAtLeast(s, lo) == s
  {
    if s != [] {
      KeepAtLeastKeepsAll(s[1..], lo);
    }
  }

  /** `LIGHTNESS_STOPS`: the lightness tiers of the ramp, on a 0-100 scale. */
  function LightnessStops(): (r: seq<nat>)
    ensures forall i :: 0 <= i < |r| ==> r[i] >= 2
  {
    var s := KeepAtLeast(RampTiers(), 2);
    KeepAtLeastBound(RampTiers(), 2);
    seq(|s|, i requires 0 <= i < |s| => s[i] as nat)
  }

  /**
    The ramp has exactly 25 stops, 98, 94, ..., 2: strictly decreasing by 4,
    all at least 2, ending at 2, so the filter removes nothing.
  */
  lemma LightnessStopsShape()
    ensures |LightnessStops()| == 25
    ensures forall i :: 0 <= i < 25 ==> LightnessStops()[i] == 98 - 4 * i
    ensures forall i, j :: 0 <= i < j < 25 ==> LightnessStops()[i] > LightnessStops()[j]
    ensures LightnessStops()[0] == 98 && LightnessStops()[24] == 2
  {
    KeepAtLeastKeepsAll(RampTiers(), 2);
  }

  /** Stop `i` of the ramp is tier `98 - 4i`. */
  lemma LightnessStopAt(i: nat)
    requires i < 25
    ensures |LightnessStops()| == 25 && LightnessStops()[i] == 98 - 4 * i
  {
    LightnessStopsShape();
  }

  // ---------------------------------------------------------------------------
  // Entry names
  // ---------------------------------------------------------------------------

  /** The ASCII digit for `d`. */
  function Digit(d: nat): (c: char)
    requires d < 10
    ensures '0' <= c <= '9'
  {
    ('0' as int + d) as char
  }

  /** `String(n)` for a non-negative integer: its decimal digits, most significant first. */
  function DecimalString(n: nat): string {
    if n < 10 then [Digit(n)] else DecimalString(n / 10) + [Digit(n % 10)]
  }

  /** The decimal string is a non-empty run of digits. */
  lemma {:induction false} DecimalStringDigits(n: nat)
    ensures |DecimalString(n)| >= 1
    ensures forall i :: 0 <= i < |DecimalString(n)| ==> '0' <= DecimalString(n)[i] <= '9'
  {
    if n >= 10 {
      DecimalStringDigits(n / 10);
    }
  }

  /** `s.padStart(width, fill)` with a one-character fill. */
  function PadStart(s: string, width: nat, fill: char): string
    decreases width - |s|
  {
    if |s| >= width then s else PadStart([fill] + s, width, fill)
  }

  /** The padded string is `s` behind enough fill characters to reach `width`, and no longer. */
  lemma {:induction false} PadStartShape(s: string, width: nat, fill: char)
    ensures var r := PadStart(s, width, fill);
      && |r| == (if |s| < width then width else |s|)
      && r[|r| - |s|..] == s
      && forall i :: 0 <= i < |r| - |s| ==> r[i] == fill
    decreases width - |s|
  {
    if |s| < width {
      PadStartShape([fill] + s, width, fill);
      var r := PadStart(s, width, fill);
      assert r[|r| - |s| - 1..] == [fill] + s;
      assert r[|r| - |s|..] == ([fill] + s)[1..];
    }
  }

  /** The name of the ramp stop at tier `tier`: `base-${String(tier).padStart(2, '0')}`. */
  function TierName(tier: nat): string {
    "base-" + PadStart(DecimalString(tier), 2, '0')
  }

  /** A tier below 100 is named by exactly two digits, e.g. `base-02` and `base-98`. */
  lemma TierNameDigits(tier: nat)
    requires tier < 100
    ensures TierName(tier) == "base-" + [Digit(tier / 10), Digit(tier % 10)]
  {
    if tier >= 10 {
      assert DecimalString(tier / 10) == [Digit(tier / 10)];
      assert DecimalString(tier) == [Digit(tier / 10), Digit(tier % 10)];
    } else {
      assert DecimalString(tier) == [Digit(tier)];
      assert PadStart([Digit(tier)], 2, '0') == PadStart(['0', Digit(tier)], 2, '0');
    }
  }

  /** Different tiers below 100 get different names. */
  lemma TierNameInjective(t1: nat, t2: nat)
    requires t1 < 100 && t2 < 100 && t1 != t2
    ensures TierName(t1) != TierName(t2)
  {
    TierNameDigits(t1);
    TierNameDigits(t2);
    if t1 / 10 == t2 / 10 {
      assert t1 % 10 != t2 % 10;
      assert TierName(t1)[6] != TierName(t2)[6];
    } else {
      assert TierName(t1)[5] != TierName(t2)[5];
    }
  }

  /**
    Any tier, below 100 or not, is named `base-` followed by a run of at
    least two decimal digits.
  */
  lemma TierNameAllDigits(tier: nat)
    ensures |TierName(tier)| >= 7 && TierName(tier)[..5] == "base-"
    ensures forall i :: 5 <= i < |TierName(tier)| ==> '0' <= TierName(tier)[i] <= '9'
  {
    var s := DecimalString(tier);
    var r := PadStart(s, 2, '0');
    DecimalStringDigits(tier);
    PadStartShape(s, 2, '0');
    forall i | 0 <= i < |r|
      ensures '0' <= r[i] <= '9'
    {
      if i >= |r| - |s| {
        assert r[i] == r[|r| - |s|..][i - (|r| - |s|)];
      }
    }
    assert TierName(tier) == "base-" + r;
    assert forall i :: 5 <= i < |TierName(tier)| ==> TierName(tier)[i] == r[i - 5];
  }

  /** A ramp name starts with `b`, which no accent name does. */
  lemma TierNameStartsWithB(tier: nat)
    ensures |TierName(tier)| > 0 && TierName(tier)[0] == 'b'
  {
    TierNameAllDigits(tier);
    assert TierName(tier)[0] == TierName(tier)[..5][0];
  }

  // ---------------------------------------------------------------------------
  // Building entries and the scheme
  // ---------------------------------------------------------------------------

  /** `makeOklch`: a tier on the 0-100 scale becomes a lightness in [0, 1]. */
  function MakeOklch(tier: int, c: real, h: real): (o: Oklch)
    ensures o.l * 100.0 == tier as real && o.c == c && o.h == h
  {
    Oklch(tier as real / 100.0, c, h)
  }

  /**
    `oklchToNamed`: the entry keeps the given name and colour; both
    projections are computed from that colour alone.
  */
  function OklchToNamed(name: string, o: Oklch, proj: Projection): (n: NamedColor)
    ensures n.name == name && n.oklch == o
    ensures n.hex == proj.hex(o) && n.css == proj.css(o)
  {
    NamedColor(name, o, proj.hex(o), proj.css(o))
  }

  /** The light (tier 70) and dark (tier 30) variants of one role. */
  function MakeAccent(lightName: string, darkName: string, hue: real, c: real, proj: Projection): Accent {
    Accent(OklchToNamed(lightName, MakeOklch(70, c, hue), proj),
           OklchToNamed(darkName, MakeOklch(30, c, hue), proj))
  }

  /** `generateScheme`. */
  function GenerateScheme(seed: Oklch, proj: Projection): (s: Scheme)
    ensures |s.base| == |LightnessStops()|
    ensures forall i :: 0 <= i < |s.base| ==>
      MinChroma <= s.base[i].oklch.c <= MaxChroma && 0.0 <= s.base[i].oklch.h < 360.0
  {
    var C := ClampChroma(seed.c);
    var H := NormalizeHue(seed.h);
    var stops := LightnessStops();
    Scheme(
      seq(|stops|, i requires 0 <= i < |stops| => OklchToNamed(TierName(stops[i]), MakeOklch(stops[i], C, H), proj)),
      MakeAccent("error-70", "error-30", HueRed, C, proj),
      MakeAccent("warning-70", "warning-30", HueYellow, C, proj),
      MakeAccent("success-70", "success-30", HueGreen, C, proj))
  }

  /** `allSchemeColors`: the candidates for nearest-match, in tie-breaking order. */
  function AllSchemeColors(s: Scheme): (p: seq<NamedColor>)
    ensures |p| == |s.base| + 6
    ensures p[..|s.base|] == s.base
  {
    s.base + [s.error.light, s.error.dark, s.warning.light, s.warning.dark, s.success.light, s.success.dark]
  }

  // ---------------------------------------------------------------------------
  // Properties of the generated scheme
  // ---------------------------------------------------------------------------

  /**
    Ramp entry `i` sits at tier 98 - 4i: lightness (98 - 4i)/100, the
    clamped seed chroma, the normalised seed hue, and the name `base-NN`.
  */
  lemma SchemeBaseEntries(seed: Oklch, proj: Projection)
    ensures var s := GenerateScheme(seed, proj);
      && |s.base| == 25
      && forall i :: 0 <= i < 25 ==>
           var o := Oklch((98 - 4 * i) as real / 100.0, ClampChroma(seed.c), NormalizeHue(seed.h));
           s.base[i] == NamedColor(TierName(98 - 4 * i), o, proj.hex(o), proj.css(o))
  {
    var s := GenerateScheme(seed, proj);
    var C, H := ClampChroma(seed.c), NormalizeHue(seed.h);
    LightnessStopAt(0);
    forall i | 0 <= i < 25
      ensures var o := Oklch((98 - 4 * i) as real / 100.0, ClampChroma(seed.c), NormalizeHue(seed.h));
        s.base[i] == NamedColor(TierName(98 - 4 * i), o, proj.hex(o), proj.css(o))
    {
      LightnessStopAt(i);
      var t := LightnessStops()[i];
      assert s.base[i] == OklchToNamed(TierName(t), MakeOklch(t, C, H), proj);
      assert MakeOklch(t, C, H) == Oklch((98 - 4 * i) as real / 100.0, C, H);
    }
  }

  /** A 25-entry ramp laid out at tiers 98 - 4i with one chroma and one hue. */
  ghost predicate IsRamp(b: seq<NamedColor>, c: real, h: real) {
    |b| == 25 && forall i :: 0 <= i < 25 ==> b[i].oklch == Oklch((98 - 4 * i) as real / 100.0, c, h)
  }

  /** A ramp goes from 0.98 down to 0.02 in steps of exactly 0.04. */
  lemma RampIsStrictlyDecreasing(b: seq<NamedColor>, c: real, h: real)
    requires IsRamp(b, c, h)
    ensures b[0].oklch.l == 0.98 && b[24].oklch.l == 0.02
    ensures forall i :: 0 <= i < 24 ==> b[i].oklch.l - b[i + 1].oklch.l == 0.04
    ensures forall i, j :: 0 <= i < j < 25 ==> b[i].oklch.l > b[j].oklch.l
  {
    forall i, j | 0 <= i < j < 25
      ensures b[i].oklch.l > b[j].oklch.l
    {
      assert (98 - 4 * i) > (98 - 4 * j);
    }
  }

  /**
    The ramp is strictly decreasing in lightness, in steps of exactly 0.04,
    from 0.98 down to 0.02, and every entry shares one chroma and one hue.
  */
  lemma SchemeRampMonotone(seed: Oklch, proj: Projection)
    ensures var b := GenerateScheme(seed, proj).base;
      && |b| == 25
      && b[0].oklch.l == 0.98 && b[24].oklch.l == 0.02
      && (forall i :: 0 <= i < 24 ==> b[i].oklch.l - b[i + 1].oklch.l == 0.04)
      && (forall i, j :: 0 <= i < j < 25 ==> b[i].oklch.l > b[j].oklch.l)
      && (forall i :: 0 <= i < 25 ==> b[i].oklch.c == b[0].oklch.c && b[i].oklch.h == b[0].oklch.h)
  {
    var b := GenerateScheme(seed, proj).base;
    SchemeBaseEntries(seed, proj);
    assert IsRamp(b, ClampChroma(seed.c), NormalizeHue(seed.h));
    RampIsStrictlyDecreasing(b, ClampChroma(seed.c), NormalizeHue(seed.h));
  }

  /**
    The accents: error, warning and success at hues 29, 109 and 142, each at
    lightness 0.70 (`-70`) and 0.30 (`-30`), with the clamped seed chroma.
  */
  lemma SchemeAccents(seed: Oklch, proj: Projection)
    ensures var s := GenerateScheme(seed, proj);
      var C := ClampChroma(seed.c);
      && s.error.light.name == "error-70" && s.error.light.oklch == Oklch(0.7, C, 29.0)
      && s.error.dark.name == "error-30" && s.error.dark.oklch == Oklch(0.3, C, 29.0)
      && s.warning.light.name == "warning-70" && s.warning.light.oklch == Oklch(0.7, C, 109.0)
      && s.warning.dark.name == "warning-30" && s.warning.dark.oklch == Oklch(0.3, C, 109.0)
      && s.success.light.name == "success-70" && s.success.light.oklch == Oklch(0.7, C, 142.0)
      && s.success.dark.name == "success-30" && s.success.dark.oklch == Oklch(0.3, C, 142.0)
  {
  }

  /** The accents do not depend on the seed's hue or lightness, only on its chroma. */
  lemma AccentsIgnoreSeedHue(seed1: Oklch, seed2: Oklch, proj: Projection)
    requires seed1.c == seed2.c
    ensures var s1, s2 := GenerateScheme(seed1, proj), GenerateScheme(seed2, proj);
      s1.error == s2.error && s1.warning == s2.warning && s1.success == s2.success
  {
  }

  /**
    The scheme depends on the seed only through its clamped chroma and the
    angle of its hue: seeds that agree on both give the same scheme.
  */
  lemma SchemeDependsOnClampedSeed(seed1: Oklch, seed2: Oklch, proj: Projection)
    requires ClampChroma(seed1.c) == ClampChroma(seed2.c)
    requires SameAngle(seed1.h, seed2.h)
    ensures GenerateScheme(seed1, proj) == GenerateScheme(seed2, proj)
  {
    NormalizeHueOfSameAngle(seed1.h, seed2.h);
  }

  /** The accent entry names, in `allSchemeColors` order. */
  function AccentNames(): seq<string> {
    ["error-70", "error-30", "warning-70", "warning-30", "success-70", "success-30"]
  }

  /** The names of a 31-entry candidate list: ramp names at tiers 98 - 4i, then the accent names. */
  ghost predicate HasPaletteNames(p: seq<NamedColor>) {
    && |p| == 31
    && (forall i :: 0 <= i < 25 ==> p[i].name == TierName(98 - 4 * i))
    && (forall k :: 25 <= k < 31 ==> p[k].name == AccentNames()[k - 25])
  }

  /** Such a list names no two entries alike. */
  lemma PaletteNamesDistinct(p: seq<NamedColor>)
    requires HasPaletteNames(p)
    ensures forall i, j :: 0 <= i < j < 31 ==> p[i].name != p[j].name
  {
    forall i, j | 0 <= i < j < 25
      ensures p[i].name != p[j].name
    {
      TierNameInjective(98 - 4 * i, 98 - 4 * j);
    }
    forall i, j | 0 <= i < 25 <= j < 31
      ensures p[i].name != p[j].name
    {
      TierNameStartsWithB(98 - 4 * i);
      assert p[j].name[0] != 'b';
    }
    forall i, j | 25 <= i < j < 31
      ensures p[i].name != p[j].name
    {
      assert p[i].name == AccentNames()[i - 25] && p[j].name == AccentNames()[j - 25];
    }
  }

  /**
    The candidate list of a generated scheme has 31 entries: the 25 ramp
    entries first (98 down to 2), then error, warning and success, light
    before dark; no two entries share a name.
  */
  lemma GeneratedPalette(seed: Oklch, proj: Projection)
    ensures var s := GenerateScheme(seed, proj);
      var p := AllSchemeColors(s);
      && |p| == 31
      && p[..25] == s.base
      && p[25..] == [s.error.light, s.error.dark, s.warning.light, s.warning.dark, s.success.light, s.success.dark]
      && HasPaletteNames(p)
      && (forall i, j :: 0 <= i < j < 31 ==> p[i].name != p[j].name)
  {
    var s := GenerateScheme(seed, proj);
    var p := AllSchemeColors(s);
    SchemeBaseEntries(seed, proj);
    SchemeAccents(seed, proj);
    assert HasPaletteNames(p);
    PaletteNamesDistinct(p);
  }

  // ---------------------------------------------------------------------------
  // The serialised scheme (the dictionary built by `writeSchemeJson`)
  // ---------------------------------------------------------------------------

  /** One serialised entry: `{ oklch: css, hex }`. */
  datatype SchemeEntry = SchemeEntry(oklch: string, hex: string)

  function EntryOf(n: NamedColor): SchemeEntry {
    SchemeEntry(n.css, n.hex)
  }

  /** The dictionary after assigning `json[b.name]` for each ramp entry in order (later wins). */
  function BaseJson(base: seq<NamedColor>): (json: map<string, SchemeEntry>)
    ensures json.Keys == set i | 0 <= i < |base| :: base[i].name
  {
    if base == [] then map[]
    else BaseJson(base[..|base| - 1])[base[|base| - 1].name := EntryOf(base[|base| - 1])]
  }

  /** The whole dictionary: the ramp entries, then the six accent keys. */
  function SchemeJson(s: Scheme): map<string, SchemeEntry> {
    BaseJson(s.base)
      ["error-70" := EntryOf(s.error.light)]
      ["error-30" := EntryOf(s.error.dark)]
      ["warning-70" := EntryOf(s.warning.light)]
      ["warning-30" := EntryOf(s.warning.dark)]
      ["success-70" := EntryOf(s.success.light)]
      ["success-30" := EntryOf(s.success.dark)]
  }

  /** `writeSchemeJson`'s dictionary-building loop (lines before the file write). */
  method BuildSchemeJson(s: Scheme) returns (json: map<string, SchemeEntry>)
    ensures json == SchemeJson(s)
  {
    json := map[];
    for i := 0 to |s.base|
      invariant json == BaseJson(s.base[..i])
    {
      assert s.base[..i + 1][..i] == s.base[..i];
      json := json[s.base[i].name := EntryOf(s.base[i])];
    }
    assert s.base[..|s.base|] == s.base;
    json := json["error-70" := EntryOf(s.error.light)];
    json := json["error-30" := EntryOf(s.error.dark)];
    json := json["warning-70" := EntryOf(s.warning.light)];
    json := json["warning-30" := EntryOf(s.warning.dark)];
    json := json["success-70" := EntryOf(s.success.light)];
    json := json["success-30" := EntryOf(s.success.dark)];
  }

  /** With distinct names, each ramp entry's name maps to that entry's projections. */
  lemma {:induction false} BaseJsonLookup(base: seq<NamedColor>, i: nat)
    requires i < |base|
    requires forall a, b :: 0 <= a < b < |base| ==> base[a].name != base[b].name
    ensures BaseJson(base)[base[i].name] == EntryOf(base[i])
    decreases |base|
  {
    if i < |base| - 1 {
      BaseJsonLookup(base[..|base| - 1], i);
    }
  }

  /** Each accent entry is named by the key it is stored under. */
  ghost predicate AccentsNamedByKey(s: Scheme) {
    && s.error.light.name == "error-70" && s.error.dark.name == "error-30"
    && s.warning.light.name == "warning-70" && s.warning.dark.name == "warning-30"
    && s.success.light.name == "success-70" && s.success.dark.name == "success-30"
  }

  /** Each key of the dictionary is the name of a candidate: the `i`-th. */
  lemma SchemeJsonKeyWitness(s: Scheme, x: string) returns (i: nat)
    requires AccentsNamedByKey(s) && x in SchemeJson(s)
    ensures i < |AllSchemeColors(s)| && AllSchemeColors(s)[i].name == x
  {
    var n := |s.base|;
    if x in BaseJson(s.base) {
      i :| 0 <= i < n && x == s.base[i].name;
    } else if x == "error-70" {
      i := n;
    } else if x == "error-30" {
      i := n + 1;
    } else if x == "warning-70" {
      i := n + 2;
    } else if x == "warning-30" {
      i := n + 3;
    } else if x == "success-70" {
      i := n + 4;
    } else {
      i := n + 5;
    }
  }

  /** The name of every candidate is a key of the dictionary. */
  lemma SchemeJsonNameIsKey(s: Scheme, i: nat)
    requires AccentsNamedByKey(s) && i < |AllSchemeColors(s)|
    ensures AllSchemeColors(s)[i].name in SchemeJson(s)
  {
    if i < |s.base| {
      assert AllSchemeColors(s)[i] == s.base[i];
    }
  }

  /** Then the dictionary's keys are exactly the candidates' names. */
  lemma SchemeJsonKeys(s: Scheme)
    requires AccentsNamedByKey(s)
    ensures var p := AllSchemeColors(s);
      SchemeJson(s).Keys == set i | 0 <= i < |p| :: p[i].name
  {
    var p := AllSchemeColors(s);
    var keys := SchemeJson(s).Keys;
    var names := set i | 0 <= i < |p| :: p[i].name;
    forall x | x in keys ensures x in names {
      var i := SchemeJsonKeyWitness(s, x);
    }
    forall x | x in names ensures x in keys {
      var i :| 0 <= i < |p| && x == p[i].name;
      SchemeJsonNameIsKey(s, i);
    }
  }

  /** The accent keys are assigned after the ramp: any other key keeps its ramp entry. */
  lemma SchemeJsonOtherKey(s: Scheme, x: string)
    requires x !in AccentNames()
    ensures x in SchemeJson(s) <==> x in BaseJson(s.base)
    ensures x in BaseJson(s.base) ==> SchemeJson(s)[x] == BaseJson(s.base)[x]
  {
    assert x != AccentNames()[0] && x != AccentNames()[1] && x != AccentNames()[2];
    assert x != AccentNames()[3] && x != AccentNames()[4] && x != AccentNames()[5];
  }

  /** With distinct names as well, each candidate's name maps to its own projections. */
  lemma SchemeJsonLookups(s: Scheme)
    requires AccentsNamedByKey(s)
    requires var p := AllSchemeColors(s);
      forall i, j :: 0 <= i < j < |p| ==> p[i].name != p[j].name
    ensures var p := AllSchemeColors(s);
      forall i :: 0 <= i < |p| ==> p[i].name in SchemeJson(s) && SchemeJson(s)[p[i].name] == EntryOf(p[i])
  {
    var p := AllSchemeColors(s);
    var n := |s.base|;
    var json := SchemeJson(s);
    assert forall a :: 0 <= a < n ==> p[a] == s.base[a];
    assert forall k :: 0 <= k < 6 ==> p[n + k].name == AccentNames()[k];
    forall i | 0 <= i < n
      ensures p[i].name in json && json[p[i].name] == EntryOf(p[i])
    {
      BaseJsonLookup(s.base, i);
      assert forall k :: n <= k < n + 6 ==> p[i].name != p[k].name;
      SchemeJsonOtherKey(s, p[i].name);
    }
  }

  /**
    The serialised form of a generated scheme has exactly the 25 ramp names
    and the six accent names as keys, each mapped to that entry's CSS and
    hex projections.
  */
  lemma GeneratedSchemeJson(seed: Oklch, proj: Projection)
    ensures var s := GenerateScheme(seed, proj);
      var json := SchemeJson(s);
      var p := AllSchemeColors(s);
      && |p| == 31
      && HasPaletteNames(p)
      && json.Keys == (set i | 0 <= i < 31 :: p[i].name)
      && forall i :: 0 <= i < 31 ==> p[i].name in json && json[p[i].name] == EntryOf(p[i])
  {
    var s := GenerateScheme(seed, proj);
    GeneratedPalette(seed, proj);
    SchemeAccents(seed, proj);
    SchemeJsonKeys(s);
    SchemeJsonLookups(s);
  }
}
