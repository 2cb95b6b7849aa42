/**
  Locating the wallpaper inside a parsed shell configuration
  (src/lib/wallpaper.ts, `findWallpaperPath`).

  The configuration is an arbitrary JSON value.  The search is a
  short-circuiting depth-first walk that returns the first string leaf that
  looks like an image path; inside an object the values stored under keys
  mentioning "wallpaper" are tried before a fallback pass over every value.
*/
module Wallpaper {
  import opened Wrappers
  import opened Ascii

  /** A parsed JSON value.  Objects keep their entries in iteration order. */
  datatype Json =
    | JNull
    | JBool(b: bool)
    | JNum(n: real)
    | JStr(s: string)
    | JArr(items: seq<Json>)
    | JObj(entries: seq<(string, Json)>)

  // ---------------------------------------------------------------------------
  // Case-insensitive text tests (the `/i` flag folds ASCII letters only)
  // ---------------------------------------------------------------------------

  /** `s` ends with the lower-case `suffix`, ignoring ASCII case (a `...$/i` test). */
  predicate EndsWithIgnoringCase(s: string, suffix: string) {
    |suffix| <= |s| && Lower(s[|s| - |suffix|..]) == suffix
  }

  /** `s` holds the lower-case `word` somewhere, ignoring ASCII case (a `/word/i` test). */
  predicate ContainsIgnoringCase(s: string, word: string)
    ensures ContainsIgnoringCase(s, word) ==> |word| <= |s|
    decreases |s|
  {
    if |s| < |word| then false
    else Lower(s[..|word|]) == word || ContainsIgnoringCase(s[1..], word)
  }

  /** The image-path heuristic `/\.(png|jpe?g|bmp|webp|tiff?)$/i`. */
  predicate IsImagePath(s: string)
    ensures IsImagePath(s) ==> |s| >= 4 && (s[|s| - 4] == '.' || (|s| >= 5 && s[|s| - 5] == '.'))
  {
    || EndsWithIgnoringCase(s, ".png")
    || EndsWithIgnoringCase(s, ".jpg")
    || EndsWithIgnoringCase(s, ".jpeg")
    || EndsWithIgnoringCase(s, ".bmp")
    || EndsWithIgnoringCase(s, ".webp")
    || EndsWithIgnoringCase(s, ".tif")
    || EndsWithIgnoringCase(s, ".tiff")
  }

  /** Keys searched first: `/wallpaper/i`. */
  predicate IsWallpaperKey(k: string)
    ensures IsWallpaperKey(k) ==> |k| >= 9
  {
    ContainsIgnoringCase(k, "wallpaper")
  }

  /** The values JavaScript treats as false in `if (!obj)` (NaN is not modelled). */
  predicate IsFalsy(j: Json) {
    j == JNull || j == JBool(false) || j == JNum(0.0) || j == JStr("")
  }

  // ---------------------------------------------------------------------------
  // Reference definitions of "occurs in the tree"
  // ---------------------------------------------------------------------------

  /** `s` is a string leaf somewhere inside `j` (array elements and object values). */
  ghost predicate IsLeaf(s: string, j: Json) {
    match j
    case JStr(t) => t == s
    case JArr(items) => exists k :: 0 <= k < |items| && IsLeaf(s, items[k])
    case JObj(entries) => exists k :: 0 <= k < |entries| && IsLeaf(s, entries[k].1)
    case _ => false
  }

  /** Some string leaf of `j` looks like an image path. */
  ghost predicate HasImageLeaf(j: Json) {
    match j
    case JStr(t) => IsImagePath(t)
    case JArr(items) => exists k :: 0 <= k < |items| && HasImageLeaf(items[k])
    case JObj(entries) => exists k :: 0 <= k < |entries| && HasImageLeaf(entries[k].1)
    case _ => false
  }

  // ---------------------------------------------------------------------------
  // The search
  // ---------------------------------------------------------------------------

  /** `findWallpaperPath`: None stands for `null`. */
  function FindWallpaperPath(j: Json): (r: Option<string>)
    ensures r.Some? ==> IsImagePath(r.value)
    decreases j, 2, 0
  {
    if IsFalsy(j) then None
    else match j
      case JStr(s) => if IsImagePath(s) then Some(s) else None
      case JArr(_) => FindInItems(j, 0)
      case JObj(_) =>
        (match FindUnderWallpaperKeys(j, 0)
         case Some(p) => Some(p)
         case None => FindInValues(j, 0))
      case _ => None
  }

  /** The loop over array elements, from index `i`: the first element with a hit wins. */
  function FindInItems(j: Json, i: nat): (r: Option<string>)
    requires j.JArr? && i <= |j.items|
    ensures r.Some? ==> IsImagePath(r.value)
    decreases j, 1, |j.items| - i
  {
    if i == |j.items| then None
    else
      match FindWallpaperPath(j.items[i])
      case Some(p) => Some(p)
      case None => FindInItems(j, i + 1)
  }

  /** The first object pass, from entry `i`: only values under wallpaper keys. */
  function FindUnderWallpaperKeys(j: Json, i: nat): (r: Option<string>)
    requires j.JObj? && i <= |j.entries|
    ensures r.Some? ==> IsImagePath(r.value)
    decreases j, 1, |j.entries| - i
  {
    if i == |j.entries| then None
    else if IsWallpaperKey(j.entries[i].0) then
      match FindWallpaperPath(j.entries[i].1)
      case Some(p) => Some(p)
      case None => FindUnderWallpaperKeys(j, i + 1)
    else FindUnderWallpaperKeys(j, i + 1)
  }

  /** The fallback object pass, from entry `i`: every value in entry order. */
  function FindInValues(j: Json, i: nat): (r: Option<string>)
    requires j.JObj? && i <= |j.entries|
    ensures r.Some? ==> IsImagePath(r.value)
    decreases j, 1, |j.entries| - i
  {
    if i == |j.entries| then None
    else
      match FindWallpaperPath(j.entries[i].1)
      case Some(p) => Some(p)
      case None => FindInValues(j, i + 1)
  }

  // ---------------------------------------------------------------------------
  // Properties of the search
  // ---------------------------------------------------------------------------

  /** Every string the search returns is an image-path leaf of the input. */
  lemma {:induction false} FindSound(j: Json)
    ensures var r := FindWallpaperPath(j);
      r.Some? ==> IsImagePath(r.value) && IsLeaf(r.value, j)
    decreases j, 2, 0
  {
    if !IsFalsy(j) {
      match j
      case JArr(_) => ItemsSound(j, 0);
      case JObj(_) =>
        KeysSound(j, 0);
        ValuesSound(j, 0);
      case _ =>
    }
  }

  /** A hit of the array loop from `i` is an image-path leaf of an element from `i` on. */
  lemma {:induction false} ItemsSound(j: Json, i: nat)
    requires j.JArr? && i <= |j.items|
    ensures var r := FindInItems(j, i);
      r.Some? ==> IsImagePath(r.value) && exists k :: i <= k < |j.items| && IsLeaf(r.value, j.items[k])
    decreases j, 1, |j.items| - i
  {
    if i < |j.items| {
      FindSound(j.items[i]);
      ItemsSound(j, i + 1);
    }
  }

  /** A hit of the first object pass from `i` is an image-path leaf under a wallpaper key from `i` on. */
  lemma {:induction false} KeysSound(j: Json, i: nat)
    requires j.JObj? && i <= |j.entries|
    ensures var r := FindUnderWallpaperKeys(j, i);
      r.Some? ==> (IsImagePath(r.value) &&
        exists k :: i <= k < |j.entries| && IsWallpaperKey(j.entries[k].0) && IsLeaf(r.value, j.entries[k].1))
    decreases j, 1, |j.entries| - i
  {
    if i < |j.entries| {
      FindSound(j.entries[i].1);
      KeysSound(j, i + 1);
    }
  }

  /** A hit of the fallback pass from `i` is an image-path leaf of a value from `i` on. */
  lemma {:induction false} ValuesSound(j: Json, i: nat)
    requires j.JObj? && i <= |j.entries|
    ensures var r := FindInValues(j, i);
      r.Some? ==> IsImagePath(r.value) && exists k :: i <= k < |j.entries| && IsLeaf(r.value, j.entries[k].1)
    decreases j, 1, |j.entries| - i
  {
    if i < |j.entries| {
      FindSound(j.entries[i].1);
      ValuesSound(j, i + 1);
    }
  }

  /** Leaves that are not arrays or objects: only an image-path string is returned, unchanged. */
  lemma ScalarResults(b: bool, n: real, s: string)
    ensures FindWallpaperPath(JNull) == None
    ensures FindWallpaperPath(JBool(b)) == None
    ensures FindWallpaperPath(JNum(n)) == None
    ensures FindWallpaperPath(JStr(s)) == if IsImagePath(s) then Some(s) else None
  {
  }

  /** A string leaf that is an image path makes the whole tree contain one. */
  lemma {:induction false} ImageLeafIsHit(s: string, j: Json)
    requires IsImagePath(s) && IsLeaf(s, j)
    ensures HasImageLeaf(j)
  {
    match j
    case JStr(t) =>
    case JArr(items) =>
      var k :| 0 <= k < |items| && IsLeaf(s, items[k]);
      ImageLeafIsHit(s, items[k]);
    case JObj(entries) =>
      var k :| 0 <= k < |entries| && IsLeaf(s, entries[k].1);
      ImageLeafIsHit(s, entries[k].1);
  }

  /** An element with a hit at index `k >= i` makes the array loop from `i` succeed. */
  lemma {:induction false} ItemsReachHit(j: Json, i: nat, k: nat)
    requires j.JArr? && i <= k < |j.items|
    requires FindWallpaperPath(j.items[k]).Some?
    ensures FindInItems(j, i).Some?
    decreases k - i
  {
    if i < k && FindWallpaperPath(j.items[i]).None? {
      ItemsReachHit(j, i + 1, k);
    }
  }

  /** A value with a hit at entry `k >= i` makes the fallback pass from `i` succeed. */
  lemma {:induction false} ValuesReachHit(j: Json, i: nat, k: nat)
    requires j.JObj? && i <= k < |j.entries|
    requires FindWallpaperPath(j.entries[k].1).Some?
    ensures FindInValues(j, i).Some?
    decreases k - i
  {
    if i < k && FindWallpaperPath(j.entries[i].1).None? {
      ValuesReachHit(j, i + 1, k);
    }
  }

  /**
    The search misses nothing: it returns a path exactly when some string
    leaf anywhere in the tree is an image path.
  */
  lemma FindIffImageLeaf(j: Json)
    ensures FindWallpaperPath(j).Some? <==> HasImageLeaf(j)
  {
    var r := FindWallpaperPath(j);
    FindSound(j);
    if r.Some? {
      ImageLeafIsHit(r.value, j);
    }
    if HasImageLeaf(j) {
      ImageLeafIsFound(j);
    }
  }

  /** A tree with an image-path leaf anywhere gives a hit. */
  lemma {:induction false} ImageLeafIsFound(j: Json)
    requires HasImageLeaf(j)
    ensures FindWallpaperPath(j).Some?
    decreases j, 1
  {
    match j
    case JArr(items) =>
      var k :| 0 <= k < |items| && HasImageLeaf(items[k]);
      ItemLeafFound(j, k);
    case JObj(entries) =>
      var k :| 0 <= k < |entries| && HasImageLeaf(entries[k].1);
      ValueLeafFound(j, k);
    case JStr(t) =>
      assert t != "";
  }

  /** An array with an image-path leaf in element `k` gives a hit. */
  lemma {:induction false} ItemLeafFound(j: Json, k: nat)
    requires j.JArr? && k < |j.items| && HasImageLeaf(j.items[k])
    ensures FindWallpaperPath(j).Some?
    decreases j, 0
  {
    ImageLeafIsFound(j.items[k]);
    ItemsReachHit(j, 0, k);
    assert FindWallpaperPath(j) == FindInItems(j, 0);
  }

  /** An object with an image-path leaf in the value of entry `k` gives a hit. */
  lemma {:induction false} ValueLeafFound(j: Json, k: nat)
    requires j.JObj? && k < |j.entries| && HasImageLeaf(j.entries[k].1)
    ensures FindWallpaperPath(j).Some?
    decreases j, 0
  {
    ImageLeafIsFound(j.entries[k].1);
    ValuesReachHit(j, 0, k);
    if FindUnderWallpaperKeys(j, 0).None? {
      assert FindWallpaperPath(j) == FindInValues(j, 0);
    }
  }

  /** Array loop from `i`: with no hit in `[i, k)`, the hit at `k` is the result. */
  lemma {:induction false} ItemsFirstHit(j: Json, i: nat, k: nat)
    requires j.JArr? && i <= k < |j.items|
    requires FindWallpaperPath(j.items[k]).Some?
    requires forall m :: i <= m < k ==> FindWallpaperPath(j.items[m]).None?
    ensures FindInItems(j, i) == FindWallpaperPath(j.items[k])
    decreases k - i
  {
    if i < k {
      ItemsFirstHit(j, i + 1, k);
    }
  }

  /** Array loop from `i`: no element from `i` on has a hit, so the loop yields null. */
  lemma {:induction false} ItemsNoHit(j: Json, i: nat)
    requires j.JArr? && i <= |j.items|
    requires forall m :: i <= m < |j.items| ==> FindWallpaperPath(j.items[m]).None?
    ensures FindInItems(j, i).None?
    decreases |j.items| - i
  {
    if i < |j.items| {
      ItemsNoHit(j, i + 1);
    }
  }

  /** For an array, the result is that of the first element, in order, with a hit. */
  lemma FindInArrayIsFirstHit(items: seq<Json>, k: nat)
    requires k < |items|
    requires FindWallpaperPath(items[k]).Some?
    requires forall m :: 0 <= m < k ==> FindWallpaperPath(items[m]).None?
    ensures FindWallpaperPath(JArr(items)) == FindWallpaperPath(items[k])
  {
    ItemsFirstHit(JArr(items), 0, k);
  }

  /** For an array, the result is null exactly when no element has a hit. */
  lemma FindInArrayNone(items: seq<Json>)
    ensures FindWallpaperPath(JArr(items)).None? <==>
      forall m :: 0 <= m < |items| ==> FindWallpaperPath(items[m]).None?
  {
    if forall m :: 0 <= m < |items| ==> FindWallpaperPath(items[m]).None? {
      ItemsNoHit(JArr(items), 0);
    } else {
      var k :| 0 <= k < |items| && FindWallpaperPath(items[k]).Some?;
      ItemsReachHit(JArr(items), 0, k);
    }
  }

  /** First object pass from `i`: the first wallpaper-keyed hit at or after `i` is the result. */
  lemma {:induction false} KeysFirstHit(j: Json, i: nat, k: nat)
    requires j.JObj? && i <= k < |j.entries|
    requires IsWallpaperKey(j.entries[k].0) && FindWallpaperPath(j.entries[k].1).Some?
    requires forall m :: i <= m < k && IsWallpaperKey(j.entries[m].0) ==> FindWallpaperPath(j.entries[m].1).None?
    ensures FindUnderWallpaperKeys(j, i) == FindWallpaperPath(j.entries[k].1)
    decreases k - i
  {
    if i < k {
      KeysFirstHit(j, i + 1, k);
    }
  }

  /** First object pass from `i`: no wallpaper-keyed value from `i` on has a hit. */
  lemma {:induction false} KeysNoHit(j: Json, i: nat)
    requires j.JObj? && i <= |j.entries|
    requires forall m :: i <= m < |j.entries| && IsWallpaperKey(j.entries[m].0) ==> FindWallpaperPath(j.entries[m].1).None?
    ensures FindUnderWallpaperKeys(j, i).None?
    decreases |j.entries| - i
  {
    if i < |j.entries| {
      KeysNoHit(j, i + 1);
    }
  }

  /** Fallback pass from `i`: with no hit in `[i, k)`, the hit at `k` is the result. */
  lemma {:induction false} ValuesFirstHit(j: Json, i: nat, k: nat)
    requires j.JObj? && i <= k < |j.entries|
    requires FindWallpaperPath(j.entries[k].1).Some?
    requires forall m :: i <= m < k ==> FindWallpaperPath(j.entries[m].1).None?
    ensures FindInValues(j, i) == FindWallpaperPath(j.entries[k].1)
    decreases k - i
  {
    if i < k {
      ValuesFirstHit(j, i + 1, k);
    }
  }

  /**
    In an object, a hit under a key mentioning "wallpaper" beats every other
    hit: the first such entry with a hit decides the result, whatever comes
    before it under other keys.
  */
  lemma WallpaperKeyHitWins(entries: seq<(string, Json)>, k: nat)
    requires k < |entries|
    requires IsWallpaperKey(entries[k].0) && FindWallpaperPath(entries[k].1).Some?
    requires forall m :: 0 <= m < k && IsWallpaperKey(entries[m].0) ==> FindWallpaperPath(entries[m].1).None?
    ensures FindWallpaperPath(JObj(entries)) == FindWallpaperPath(entries[k].1)
  {
    KeysFirstHit(JObj(entries), 0, k);
  }

  /**
    In an object with no hit under a wallpaper key, the result comes from the
    first value, in entry order, with a hit.
  */
  lemma FallbackFirstHit(entries: seq<(string, Json)>, k: nat)
    requires forall m :: 0 <= m < |entries| && IsWallpaperKey(entries[m].0) ==> FindWallpaperPath(entries[m].1).None?
    requires k < |entries| && FindWallpaperPath(entries[k].1).Some?
    requires forall m :: 0 <= m < k ==> FindWallpaperPath(entries[m].1).None?
    ensures FindWallpaperPath(JObj(entries)) == FindWallpaperPath(entries[k].1)
  {
    KeysNoHit(JObj(entries), 0);
    ValuesFirstHit(JObj(entries), 0, k);
  }
}
