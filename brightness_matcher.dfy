/**
 * Matching image tiles to characters by brightness
 * (Ex04-ASCII-Art/ascii_art/img_to_char/BrightnessImgCharMatcher.java).
 *
 * A character's brightness is the share of inked cells in its 16-by-16 rendering; the
 * brightnesses of the current palette are normalised to [0, 1] by their minimum and maximum; a
 * tile's brightness is its mean grey level over 255; each tile becomes the palette character
 * whose normalised brightness is closest. Both brightnesses are cached across renders.
 */
module BrightnessMatchers {
  import opened FileImages
  import opened Images
  import opened SubImages
  import opened ImageIterables
  import opened ImageDefaults

  /** Side of the square raster a character is rendered to. */
  const DefaultResolution: nat := 16

  /** Weights of the red, green and blue channels in a grey level. */
  const RedMult: real := 0.2126
  const GreenMult: real := 0.7152
  const BlueMult: real := 0.0722

  const MaxRgbVal: nat := 255

  /** A Java `double` as this class produces it: a real number, or the NaN of `0.0 / 0.0`. */
  datatype Double = Finite(value: real) | NaN

  predicate Distinct<T(==)>(s: seq<T>)
  {
    forall i, j :: 0 <= i < j < |s| ==> s[i] != s[j]
  }

  // ---------------------------------------------------------------- character brightness

  /** A rendering of a character: 16 rows of 16 cells, true where the glyph is inked. */
  predicate IsGlyph(g: seq<seq<bool>>)
  {
    |g| == DefaultResolution && forall i :: 0 <= i < |g| ==> |g[i]| == DefaultResolution
  }

  /** The inked cells among the first j of a row. */
  function RowInk(row: seq<bool>, j: nat): (n: nat)
    requires j <= |row|
    ensures n <= j
  {
    if j == 0 then 0 else RowInk(row, j - 1) + if row[j - 1] then 1 else 0
  }

  /** The inked cells in the first i rows of a glyph. */
  function GlyphInk(g: seq<seq<bool>>, i: nat): (n: nat)
    requires IsGlyph(g) && i <= DefaultResolution
    ensures n <= DefaultResolution * i
  {
    if i == 0 then 0 else GlyphInk(g, i - 1) + RowInk(g[i - 1], DefaultResolution)
  }

  /** The raw brightness of a character: its inked cells over the 256 cells of its raster. */
  function InkShare(g: seq<seq<bool>>): (b: real)
    requires IsGlyph(g)
    ensures 0.0 <= b <= 1.0
  {
    GlyphInk(g, DefaultResolution) as real / (DefaultResolution * DefaultResolution) as real
  }

  // ---------------------------------------------------------------- normalisation

  /** The smallest of some values. */
  function Lowest(vals: seq<real>): (lo: real)
    requires |vals| > 0
    ensures lo in vals && forall i :: 0 <= i < |vals| ==> lo <= vals[i]
  {
    if |vals| == 1 then vals[0]
    else
      var r := Lowest(vals[..|vals| - 1]);
      if vals[|vals| - 1] < r then vals[|vals| - 1] else r
  }

  /** The largest of some values. */
  function Highest(vals: seq<real>): (hi: real)
    requires |vals| > 0
    ensures hi in vals && forall i :: 0 <= i < |vals| ==> vals[i] <= hi
  {
    if |vals| == 1 then vals[0]
    else
      var r := Highest(vals[..|vals| - 1]);
      if vals[|vals| - 1] > r then vals[|vals| - 1] else r
  }

  /**
   * v rescaled from [lo, hi] to [0, 1]; NaN when lo == hi, where `(v - lo) / (hi - lo)` is
   * `0.0 / 0.0`.
   */
  function Normalize(v: real, lo: real, hi: real): (d: Double)
    requires lo <= v <= hi
    ensures d.NaN? <==> lo == hi
    ensures d.Finite? ==> 0.0 <= d.value <= 1.0
  {
    if hi - lo == 0.0 then NaN
    else
      UnitRatio(v - lo, hi - lo);
      Finite((v - lo) / (hi - lo))
  }

  /** Normalize, computed as the source does, with the difference hi - lo taken first. */
  lemma NormalizeByDifference(v: real, lo: real, hi: real, d: real)
    requires lo <= v <= hi && d == hi - lo
    ensures Normalize(v, lo, hi) == if d == 0.0 then NaN else Finite((v - lo) / d)
  {
  }

  /** The least value goes to 0 and the greatest to 1. */
  lemma NormalizeEnds(lo: real, hi: real)
    requires lo < hi
    ensures Normalize(lo, lo, hi) == Finite(0.0) && Normalize(hi, lo, hi) == Finite(1.0)
  {
    var d := hi - lo;
    assert d / d == 1.0;
  }

  /** Normalisation keeps the order of brightnesses. */
  lemma NormalizeMonotone(v: real, w: real, lo: real, hi: real)
    requires lo <= v <= w <= hi && lo < hi
    ensures Normalize(v, lo, hi).value <= Normalize(w, lo, hi).value
  {
    var d := hi - lo;
    assert (w - lo) / d - (v - lo) / d == (w - v) / d;
  }

  /** The values of some keys, in the keys' order. */
  function Lookup(keys: seq<char>, m: map<char, real>): (vals: seq<real>)
    requires forall i :: 0 <= i < |keys| ==> keys[i] in m
    ensures |vals| == |keys| && forall i :: 0 <= i < |keys| ==> vals[i] == m[keys[i]]
  {
    seq(|keys|, i requires 0 <= i < |keys| => m[keys[i]])
  }

  // ---------------------------------------------------------------- closest character

  /** Every key has a value in the map, and every value is finite. */
  predicate AllFinite(keys: seq<char>, m: map<char, Double>)
  {
    forall i :: 0 <= i < |keys| ==> keys[i] in m && m[keys[i]].Finite?
  }

  /** Every key has a value in the map, and every value is NaN. */
  predicate AllNaN(keys: seq<char>, m: map<char, Double>)
  {
    forall i :: 0 <= i < |keys| ==> keys[i] in m && m[keys[i]].NaN?
  }

  function Abs(x: real): real
  {
    if x < 0.0 then -x else x
  }

  /** The brightnesses of some keys, in the keys' order. */
  function FiniteValues(keys: seq<char>, m: map<char, Double>): (vals: seq<real>)
    requires AllFinite(keys, m)
    ensures |vals| == |keys| && forall i :: 0 <= i < |keys| ==> vals[i] == m[keys[i]].value
  {
    seq(|keys|, i requires 0 <= i < |keys| && keys[i] in m && m[keys[i]].Finite? => m[keys[i]].value)
  }

  /** How far the brightness of the j-th key is from val. */
  function Dist(keys: seq<char>, m: map<char, Double>, val: real, j: int): real
    requires AllFinite(keys, m) && 0 <= j < |keys|
  {
    Abs(val - m[keys[j]].value)
  }

  /** The first of the first n keys whose brightness is closest to val. */
  function ClosestIndex(keys: seq<char>, m: map<char, Double>, val: real, n: nat): (r: nat)
    requires AllFinite(keys, m) && 1 <= n <= |keys|
    ensures r < n
    ensures forall j :: 0 <= j < n ==> Dist(keys, m, val, r) <= Dist(keys, m, val, j)
    ensures forall j :: 0 <= j < r ==> Dist(keys, m, val, r) < Dist(keys, m, val, j)
  {
    if n == 1 then 0
    else
      var r := ClosestIndex(keys, m, val, n - 1);
      if Dist(keys, m, val, n - 1) < Dist(keys, m, val, r) then n - 1 else r
  }

  /**
   * The character `findBestChar(val)` picks from a normalised palette listed in iteration order:
   * a space for an empty palette, the first character of closest brightness when all are
   * finite, and the first character when all are NaN (no comparison with NaN succeeds).
   */
  function BestChar(keys: seq<char>, m: map<char, Double>, val: real): char
    requires AllFinite(keys, m) || AllNaN(keys, m)
  {
    if |keys| == 0 then ' '
    else if AllFinite(keys, m) then keys[ClosestIndex(keys, m, val, |keys|)]
    else keys[0]
  }

  /**
   * With finite brightnesses the chosen character is a closest one, and no character before it
   * in iteration order is as close.
   */
  lemma BestCharIsClosest(keys: seq<char>, m: map<char, Double>, val: real)
    requires AllFinite(keys, m) && |keys| > 0
    ensures exists i :: (0 <= i < |keys| && BestChar(keys, m, val) == keys[i] &&
      (forall j :: 0 <= j < |keys| ==> Dist(keys, m, val, i) <= Dist(keys, m, val, j)) &&
      (forall j :: 0 <= j < i ==> Dist(keys, m, val, i) < Dist(keys, m, val, j)))
  {
    var i := ClosestIndex(keys, m, val, |keys|);
    assert BestChar(keys, m, val) == keys[i];
  }

  /** A character whose brightness is exactly val wins; of several, the first. */
  lemma {:induction false} ExactMatchWins(keys: seq<char>, m: map<char, Double>, val: real, i: nat)
    requires AllFinite(keys, m) && i < |keys| && m[keys[i]] == Finite(val)
    requires forall j :: 0 <= j < i ==> m[keys[j]] != Finite(val)
    ensures BestChar(keys, m, val) == keys[i]
  {
    assert Dist(keys, m, val, i) == 0.0;
  }

  // ---------------------------------------------------------------- tile brightness

  /** The grey level of a colour: 0.2126 R + 0.7152 G + 0.0722 B. */
  function Gray(c: Color): (g: real)
    ensures IsColor(c) ==> 0.0 <= g <= 255.0
  {
    c.red as real * RedMult + c.green as real * GreenMult + c.blue as real * BlueMult
  }

  /** The grey level of pixel (x, y) of an image, where it has one. */
  function GrayAt(t: Image, x: int, y: int): real
  {
    if HasPixel(t, x, y) then Gray(GetPixel(t, x, y)) else 0.0
  }

  /** The grey levels of the first j pixels of row y, summed. */
  function RowGray(t: Image, y: int, j: nat): real
  {
    if j == 0 then 0.0 else RowGray(t, y, j - 1) + GrayAt(t, j - 1, y)
  }

  /** The grey levels of the first i rows of s pixels, summed row by row. */
  function GridGray(t: Image, i: nat, s: nat): real
  {
    if i == 0 then 0.0 else GridGray(t, i - 1, s) + RowGray(t, i - 1, s)
  }

  /** A square tile's brightness: its summed grey level over width * height * 255. */
  function TileBrightness(t: Image): real
    requires Width(t) >= 1 && Height(t) >= 1
  {
    GridGray(t, Height(t), Width(t)) / (Width(t) * Height(t) * MaxRgbVal) as real
  }

  lemma {:induction false} RowGrayBound(t: Image, y: int, j: nat)
    requires Source(t).Valid()
    ensures 0.0 <= RowGray(t, y, j) <= 255.0 * j as real
  {
    if j > 0 {
      RowGrayBound(t, y, j - 1);
      if HasPixel(t, j - 1, y) {
        PixelIsColor(t, j - 1, y);
      }
    }
  }

  lemma {:induction false} GridGrayBound(t: Image, i: nat, s: nat)
    requires Source(t).Valid()
    ensures 0.0 <= GridGray(t, i, s) <= 255.0 * (s * i) as real
  {
    if i > 0 {
      GridGrayBound(t, i - 1, s);
      RowGrayBound(t, i - 1, s);
      assert (s * i) as real == (s * (i - 1)) as real + s as real;
    }
  }

  /** A tile's brightness lies in [0, 1]: no grey level exceeds 255. */
  lemma TileBrightnessBounds(t: Image)
    requires Source(t).Valid() && Width(t) >= 1 && Height(t) >= 1
    ensures 0.0 <= TileBrightness(t) <= 1.0
  {
    var w, h := Width(t), Height(t);
    GridGrayBound(t, h, w);
    var area := w * h;
    assert area >= 1 by {
      MulMonotone(1, h, w);
    }
    assert (area * MaxRgbVal) as real == 255.0 * area as real;
    UnitRatio(GridGray(t, h, w), (area * MaxRgbVal) as real);
  }

  /** A share of a positive whole lies in [0, 1]. */
  lemma UnitRatio(part: real, whole: real)
    requires 0.0 <= part <= whole && whole > 0.0
    ensures 0.0 <= part / whole <= 1.0
  {
    assert part / whole * whole == part;
  }

  // ---------------------------------------------------------------- the caches

  /** Every character renders to a 16-by-16 raster. */
  ghost predicate Renders(rasterize: (char, string) -> seq<seq<bool>>, font: string)
  {
    forall c :: IsGlyph(rasterize(c, font))
  }

  /**
   * The character cache holds the raw brightness of each character in it, and each of those
   * characters was rendered exactly once.
   */
  ghost predicate CharCache(rasterize: (char, string) -> seq<seq<bool>>, font: string,
                            cache: map<char, real>, rendered: seq<char>)
    requires Renders(rasterize, font)
  {
    (forall c :: c in cache ==> cache[c] == InkShare(rasterize(c, font))) &&
    Distinct(rendered) && (forall c :: c in cache <==> c in rendered)
  }

  /** The tile cache holds the brightness of each tile in it, each measured exactly once. */
  ghost predicate TileCache(cache: map<Image, real>, measured: seq<Image>)
  {
    (forall t :: t in cache ==> t.SubImg? && t.size >= 1 && cache[t] == TileBrightness(t)) &&
    Distinct(measured) && (forall t :: t in cache ==> t in measured) &&
    (forall i :: 0 <= i < |measured| ==> measured[i] in cache)
  }

  /** `keys` lists the keys of m once each: the map's iteration order. */
  ghost predicate KeyOrder(keys: seq<char>, m: map<char, Double>)
  {
    Distinct(keys) && forall c :: c in m <==> c in keys
  }

  /**
   * Each current brightness is the cached raw brightness of its character, normalised by the
   * least and the greatest raw brightness of the palette.
   */
  ghost predicate NormalizedFrom(keys: seq<char>, cur: map<char, Double>, ascii: map<char, real>)
  {
    (forall c :: c in keys ==> c in ascii && c in cur) &&
    (|keys| > 0 ==>
       var raw := Lookup(keys, ascii);
       forall j :: 0 <= j < |keys| ==> cur[keys[j]] == Normalize(ascii[keys[j]], Lowest(raw), Highest(raw)))
  }

  /** b holds everything a holds, unchanged. */
  ghost predicate Extends<K, V>(a: map<K, V>, b: map<K, V>)
  {
    forall k :: k in a ==> k in b && b[k] == a[k]
  }

  lemma ExtendsTransitive<K, V>(a: map<K, V>, b: map<K, V>, c: map<K, V>)
    requires Extends(a, b) && Extends(b, c)
    ensures Extends(a, c)
  {
  }

  // ---------------------------------------------------------------- the matcher

  /**
   * The matcher of one image. `rasterize(c, font)` stands for `CharRenderer.getImg(c, 16, font)`.
   * The keys of `curBrightness` are listed in `curKeys` in the map's iteration order, taken to
   * be the order of first insertion. `rendered` and `measured` log every rendering of a
   * character and every tile measurement.
   */
  class BrightnessImgCharMatcher {
    const font: string
    const img: Image
    const rasterize: (char, string) -> seq<seq<bool>>
    var curKeys: seq<char>
    var curBrightness: map<char, Double>
    var asciiBrightness: map<char, real>
    var tileBrightness: map<Image, real>
    ghost var rendered: seq<char>
    ghost var measured: seq<Image>

    /**
     * The caches hold what they claim, each character was rendered and each tile measured
     * once, and `curKeys` lists the current map's keys once each.
     */
    ghost predicate Valid()
      reads this
    {
      Renders(rasterize, font) && CharCache(rasterize, font, asciiBrightness, rendered) &&
      TileCache(tileBrightness, measured) && KeyOrder(curKeys, curBrightness)
    }

    /** The current brightnesses are normalised: all finite, or all NaN. */
    ghost predicate Normalized()
      reads this
    {
      AllFinite(curKeys, curBrightness) || AllNaN(curKeys, curBrightness)
    }

    /** The raw brightnesses of the current palette, in iteration order. */
    ghost function Raw(): seq<real>
      reads this
      requires AllFinite(curKeys, curBrightness)
    {
      FiniteValues(curKeys, curBrightness)
    }

    /** The character cache only grows, and keeps what it held. */
    twostate predicate CacheGrows()
      reads this
    {
      Extends(old(asciiBrightness), asciiBrightness) && Extends(old(tileBrightness), tileBrightness) &&
      old(rendered) <= rendered && old(measured) <= measured
    }

    constructor (img: Image, font: string, rasterize: (char, string) -> seq<seq<bool>>)
      requires Renders(rasterize, font)
      ensures Valid() && this.img == img && this.font == font && this.rasterize == rasterize
      ensures curBrightness == map[] && asciiBrightness == map[] && tileBrightness == map[]
    {
      this.img := img;
      this.font := font;
      this.rasterize := rasterize;
      curKeys, curBrightness := [], map[];
      asciiBrightness, tileBrightness := map[], map[];
      rendered, measured := [], [];
    }

    /**
     * `chooseChars`: forgets the current palette, takes `charSet` as the new one, and renders
     * the image with numCharsInRow characters per row. The grid has one cell per tile of side
     * width / numCharsInRow, each holding the best character for that tile's brightness.
     */
    method ChooseChars(numCharsInRow: int, charSet: seq<char>) returns (asciiChars: array2<char>)
      requires Valid() && img.FileImg? && img.file.Valid()
      requires 1 <= numCharsInRow <= Width(img) && Width(img) % numCharsInRow == 0
      modifies this
      ensures Valid() && CacheGrows() && Normalized()
      ensures var s := Width(img) / numCharsInRow;
              fresh(asciiChars) && asciiChars.Length0 == Height(img) / s && asciiChars.Length1 == numCharsInRow &&
              forall r, c :: 0 <= r < asciiChars.Length0 && 0 <= c < asciiChars.Length1 ==>
                asciiChars[r, c] == BestChar(curKeys, curBrightness, TileBrightness(SubImg(img, s, r, c)))
      ensures forall c :: c in curBrightness <==> c in charSet
      ensures forall c :: c in charSet ==> c in asciiBrightness
      ensures NormalizedFrom(curKeys, curBrightness, asciiBrightness)
    {
      curKeys, curBrightness := [], map[];
      CalcBrightnessOfSet(charSet);
      asciiChars := ConvertToAsciiChars(numCharsInRow);
    }

    /**
     * `calcBrightnessOfSet`, on the emptied current map: every character of `charSet` gets its
     * raw brightness, from the cache or else rendered once and cached; then the current map
     * is normalised by its least and greatest brightness.
     */
    method CalcBrightnessOfSet(charSet: seq<char>)
      requires Valid() && curKeys == [] && curBrightness == map[]
      modifies this
      ensures Valid() && Normalized() && CacheGrows()
      ensures tileBrightness == old(tileBrightness) && measured == old(measured)
      ensures forall c :: c in curBrightness <==> c in charSet
      ensures forall c :: c in charSet ==> c in asciiBrightness
      ensures NormalizedFrom(curKeys, curBrightness, asciiBrightness)
    {
      var keys, cur, ascii, log := GatherBrightness(charSet);
      curKeys, curBrightness, asciiBrightness, rendered := keys, cur, ascii, log;
      assert AllFinite(curKeys, curBrightness) && Raw() == Lookup(curKeys, asciiBrightness);
      NormalBrightness();
    }

    /**
     * The loop of `calcBrightnessOfSet`, into an empty current map: each character of
     * `charSet` gets its cached raw brightness, or is rendered, measured and cached.
     */
    method GatherBrightness(charSet: seq<char>)
      returns (keys: seq<char>, cur: map<char, Double>, ascii: map<char, real>, ghost log: seq<char>)
      requires Valid()
      ensures CharCache(rasterize, font, ascii, log) && KeyOrder(keys, cur)
      ensures Extends(asciiBrightness, ascii) && rendered <= log
      ensures forall c :: c in cur <==> c in charSet
      ensures forall c :: c in cur ==> c in ascii && cur[c] == Finite(ascii[c])
    {
      keys, cur, ascii := [], map[], asciiBrightness;
      log := rendered;
      for i := 0 to |charSet|
        invariant CharCache(rasterize, font, ascii, log) && KeyOrder(keys, cur)
        invariant Extends(asciiBrightness, ascii) && rendered <= log
        invariant forall c :: c in cur <==> c in charSet[..i]
        invariant forall c :: c in cur ==> c in ascii && cur[c] == Finite(ascii[c])
      {
        var c := charSet[i];
        if c in ascii {
          if c !in cur {
            keys := keys + [c];
          }
          cur := cur[c := Finite(ascii[c])];
        } else if c !in cur {
          var charBrightness := CalcInitCharBrightness(c);
          log := log + [c];
          keys := keys + [c];
          cur := cur[c := Finite(charBrightness)];
          ascii := ascii[c := charBrightness];
        }
        assert charSet[..i + 1] == charSet[..i] + [c];
      }
      assert charSet[..|charSet|] == charSet;
    }

    /** `calcInitCharBrightness`: counts the inked cells of the character's raster. */
    method CalcInitCharBrightness(c: char) returns (b: real)
      requires IsGlyph(rasterize(c, font))
      ensures b == InkShare(rasterize(c, font))
    {
      var booleanArr := rasterize(c, font);
      var countTrue := 0;
      for i := 0 to DefaultResolution
        invariant countTrue == GlyphInk(booleanArr, i)
      {
        for j := 0 to DefaultResolution
          invariant countTrue == GlyphInk(booleanArr, i) + RowInk(booleanArr[i], j)
        {
          if booleanArr[i][j] {
            countTrue := countTrue + 1;
          }
        }
      }
      b := countTrue as real / (DefaultResolution * DefaultResolution) as real;
    }

    /**
     * `normalBrightness`: every current brightness v becomes (v - min) / (max - min), min and
     * max taken over the current map before the change.
     */
    method NormalBrightness()
      requires Valid() && AllFinite(curKeys, curBrightness)
      requires forall i :: 0 <= i < |curKeys| ==> curBrightness[curKeys[i]].value >= 0.0
      modifies this
      ensures Valid() && Normalized()
      ensures curKeys == old(curKeys) && asciiBrightness == old(asciiBrightness) && rendered == old(rendered)
      ensures tileBrightness == old(tileBrightness) && measured == old(measured)
      ensures forall c :: c in curBrightness <==> c in old(curBrightness)
      ensures |curKeys| > 0 ==> forall j :: 0 <= j < |curKeys| ==>
        curBrightness[curKeys[j]] == Normalize(old(Raw())[j], Lowest(old(Raw())), Highest(old(Raw())))
    {
      var minBrightness := GetMinBrightness();
      var maxBrightness := GetMaxBrightness();
      ghost var raw := Raw();
      curBrightness := Rescale(curKeys, curBrightness, minBrightness, maxBrightness, raw);
      if minBrightness == maxBrightness {
        assert AllNaN(curKeys, curBrightness);
      } else {
        assert AllFinite(curKeys, curBrightness);
      }
    }

    /**
     * The loop of `normalBrightness`: each key's value v, in iteration order, is replaced by
     * (v - min) / (max - min).
     */
    static method Rescale(keys: seq<char>, m: map<char, Double>, minBrightness: real, maxBrightness: real,
                          ghost raw: seq<real>) returns (updated: map<char, Double>)
      requires Distinct(keys) && |raw| == |keys|
      requires forall j :: 0 <= j < |keys| ==> keys[j] in m && m[keys[j]] == Finite(raw[j])
      requires forall j :: 0 <= j < |keys| ==> minBrightness <= raw[j] <= maxBrightness
      ensures forall c :: c in updated <==> c in m
      ensures forall j :: 0 <= j < |keys| ==> updated[keys[j]] == Normalize(raw[j], minBrightness, maxBrightness)
    {
      var maxSubMin := maxBrightness - minBrightness;
      updated := m;
      for i := 0 to |keys|
        invariant forall c :: c in updated <==> c in m
        invariant forall j :: 0 <= j < i ==> updated[keys[j]] == Normalize(raw[j], minBrightness, maxBrightness)
        invariant forall j :: i <= j < |keys| ==> updated[keys[j]] == Finite(raw[j])
      {
        var key := keys[i];
        assert updated[key] == Finite(raw[i]);
        var v := updated[key].value;
        // A zero denominator comes with a zero numerator, v lying between min and max:
        // 0.0 / 0.0 is NaN.
        var newCharBrightness := if maxSubMin == 0.0 then NaN else Finite((v - minBrightness) / maxSubMin);
        NormalizeByDifference(v, minBrightness, maxBrightness, maxSubMin);
        ghost var before := updated;
        updated := updated[key := newCharBrightness];
        forall j | 0 <= j < |keys| && j != i
          ensures updated[keys[j]] == before[keys[j]]
        {
          assert keys[j] != key;
        }
      }
    }

    /** `getMinBrightness`: the least current brightness, or the sentinel -1 for an empty map. */
    method GetMinBrightness() returns (min: real)
      requires AllFinite(curKeys, curBrightness)
      requires forall i :: 0 <= i < |curKeys| ==> curBrightness[curKeys[i]].value >= 0.0
      ensures |curKeys| == 0 ==> min == -1.0
      ensures |curKeys| > 0 ==> min == Lowest(Raw())
    {
      min := -1.0;
      for i := 0 to |curKeys|
        invariant i == 0 ==> min == -1.0
        invariant i > 0 ==> min == Lowest(Raw()[..i])
      {
        var v := curBrightness[curKeys[i]].value;
        if min == -1.0 || v < min {
          min := v;
        }
        assert Raw()[..i + 1][..i] == Raw()[..i];
      }
      assert Raw()[..|curKeys|] == Raw();
    }

    /** `getMaxBrightness`: the greatest current brightness, or the sentinel -1 for an empty map. */
    method GetMaxBrightness() returns (max: real)
      requires AllFinite(curKeys, curBrightness)
      requires forall i :: 0 <= i < |curKeys| ==> curBrightness[curKeys[i]].value >= 0.0
      ensures |curKeys| == 0 ==> max == -1.0
      ensures |curKeys| > 0 ==> max == Highest(Raw())
    {
      max := -1.0;
      for i := 0 to |curKeys|
        invariant i == 0 ==> max == -1.0
        invariant i > 0 ==> max == Highest(Raw()[..i])
      {
        var v := curBrightness[curKeys[i]].value;
        if max == -1.0 || v > max {
          max := v;
        }
        assert Raw()[..i + 1][..i] == Raw()[..i];
      }
      assert Raw()[..|curKeys|] == Raw();
    }

    /**
     * `convertToAsciiChars`: the tiles of side s = width / numCharsInRow, in row-major order,
     * the k-th written to row k / numCharsInRow and column k % numCharsInRow.
     */
    method ConvertToAsciiChars(numCharsInRow: int) returns (asciiChars: array2<char>)
      requires Valid() && Normalized() && img.FileImg? && img.file.Valid()
      requires 1 <= numCharsInRow <= Width(img) && Width(img) % numCharsInRow == 0
      modifies this
      ensures Valid() && CacheGrows()
      ensures curKeys == old(curKeys) && curBrightness == old(curBrightness)
      ensures asciiBrightness == old(asciiBrightness) && rendered == old(rendered)
      ensures var s := Width(img) / numCharsInRow;
              fresh(asciiChars) && asciiChars.Length0 == Height(img) / s && asciiChars.Length1 == numCharsInRow &&
              forall r, c :: 0 <= r < asciiChars.Length0 && 0 <= c < asciiChars.Length1 ==>
                asciiChars[r, c] == BestChar(curKeys, curBrightness, TileBrightness(SubImg(img, s, r, c)))
    {
      var n := numCharsInRow;
      var sizeOfEachSubImg := Width(img) / n;
      var numCharsInCol := Height(img) / sizeOfEachSubImg;
      asciiChars := new char[numCharsInCol, n];
      TilesPerRow(Width(img), n);
      ghost var s := sizeOfEachSubImg;
      assert PerRow(img, s) == n && RowsOf(img, s) == numCharsInCol;
      var tiles := GetSubImages(img, Width(img) / n);
      var it := tiles.Iterator();
      FillGrid(it, asciiChars, sizeOfEachSubImg, curKeys, curBrightness);
      FilledGrid(asciiChars, s, curKeys, curBrightness);
    }

    /**
     * The loop of `convertToAsciiChars`: each tile the iterator yields is matched, the k-th
     * written to row k / n and column k % n of the grid, n being its width.
     */
    method FillGrid(it: PropertyIterator<Image>, asciiChars: array2<char>, s: int,
                    ghost keys: seq<char>, ghost cur: map<char, Double>)
      requires Valid() && img.FileImg? && img.file.Valid() && curKeys == keys && curBrightness == cur
      requires AllFinite(keys, cur) || AllNaN(keys, cur)
      requires it.Valid() && it.img == img && it.propertySupplier == TileSupplier(img, s) && it.size == s
      requires it.Position() == 0
      requires 1 <= s <= Width(img) && 0 <= Height(img)
      requires PerRow(img, s) == asciiChars.Length1 && RowsOf(img, s) == asciiChars.Length0
      modifies this, it, asciiChars
      ensures Valid() && CacheGrows() && curKeys == keys && curBrightness == cur
      ensures asciiBrightness == old(asciiBrightness) && rendered == old(rendered)
      ensures Filled(asciiChars, asciiChars.Length0 * asciiChars.Length1, s, keys, cur)
    {
      var n, numCharsInCol := asciiChars.Length1, asciiChars.Length0;
      FileImageReadable(img.file);
      var subImageCounter := 0;
      ghost var total := numCharsInCol * n;
      assert |it.Elements()| == total;
      while it.HasNext()
        invariant it.Valid() && it.img == img && it.propertySupplier == TileSupplier(img, s) && it.size == s
        invariant subImageCounter == it.Position() <= total
        invariant Valid() && CacheGrows() && curKeys == keys && curBrightness == cur
        invariant asciiBrightness == old(asciiBrightness) && rendered == old(rendered)
        invariant Filled(asciiChars, subImageCounter, s, keys, cur)
        decreases total - subImageCounter
      {
        var subImg := NextTile(it, img, s, n, numCharsInCol);
        TileReadable(img, s, subImageCounter / n, subImageCounter % n);
        ghost var tilesBefore := tileBrightness;
        var finalChar := MatchTile(subImg, s);
        ExtendsTransitive(old(tileBrightness), tilesBefore, tileBrightness);
        WriteCell(asciiChars, subImageCounter, s, finalChar, keys, cur);
        subImageCounter := subImageCounter + 1;
      }
    }

    /**
     * The grid's cells before position k in row-major order hold the best character for the
     * brightness of their tile of side s.
     */
    ghost predicate Filled(a: array2<char>, k: int, s: int, keys: seq<char>, cur: map<char, Double>)
      reads a
      requires s >= 1 && (AllFinite(keys, cur) || AllNaN(keys, cur))
    {
      forall r, c :: 0 <= r < a.Length0 && 0 <= c < a.Length1 && r * a.Length1 + c < k ==>
        a[r, c] == BestChar(keys, cur, TileBrightness(SubImg(img, s, r, c)))
    }

    /** A grid filled up to its last position is filled everywhere. */
    lemma FilledGrid(a: array2<char>, s: int, keys: seq<char>, cur: map<char, Double>)
      requires s >= 1 && (AllFinite(keys, cur) || AllNaN(keys, cur))
      requires Filled(a, a.Length0 * a.Length1, s, keys, cur)
      ensures forall r, c :: 0 <= r < a.Length0 && 0 <= c < a.Length1 ==>
        a[r, c] == BestChar(keys, cur, TileBrightness(SubImg(img, s, r, c)))
    {
      forall r, c | 0 <= r < a.Length0 && 0 <= c < a.Length1
        ensures a[r, c] == BestChar(keys, cur, TileBrightness(SubImg(img, s, r, c)))
      {
        RowMajorBefore(c, r, a.Length1, a.Length0);
      }
    }

    /**
     * The write in the loop of `convertToAsciiChars`: the character of the k-th tile goes to
     * row k / n and column k % n of the grid, n being its width.
     */
    method WriteCell(asciiChars: array2<char>, k: int, s: int, finalChar: char,
                     ghost keys: seq<char>, ghost cur: map<char, Double>)
      requires s >= 1 && (AllFinite(keys, cur) || AllNaN(keys, cur))
      requires 0 <= k < asciiChars.Length0 * asciiChars.Length1 && Filled(asciiChars, k, s, keys, cur)
      requires var n := asciiChars.Length1;
               finalChar == BestChar(keys, cur, TileBrightness(SubImg(img, s, k / n, k % n)))
      modifies asciiChars
      ensures Filled(asciiChars, k + 1, s, keys, cur)
    {
      var n, rows := asciiChars.Length1, asciiChars.Length0;
      GridCell(k, rows, n);
      var row, col := k / n, k % n;
      label Before:
      asciiChars[row, col] := finalChar;
      forall r, c | 0 <= r < rows && 0 <= c < n && r * n + c <= k
        ensures asciiChars[r, c] == BestChar(keys, cur, TileBrightness(SubImg(img, s, r, c)))
      {
        if r * n + c == k {
          RowMajor(c, r, n);
        } else {
          assert r != row || c != col;
          assert asciiChars[r, c] == old@Before(asciiChars[r, c]);
        }
      }
    }

    /**
     * The iterator's step in the loop of `convertToAsciiChars`: the k-th tile, which lies in
     * row k / n and column k % n of the grid, inside the image.
     */
    static method NextTile(it: PropertyIterator<Image>, img: Image, s: int, n: int, rows: int) returns (subImg: Image)
      requires it.Valid() && it.img == img && it.propertySupplier == TileSupplier(img, s) && it.size == s
      requires 1 <= s <= Width(img) && 0 <= Height(img) && PerRow(img, s) == n && RowsOf(img, s) == rows
      requires it.Position() < rows * n
      modifies it
      ensures it.Valid() && it.Position() == old(it.Position()) + 1
      ensures var k := old(it.Position());
              subImg == SubImg(img, s, k / n, k % n) && TileInside(img, s, k / n, k % n)
    {
      ghost var k := it.Position();
      var next := it.Next();
      subImg := next.value;
      SubImagesInRowMajorOrder(img, s, k);
      SubImagesInside(img, s, k);
    }

    /**
     * One pass of the loop of `convertToAsciiChars`: the tile's brightness, from the cache or
     * else measured once and cached, then the best character for it.
     */
    method MatchTile(subImg: Image, sizeSubImg: int) returns (finalChar: char)
      requires Valid() && Normalized()
      requires subImg.SubImg? && subImg.size == sizeSubImg >= 1
      requires Readable(subImg) && Source(subImg).Valid()
      modifies this
      ensures Valid() && CacheGrows()
      ensures curKeys == old(curKeys) && curBrightness == old(curBrightness)
      ensures asciiBrightness == old(asciiBrightness) && rendered == old(rendered)
      ensures finalChar == BestChar(curKeys, curBrightness, TileBrightness(subImg))
    {
      var val: real;
      if subImg in tileBrightness {
        val := tileBrightness[subImg];
      } else {
        val := ConvertSingleImgToDouble(subImg, sizeSubImg);
        tileBrightness := tileBrightness[subImg := val];
        measured := measured + [subImg];
      }
      finalChar := FindBestChar(val);
    }

    /**
     * `convertSingleImgToDouble`: the grey level of every pixel of the tile, summed row by
     * row, over width * height * 255; a value in [0, 1].
     */
    method ConvertSingleImgToDouble(subImg: Image, sizeSubImg: int) returns (b: real)
      requires Width(subImg) == sizeSubImg && Height(subImg) == sizeSubImg && sizeSubImg >= 1
      requires Readable(subImg) && Source(subImg).Valid()
      ensures b == TileBrightness(subImg)
      ensures 0.0 <= b <= 1.0
    {
      var greyPixelArr := GreyPixels(subImg, sizeSubImg);
      var sumGray := SumGrey(subImg, greyPixelArr);
      b := sumGray / (Width(subImg) * Height(subImg) * MaxRgbVal) as real;
      TileBrightnessBounds(subImg);
    }

    /** The first loop nest: `greyPixelArr[i][j]` is the grey level of pixel (j, i). */
    static method GreyPixels(subImg: Image, sizeSubImg: int) returns (greyPixelArr: array2<real>)
      requires sizeSubImg >= 0
      requires forall x, y :: 0 <= x < sizeSubImg && 0 <= y < sizeSubImg ==> HasPixel(subImg, x, y)
      ensures fresh(greyPixelArr) && greyPixelArr.Length0 == sizeSubImg && greyPixelArr.Length1 == sizeSubImg
      ensures forall i, j :: 0 <= i < sizeSubImg && 0 <= j < sizeSubImg ==> greyPixelArr[i, j] == GrayAt(subImg, j, i)
    {
      greyPixelArr := new real[sizeSubImg, sizeSubImg];
      for i := 0 to sizeSubImg
        invariant forall r, c :: 0 <= r < i && 0 <= c < sizeSubImg ==> greyPixelArr[r, c] == GrayAt(subImg, c, r)
      {
        for j := 0 to sizeSubImg
          invariant forall r, c :: 0 <= r < i && 0 <= c < sizeSubImg ==> greyPixelArr[r, c] == GrayAt(subImg, c, r)
          invariant forall c :: 0 <= c < j ==> greyPixelArr[i, c] == GrayAt(subImg, c, i)
        {
          greyPixelArr[i, j] := Gray(GetPixel(subImg, j, i));
        }
      }
    }

    /** The second loop nest: the grey levels summed, row after row. */
    static method SumGrey(subImg: Image, greyPixelArr: array2<real>) returns (sumGray: real)
      requires greyPixelArr.Length0 == greyPixelArr.Length1
      requires forall i, j :: 0 <= i < greyPixelArr.Length0 && 0 <= j < greyPixelArr.Length1 ==>
        greyPixelArr[i, j] == GrayAt(subImg, j, i)
      ensures sumGray == GridGray(subImg, greyPixelArr.Length0, greyPixelArr.Length1)
    {
      var size := greyPixelArr.Length0;
      sumGray := 0.0;
      for i := 0 to size
        invariant sumGray == GridGray(subImg, i, size)
      {
        for j := 0 to size
          invariant sumGray == GridGray(subImg, i, size) + RowGray(subImg, i, j)
        {
          sumGray := sumGray + greyPixelArr[i, j];
        }
      }
    }

    /**
     * `findBestChar`: the first character whose brightness equals val, if any; otherwise a
     * scan keeping the first character strictly closer than all before it. This is `BestChar`.
     */
    method FindBestChar(val: real) returns (ch: char)
      requires Valid() && Normalized()
      ensures ch == BestChar(curKeys, curBrightness, val)
    {
      if Finite(val) in curBrightness.Values {
        for i := 0 to |curKeys|
          invariant forall j :: 0 <= j < i ==> curBrightness[curKeys[j]] != Finite(val)
        {
          if curBrightness[curKeys[i]] == Finite(val) {
            ExactMatchWins(curKeys, curBrightness, val, i);
            return curKeys[i];
          }
        }
      }
      var closestChar := ' ';
      var sub: Double := Finite(0.0);
      var start := true;
      for i := 0 to |curKeys|
        invariant start <==> i == 0
        invariant i == 0 ==> closestChar == ' '
        invariant i > 0 && AllFinite(curKeys, curBrightness) ==>
          var r := ClosestIndex(curKeys, curBrightness, val, i);
          closestChar == curKeys[r] && sub == Finite(Dist(curKeys, curBrightness, val, r))
        invariant i > 0 && AllNaN(curKeys, curBrightness) ==> closestChar == curKeys[0] && sub == NaN
      {
        var b := curBrightness[curKeys[i]];
        var diff := if b.NaN? then NaN else Finite(Abs(val - b.value));
        if start || (diff.Finite? && sub.Finite? && diff.value < sub.value) {
          sub := diff;
          closestChar := curKeys[i];
          start := false;
        }
      }
      return closestChar;
    }
  }

  /** With n dividing the width w, tiles of side w / n make n tiles per row. */
  lemma TilesPerRow(w: int, n: int)
    requires 1 <= n <= w && w % n == 0
    ensures 1 <= w / n <= w && w / (w / n) == n
  {
    var s := w / n;
    assert w == s * n;
    RowMajor(0, n, s);
    MulMonotone(1, n, s);
  }

  /** Tile k of a grid of rows-by-n lands at row k / n and column k % n, inside the grid. */
  lemma GridCell(k: int, rows: int, n: int)
    requires 1 <= n && 0 <= rows && 0 <= k < rows * n
    ensures 0 <= k / n < rows && 0 <= k % n < n && (k / n) * n + k % n == k
  {
    RowMajorBound(k, rows, n);
  }
}
