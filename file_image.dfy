/**
 * An image read from a file (Ex04-ASCII-Art/image/FileImage.java): the picture is placed,
 * centred, on a white canvas whose width and height are the next powers of two.
 *
 * The decoded file is given as its grid of packed ARGB ints, `im[i][j]` being the pixel in
 * row i and column j (what `BufferedImage.getRGB(j, i)` returns); reading the file is not
 * part of this model.
 */
module FileImages {

  /** A `java.awt.Color` reduced to the channels the program reads, each 0..255. */
  datatype Color = Color(red: int, green: int, blue: int)

  predicate IsChannel(v: int)
  {
    0 <= v < 256
  }

  predicate IsColor(c: Color)
  {
    IsChannel(c.red) && IsChannel(c.green) && IsChannel(c.blue)
  }

  /** `Color.WHITE`, the colour of the padding. */
  const White: Color := Color(255, 255, 255)

  /** `new Color(rgb)`: the red, green and blue bytes of a packed ARGB int; alpha is dropped. */
  function ColorOf(rgb: int): (c: Color)
    ensures IsColor(c)
  {
    Color((rgb / 0x1_0000) % 0x100, (rgb / 0x100) % 0x100, rgb % 0x100)
  }

  /** The Java int that packs alpha, red, green and blue bytes, as `getRGB` returns it. */
  function PackArgb(alpha: int, c: Color): (rgb: int)
    requires IsChannel(alpha) && IsColor(c)
    ensures -0x8000_0000 <= rgb < 0x8000_0000
  {
    var unsigned := ((alpha * 0x100 + c.red) * 0x100 + c.green) * 0x100 + c.blue;
    if unsigned >= 0x8000_0000 then unsigned - 0x1_0000_0000 else unsigned
  }

  /** Decoding a packed pixel gives back its colour, whatever its alpha byte. */
  lemma ColorOfPackArgb(alpha: int, c: Color)
    requires IsChannel(alpha) && IsColor(c)
    ensures ColorOf(PackArgb(alpha, c)) == c
  {
    var gb := c.green * 0x100 + c.blue;
    var rgb := c.red * 0x1_0000 + gb;
    var unsigned := alpha * 0x100_0000 + rgb;
    assert unsigned == ((alpha * 0x100 + c.red) * 0x100 + c.green) * 0x100 + c.blue;
    var a' := if unsigned >= 0x8000_0000 then alpha - 0x100 else alpha;
    assert PackArgb(alpha, c) == a' * 0x100_0000 + rgb;
    assert PackArgb(alpha, c) / 0x1_0000 == a' * 0x100 + c.red;
    assert PackArgb(alpha, c) / 0x100 == (a' * 0x100 + c.red) * 0x100 + c.green;
    assert PackArgb(alpha, c) == ((a' * 0x100 + c.red) * 0x100 + c.green) * 0x100 + c.blue;
  }

  /** n is 2^k for some k >= 0. */
  predicate IsPowerOfTwo(n: int)
    decreases if n < 0 then 0 else n
  {
    n == 1 || (n >= 2 && n % 2 == 0 && IsPowerOfTwo(n / 2))
  }

  /** Of two distinct powers of two, the larger is at least twice the smaller. */
  lemma {:induction false} PowerGap(p: int, q: int)
    requires IsPowerOfTwo(p) && IsPowerOfTwo(q) && p < q
    ensures 2 * p <= q
    decreases q
  {
    if p != 1 {
      PowerGap(p / 2, q / 2);
    }
  }

  /** The first of p, 2p, 4p, ... that is at least n. */
  function PowerAtLeast(n: int, p: int): (r: int)
    requires IsPowerOfTwo(p)
    ensures IsPowerOfTwo(r) && n <= r && p <= r
    ensures r == p || r < 2 * n
    decreases if n > p then n - p else 0
  {
    if p >= n then p else PowerAtLeast(n, 2 * p)
  }

  /** Doubling from a power of two below a power of two n reaches n exactly. */
  lemma {:induction false} PowerAtLeastHits(n: int, p: int)
    requires IsPowerOfTwo(p) && IsPowerOfTwo(n) && p <= n
    ensures PowerAtLeast(n, p) == n
    decreases n - p
  {
    if p < n {
      PowerGap(p, n);
      PowerAtLeastHits(n, 2 * p);
    }
  }

  /**
   * `getNextExp`: `number` itself when it is a power of two, otherwise the smallest power of
   * two above it; 0 for a number below 1 (the logarithm is then infinite or undefined).
   */
  function NextExp(number: int): (r: int)
    ensures number < 1 ==> r == 0
    ensures number >= 1 ==> IsPowerOfTwo(r) && number <= r < 2 * number
    ensures number >= 1 ==> forall q :: IsPowerOfTwo(q) && number <= q ==> r <= q
    ensures IsPowerOfTwo(number) ==> r == number
  {
    if number < 1 then 0
    else
      var r := PowerAtLeast(number, 1);
      assert forall q :: IsPowerOfTwo(q) && number <= q ==> r <= q by {
        forall q | IsPowerOfTwo(q) && number <= q
          ensures r <= q
        {
          if q < r {
            PowerGap(q, r);
          }
        }
      }
      if IsPowerOfTwo(number) then PowerAtLeastHits(number, 1); r else r
  }

  /**
   * The canvas of the constructor: `newHeight` rows of `newWidth` pixels, the picture copied
   * with its top-left corner at (rowsToAdd / 2, colsToAdd / 2) and white everywhere else.
   */
  function Padded(im: seq<seq<int>>, origWidth: nat, newWidth: nat, newHeight: nat): (canvas: seq<seq<Color>>)
    requires forall i :: 0 <= i < |im| ==> |im[i]| == origWidth
    requires |im| <= newHeight && origWidth <= newWidth
    ensures |canvas| == newHeight && forall r :: 0 <= r < newHeight ==> |canvas[r]| == newWidth
    ensures var rowOff, colOff := (newHeight - |im|) / 2, (newWidth - origWidth) / 2;
            forall i, j :: 0 <= i < |im| && 0 <= j < origWidth ==>
              canvas[i + rowOff][j + colOff] == ColorOf(im[i][j])
    ensures var rowOff, colOff := (newHeight - |im|) / 2, (newWidth - origWidth) / 2;
            forall r, c ::
              (0 <= r < newHeight && 0 <= c < newWidth &&
               !(rowOff <= r < rowOff + |im| && colOff <= c < colOff + origWidth)) ==> canvas[r][c] == White
  {
    var rowOff, colOff := (newHeight - |im|) / 2, (newWidth - origWidth) / 2;
    seq(newHeight, r requires 0 <= r < newHeight =>
      seq(newWidth, c requires 0 <= c < newWidth =>
        if rowOff <= r < rowOff + |im| && colOff <= c < colOff + origWidth
        then ColorOf(im[r - rowOff][c - colOff]) else White))
  }

  /**
   * An image file on a padded canvas. `width` and `height` are the canvas's, and
   * `pixelArray[y][x]` is the pixel in row y and column x. Nothing changes after construction.
   */
  class FileImage {
    const width: nat
    const height: nat
    const pixelArray: seq<seq<Color>>

    /** The canvas has the advertised shape, and every pixel is a colour. */
    ghost predicate Valid()
    {
      |pixelArray| == height && (forall r :: 0 <= r < height ==> |pixelArray[r]| == width) &&
      forall r, c :: 0 <= r < height && 0 <= c < width ==> IsColor(pixelArray[r][c])
    }

    /**
     * `FileImage(filename)` on the decoded picture `im` (rows of `origWidth` pixels): the canvas
     * is NextExp(origWidth) by NextExp(origHeight), so both sides are powers of two for a
     * non-empty picture, and holds the picture centred on white.
     */
    constructor (im: seq<seq<int>>, origWidth: nat)
      requires forall i :: 0 <= i < |im| ==> |im[i]| == origWidth
      ensures Valid()
      ensures width == NextExp(origWidth) && height == NextExp(|im|)
      ensures origWidth >= 1 ==> IsPowerOfTwo(width)
      ensures |im| >= 1 ==> IsPowerOfTwo(height)
      ensures pixelArray == Padded(im, origWidth, width, height)
    {
      var origHeight := |im|;
      var newWidth := NextExp(origWidth);
      var newHeight := NextExp(origHeight);
      width := newWidth;
      height := newHeight;
      var canvas := PaintCanvas(im, origWidth, newWidth, newHeight);
      pixelArray := canvas;
    }

    /**
     * The constructor's two loop nests: fill a newHeight-by-newWidth array with white, then copy
     * pixel (i, j) of the picture to (i + rowsToAdd / 2, j + colsToAdd / 2).
     */
    static method PaintCanvas(im: seq<seq<int>>, origWidth: nat, newWidth: nat, newHeight: nat)
      returns (canvas: seq<seq<Color>>)
      requires forall i :: 0 <= i < |im| ==> |im[i]| == origWidth
      requires |im| <= newHeight && origWidth <= newWidth
      ensures canvas == Padded(im, origWidth, newWidth, newHeight)
    {
      var origHeight := |im|;
      var arr := new Color[newHeight, newWidth];
      var rowsToAdd := newHeight - origHeight;
      var colsToAdd := newWidth - origWidth;
      FillWhite(arr);
      var rowOff, colOff := rowsToAdd / 2, colsToAdd / 2;
      for i := 0 to origHeight
        invariant forall r, c :: 0 <= r < newHeight && 0 <= c < newWidth ==>
          arr[r, c] == if rowOff <= r < rowOff + i && colOff <= c < colOff + origWidth
                       then ColorOf(im[r - rowOff][c - colOff]) else White
      {
        CopyRow(arr, im[i], i + rowOff, colOff);
      }
      canvas := Freeze(arr);
      IsPadded(canvas, im, origWidth, newWidth, newHeight);
    }

    /** A canvas of the right shape holding the picture centred on white is `Padded`'s. */
    static lemma IsPadded(canvas: seq<seq<Color>>, im: seq<seq<int>>, origWidth: nat, newWidth: nat, newHeight: nat)
      requires forall i :: 0 <= i < |im| ==> |im[i]| == origWidth
      requires |im| <= newHeight && origWidth <= newWidth
      requires |canvas| == newHeight && forall r :: 0 <= r < newHeight ==> |canvas[r]| == newWidth
      requires var rowOff, colOff := (newHeight - |im|) / 2, (newWidth - origWidth) / 2;
               forall r, c :: 0 <= r < newHeight && 0 <= c < newWidth ==>
                 canvas[r][c] == if rowOff <= r < rowOff + |im| && colOff <= c < colOff + origWidth
                                 then ColorOf(im[r - rowOff][c - colOff]) else White
      ensures canvas == Padded(im, origWidth, newWidth, newHeight)
    {
      var expected := Padded(im, origWidth, newWidth, newHeight);
      assert forall r :: 0 <= r < newHeight ==> canvas[r] == expected[r];
    }

    /** The rows of a two-dimensional array, as a sequence of sequences. */
    static method Freeze(arr: array2<Color>) returns (rows: seq<seq<Color>>)
      ensures |rows| == arr.Length0
      ensures forall r :: 0 <= r < arr.Length0 ==> |rows[r]| == arr.Length1
      ensures forall r, c :: 0 <= r < arr.Length0 && 0 <= c < arr.Length1 ==> rows[r][c] == arr[r, c]
    {
      rows := seq(arr.Length0, r requires 0 <= r < arr.Length0 reads arr =>
        seq(arr.Length1, c requires 0 <= c < arr.Length1 reads arr => arr[r, c]));
    }

    /** The first loop nest: every cell of `arr` becomes white. */
    static method FillWhite(arr: array2<Color>)
      modifies arr
      ensures forall r, c :: 0 <= r < arr.Length0 && 0 <= c < arr.Length1 ==> arr[r, c] == White
    {
      for i := 0 to arr.Length0
        invariant forall r, c :: 0 <= r < i && 0 <= c < arr.Length1 ==> arr[r, c] == White
      {
        for j := 0 to arr.Length1
          invariant forall r, c :: 0 <= r < i && 0 <= c < arr.Length1 ==> arr[r, c] == White
          invariant forall c :: 0 <= c < j ==> arr[i, c] == White
        {
          arr[i, j] := White;
        }
      }
    }

    /** One pass of the second loop nest: picture row `row` goes to canvas row `r0` from column `c0`. */
    static method CopyRow(arr: array2<Color>, row: seq<int>, r0: nat, c0: nat)
      requires r0 < arr.Length0 && c0 + |row| <= arr.Length1
      modifies arr
      ensures forall r, c :: 0 <= r < arr.Length0 && 0 <= c < arr.Length1 ==>
        arr[r, c] == if r == r0 && c0 <= c < c0 + |row| then ColorOf(row[c - c0]) else old(arr[r, c])
    {
      for j := 0 to |row|
        invariant forall r, c :: 0 <= r < arr.Length0 && 0 <= c < arr.Length1 ==>
          arr[r, c] == if r == r0 && c0 <= c < c0 + j then ColorOf(row[c - c0]) else old(arr[r, c])
      {
        arr[r0, j + c0] := ColorOf(row[j]);
      }
    }

    /** `getPixel(x, y)`: the pixel in column x of row y. */
    function GetPixel(x: int, y: int): (c: Color)
      requires 0 <= y < |pixelArray| && 0 <= x < |pixelArray[y]|
      ensures c == pixelArray[y][x]
    {
      pixelArray[y][x]
    }

    function GetWidth(): (w: nat)
      ensures w == width
    {
      width
    }

    function GetHeight(): (h: nat)
      ensures h == height
    {
      height
    }
  }

  /**
   * Pixel (x, y) of an image built from the picture `im`: inside the centred picture it is the
   * picture's pixel in column x - colOff of row y - rowOff; in the margin it is white.
   */
  lemma PixelOfPicture(f: FileImage, im: seq<seq<int>>, origWidth: nat, x: int, y: int)
    requires forall i :: 0 <= i < |im| ==> |im[i]| == origWidth
    requires f.width == NextExp(origWidth) && f.height == NextExp(|im|)
    requires f.pixelArray == Padded(im, origWidth, f.width, f.height)
    requires 0 <= x < f.width && 0 <= y < f.height
    ensures var rowOff, colOff := (f.height - |im|) / 2, (f.width - origWidth) / 2;
            f.GetPixel(x, y) == if rowOff <= y < rowOff + |im| && colOff <= x < colOff + origWidth
                                then ColorOf(im[y - rowOff][x - colOff]) else White
  {
  }
}
