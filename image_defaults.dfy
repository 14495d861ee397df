/**
 * The default methods of the `Image` interface (Ex04-ASCII-Art/image/Image.java): the pixels of
 * an image and its square tiles, each as an `ImageIterableProperty`, and `fromFile`.
 */
module ImageDefaults {
  import opened FileImages
  import opened Images
  import opened SubImages
  import opened ImageIterables

  /** The supplier of `pixels()`: the image's own `getPixel`. */
  function PixelSupplier(img: Image): (int, int) --> Color
  {
    (x: int, y: int) requires HasPixel(img, x, y) => GetPixel(img, x, y)
  }

  /** The supplier of `getSubImages(size)`: `(col, row) -> new SubImage(this, size, row, col)`. */
  function TileSupplier(img: Image, size: int): (int, int) -> Image
  {
    (col: int, row: int) => SubImg(img, size, row, col)
  }

  /**
   * `pixels()` reads every pixel of the image; when the width is not positive the iterator
   * still visits column 0 of every row, which then has no pixel to read.
   */
  predicate PixelsReadable(img: Image)
  {
    Width(img) >= 1 || Height(img) <= 0
  }

  /** `pixels()`: the pixel colours, one cell per pixel. */
  method Pixels(img: Image) returns (p: ImageIterableProperty<Color>)
    requires Readable(img) && PixelsReadable(img)
    ensures p.img == img && p.propertySupplier == PixelSupplier(img) && p.size == 1
    ensures Supplies(p.propertySupplier, p.img, p.size)
  {
    p := new ImageIterableProperty(img, PixelSupplier(img));
  }

  /** `pixels()` yields width * height colours: pixel (k % width, k / width) comes k-th. */
  lemma PixelsInRowMajorOrder(img: Image)
    requires Readable(img) && Width(img) >= 1 && Height(img) >= 0
    ensures Supplies(PixelSupplier(img), img, 1)
    ensures var e := Enumeration(PixelSupplier(img), img, 1);
            |e| == Width(img) * Height(img) &&
            forall k :: 0 <= k < |e| ==>
              (HasPixel(img, k % Width(img), k / Width(img)) && e[k] == GetPixel(img, k % Width(img), k / Width(img)))
  {
    assert PerRow(img, 1) == Width(img);
    var e := Enumeration(PixelSupplier(img), img, 1);
    forall k | 0 <= k < |e|
      ensures HasPixel(img, k % Width(img), k / Width(img))
      ensures e[k] == GetPixel(img, k % Width(img), k / Width(img))
    {
      RowMajorBound(k, RowsOf(img, 1), Width(img));
    }
  }

  /** `getSubImages(size)`: the size-by-size tiles of the image. */
  method GetSubImages(img: Image, size: int) returns (p: ImageIterableProperty<Image>)
    ensures p.img == img && p.propertySupplier == TileSupplier(img, size) && p.size == size
    ensures size != 0 ==> Supplies(p.propertySupplier, p.img, p.size)
  {
    p := new ImageIterableProperty.WithSize(img, TileSupplier(img, size), size);
  }

  /**
   * The k-th tile of `getSubImages(size)` is the tile in row k / c and column k % c, c being
   * the tiles per row (the iterator's x is the column, y the row), and its pixel (0, 0) is the
   * image's pixel ((k % c) * size, (k / c) * size).
   */
  lemma SubImagesInRowMajorOrder(img: Image, size: int, k: int)
    requires size != 0
    requires 0 <= k < |Enumeration(TileSupplier(img, size), img, size)|
    ensures var c := PerRow(img, size);
            var t := Enumeration(TileSupplier(img, size), img, size)[k];
            t == SubImg(img, size, k / c, k % c) &&
            (HasPixel(t, 0, 0) <==> HasPixel(img, (k % c) * size, (k / c) * size)) &&
            (HasPixel(t, 0, 0) ==> GetPixel(t, 0, 0) == GetPixel(img, (k % c) * size, (k / c) * size))
  {
  }

  /**
   * With 1 <= size <= width, the k-th tile lies inside the image, so all its pixels can be read
   * whenever the image's can.
   */
  lemma SubImagesInside(img: Image, size: int, k: int)
    requires 1 <= size <= Width(img) && 0 <= Height(img)
    requires 0 <= k < |Enumeration(TileSupplier(img, size), img, size)|
    ensures var c := PerRow(img, size);
            TileInside(img, size, k / c, k % c)
  {
    var c, rows := PerRow(img, size), RowsOf(img, size);
    RowMajorBound(k, rows, c);
    MulMonotone(k / c + 1, rows, size);
    MulMonotone(k % c + 1, c, size);
    assert c == Width(img) / size;
  }

  /**
   * `fromFile` on a decoded picture: a file image whose sides are powers of two when the
   * picture is not empty. Failing to read the file (`null`) is not part of this model.
   */
  method FromFile(im: seq<seq<int>>, origWidth: nat) returns (img: Image)
    requires forall i :: 0 <= i < |im| ==> |im[i]| == origWidth
    ensures img.FileImg? && img.file.Valid()
    ensures origWidth >= 1 ==> IsPowerOfTwo(Width(img))
    ensures |im| >= 1 ==> IsPowerOfTwo(Height(img))
  {
    var f := new FileImage(im, origWidth);
    img := FileImg(f);
  }
}
