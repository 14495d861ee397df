/**
 * The `Image` interface (Ex04-ASCII-Art/image/Image.java) over its two implementations: an
 * image read from a file, and a square tile of another image (Ex04-ASCII-Art/image/SubImage.java).
 *
 * A tile is a value: its fields never change and its equality is field-wise, so it is a
 * datatype case. A file image is compared by identity, so it stays a reference to a `FileImage`.
 */
module Images {
  import opened FileImages

  datatype Image =
    | FileImg(file: FileImage)
    | SubImg(img: Image, size: int, numRow: int, numCol: int)

  /** `getWidth()`: the canvas width of a file image, the side of a tile. */
  function Width(img: Image): int
  {
    match img
    case FileImg(f) => f.width
    case SubImg(_, size, _, _) => size
  }

  /** `getHeight()`: the canvas height of a file image, the side of a tile. */
  function Height(img: Image): int
  {
    match img
    case FileImg(f) => f.height
    case SubImg(_, size, _, _) => size
  }

  /** `getPixel(x, y)` reads an array element, rather than throwing, for these coordinates. */
  predicate HasPixel(img: Image, x: int, y: int)
  {
    match img
    case FileImg(f) => 0 <= y < |f.pixelArray| && 0 <= x < |f.pixelArray[y]|
    case SubImg(parent, size, numRow, numCol) => HasPixel(parent, numCol * size + x, numRow * size + y)
  }

  /**
   * `getPixel(x, y)`, x the column and y the row. A tile reads its parent at
   * (numCol * size + x, numRow * size + y).
   */
  function GetPixel(img: Image, x: int, y: int): Color
    requires HasPixel(img, x, y)
  {
    match img
    case FileImg(f) => f.GetPixel(x, y)
    case SubImg(parent, size, numRow, numCol) => GetPixel(parent, numCol * size + x, numRow * size + y)
  }

  /** Every pixel (x, y) with x < width and y < height can be read. */
  ghost predicate Readable(img: Image)
  {
    forall x, y :: 0 <= x < Width(img) && 0 <= y < Height(img) ==> HasPixel(img, x, y)
  }

  /** Every pixel of a file image with a well-formed canvas can be read. */
  lemma FileImageReadable(f: FileImage)
    requires f.Valid()
    ensures Readable(FileImg(f))
  {
  }

  /** The image an image's pixels come from: itself, or its tile's parent's source. */
  function Source(img: Image): FileImage
  {
    match img
    case FileImg(f) => f
    case SubImg(parent, _, _, _) => Source(parent)
  }

  /** Every pixel that can be read is a colour, with channels in 0..255. */
  lemma {:induction false} PixelIsColor(img: Image, x: int, y: int)
    requires Source(img).Valid() && HasPixel(img, x, y)
    ensures IsColor(GetPixel(img, x, y))
  {
    match img
    case FileImg(f) =>
    case SubImg(parent, size, numRow, numCol) =>
      PixelIsColor(parent, numCol * size + x, numRow * size + y);
  }
}
