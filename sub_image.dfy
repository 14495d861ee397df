/**
 * Square tiles (Ex04-ASCII-Art/image/SubImage.java): where a tile's pixels come from, its
 * `equals` and its `hashCode`.
 */
module SubImages {
  import opened FileImages
  import opened Images

  /** A tile of a file image reads the canvas at (numRow * size + y, numCol * size + x). */
  lemma TilePixel(f: FileImage, size: int, numRow: int, numCol: int, x: int, y: int)
    requires 0 <= numRow * size + y < |f.pixelArray| && 0 <= numCol * size + x < |f.pixelArray[numRow * size + y]|
    ensures HasPixel(SubImg(FileImg(f), size, numRow, numCol), x, y)
    ensures GetPixel(SubImg(FileImg(f), size, numRow, numCol), x, y) == f.pixelArray[numRow * size + y][numCol * size + x]
  {
  }

  /** A tile is square: its width and its height are both `size`. */
  lemma TileIsSquare(t: Image)
    requires t.SubImg?
    ensures Width(t) == t.size && Height(t) == t.size
  {
  }

  /** The tile in tile-row numRow and tile-column numCol lies inside its parent. */
  predicate TileInside(parent: Image, size: int, numRow: int, numCol: int)
  {
    size >= 1 && 0 <= numRow && 0 <= numCol &&
    (numRow + 1) * size <= Height(parent) && (numCol + 1) * size <= Width(parent)
  }

  /** Every pixel of a tile that lies inside a readable image can be read. */
  lemma TileReadable(parent: Image, size: int, numRow: int, numCol: int)
    requires Readable(parent) && TileInside(parent, size, numRow, numCol)
    ensures Readable(SubImg(parent, size, numRow, numCol))
  {
    forall x, y | 0 <= x < size && 0 <= y < size
      ensures HasPixel(SubImg(parent, size, numRow, numCol), x, y)
    {
      assert numCol * size + x < (numCol + 1) * size;
      assert numRow * size + y < (numRow + 1) * size;
    }
  }

  /**
   * `equals`, as the receiver `a` defines it: a file image is equal only to itself (it keeps
   * `Object.equals`); a tile is equal to a tile with an equal parent and the same size, row
   * and column. Pixels are never compared.
   */
  function Equals(a: Image, b: Image): (r: bool)
    ensures r <==> a == b
  {
    match a
    case FileImg(f) => b.FileImg? && b.file == f
    case SubImg(img, size, numRow, numCol) =>
      b.SubImg? && Equals(img, b.img) && size == b.size && numRow == b.numRow && numCol == b.numCol
  }

  /** Equality is reflexive, symmetric and transitive. */
  lemma EqualsIsEquivalence(a: Image, b: Image, c: Image)
    ensures Equals(a, a)
    ensures Equals(a, b) == Equals(b, a)
    ensures Equals(a, b) && Equals(b, c) ==> Equals(a, c)
  {
  }

  /** Tiles of two different file images are different, even when the two canvases are identical. */
  lemma ParentIdentityMatters(f: FileImage, g: FileImage, size: int, numRow: int, numCol: int)
    requires f != g && f.pixelArray == g.pixelArray
    ensures !Equals(SubImg(FileImg(f), size, numRow, numCol), SubImg(FileImg(g), size, numRow, numCol))
  {
  }

  /** Java int arithmetic: x reduced to the 32-bit two's complement range. */
  function Wrap32(x: int): (r: int)
    ensures -0x8000_0000 <= r < 0x8000_0000
    ensures (r - x) % 0x1_0000_0000 == 0
  {
    (x + 0x8000_0000) % 0x1_0000_0000 - 0x8000_0000
  }

  /** One step of `Arrays.hashCode`: `31 * result + hash(element)` in int arithmetic. */
  function HashStep(result: int, elementHash: int): int
  {
    Wrap32(31 * result + elementHash)
  }

  /**
   * `hashCode`: a file image has its identity hash (given as `identityHash`); a tile has
   * `Objects.hash(img, size, numRow, numCol)`, which folds `HashStep` over the four fields from 1.
   */
  function HashCode(img: Image, identityHash: FileImage -> int): (h: int)
    ensures -0x8000_0000 <= h < 0x8000_0000
  {
    match img
    case FileImg(f) => Wrap32(identityHash(f))
    case SubImg(parent, size, numRow, numCol) =>
      HashStep(HashStep(HashStep(HashStep(1, HashCode(parent, identityHash)), size), numRow), numCol)
  }

  /** Equal images have equal hash codes, as `HashMap` keys require. */
  lemma EqualImagesHashEqually(a: Image, b: Image, identityHash: FileImage -> int)
    requires Equals(a, b)
    ensures HashCode(a, identityHash) == HashCode(b, identityHash)
  {
  }
}
