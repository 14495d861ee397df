/**
 * Row-major enumeration of a property of an image (Ex04-ASCII-Art/image/ImageIterableProperty.java):
 * the image is cut into a grid of size-by-size cells and the supplier is applied to each cell's
 * (column, row) coordinates, row after row.
 */
module ImageIterables {
  import opened Wrappers
  import opened Images

  /** Java's int `/`: the quotient rounded toward zero. */
  function JavaDiv(a: int, b: int): (q: int)
    requires b != 0
    ensures a >= 0 && b > 0 ==> q == a / b
    ensures var r := a - q * b;
            (a >= 0 ==> 0 <= r && (r < b || r < -b)) && (a < 0 ==> r <= 0 && (-r < b || -r < -b))
  {
    var na := if a >= 0 then a else -a;
    var nb := if b > 0 then b else -b;
    if (a >= 0) == (b > 0) then na / nb else -(na / nb)
  }

  /** Cells per row of the enumeration: width / size, but at least one (see `Next`). */
  function PerRow(img: Image, size: int): (c: int)
    requires size != 0
    ensures c >= 1
  {
    var w := JavaDiv(Width(img), size);
    if w < 1 then 1 else w
  }

  /** Rows of the enumeration: height / size, or none when that is negative. */
  function RowsOf(img: Image, size: int): (r: nat)
    requires size != 0
  {
    var h := JavaDiv(Height(img), size);
    if h < 0 then 0 else h
  }

  lemma {:induction false} MulMonotone(a: int, b: int, c: int)
    requires a <= b && c >= 0
    ensures a * c <= b * c
    decreases c
  {
    if c > 0 {
      MulMonotone(a, b, c - 1);
      assert a * c == a * (c - 1) + a && b * c == b * (c - 1) + b;
    }
  }

  /** In row-major order, cell (x, y) of rows `c` wide comes at position y * c + x. */
  lemma RowMajor(x: int, y: int, c: int)
    requires 0 <= x < c && 0 <= y
    ensures (y * c + x) / c == y && (y * c + x) % c == x
  {
    var k := y * c + x;
    var q, r := k / c, k % c;
    assert c * (y - q) == r - x;
    if y - q >= 1 {
      MulMonotone(1, y - q, c);
      assert false;
    }
    if q - y >= 1 {
      MulMonotone(1, q - y, c);
      assert false;
    }
  }

  /** Position y * c + x lies in the first `rows` rows exactly when y < rows. */
  lemma RowMajorBefore(x: int, y: int, c: int, rows: int)
    requires 0 <= x < c && 0 <= y
    ensures y * c + x < rows * c <==> y < rows
  {
    if y < rows {
      MulMonotone(y + 1, rows, c);
    } else {
      MulMonotone(rows, y, c);
    }
  }

  /** A position below rows * c lies in one of the first `rows` rows. */
  lemma RowMajorBound(k: int, rows: nat, c: int)
    requires c >= 1 && 0 <= k < rows * c
    ensures 0 <= k / c < rows && 0 <= k % c < c
  {
    RowMajorBefore(k % c, k / c, c, rows);
  }

  /** The supplier can be applied to every cell of the enumeration. */
  ghost predicate Supplies<T>(supplier: (int, int) --> T, img: Image, size: int)
    requires size != 0
  {
    forall x, y :: 0 <= x < PerRow(img, size) && 0 <= y < RowsOf(img, size) ==> supplier.requires(x, y)
  }

  /** What a fresh iterator yields: `supplier(k % perRow, k / perRow)` for every position k. */
  ghost function Enumeration<T>(supplier: (int, int) --> T, img: Image, size: int): (e: seq<T>)
    requires size != 0 && Supplies(supplier, img, size)
    ensures |e| == RowsOf(img, size) * PerRow(img, size)
  {
    var c := PerRow(img, size);
    seq(RowsOf(img, size) * c, k requires 0 <= k < RowsOf(img, size) * c =>
      RowMajorBound(k, RowsOf(img, size), c);
      supplier(k % c, k / c))
  }

  /** With 1 <= size <= width, exactly (height / size) * (width / size) cells are enumerated. */
  lemma EnumerationLength<T>(supplier: (int, int) --> T, img: Image, size: int)
    requires 1 <= size <= Width(img) && 0 <= Height(img) && Supplies(supplier, img, size)
    ensures |Enumeration(supplier, img, size)| == (Height(img) / size) * (Width(img) / size)
  {
    var w, h := Width(img), Height(img);
    assert JavaDiv(w, size) == w / size && JavaDiv(h, size) == h / size;
    DivAtLeastOne(w, size);
    assert PerRow(img, size) == w / size && RowsOf(img, size) == h / size;
  }

  lemma DivAtLeastOne(a: int, b: int)
    requires 1 <= b <= a
    ensures a / b >= 1
  {
    var q := a / b;
    assert a == b * q + a % b && a % b < b;
    if q <= 0 {
      MulMonotone(q, 0, b);
    }
  }

  /** The cell (x, y) holds the element at position y * c + x, c being the cells per row. */
  lemma CellElement<T>(supplier: (int, int) --> T, img: Image, size: int, x: int, y: int)
    requires size != 0 && Supplies(supplier, img, size)
    requires 0 <= x < PerRow(img, size) && 0 <= y < RowsOf(img, size)
    ensures y * PerRow(img, size) + x < |Enumeration(supplier, img, size)|
    ensures Enumeration(supplier, img, size)[y * PerRow(img, size) + x] == supplier(x, y)
  {
    var c := PerRow(img, size);
    RowMajor(x, y, c);
    RowMajorBefore(x, y, c, RowsOf(img, size));
  }

  /**
   * From the cell (x, y) of a grid `rows` high and c wide, the iterator moves to the next
   * column, or to column 0 of the next row when x + 1 reaches `limit`; that cell comes next
   * in row-major order and is a cell or the end.
   */
  lemma StepForward(x: int, y: int, c: int, rows: int, limit: int)
    requires 0 <= x < c && 0 <= y < rows && (limit < c ==> c == 1) && (c <= limit ==> c == limit)
    ensures var x', y' := if x + 1 >= limit then 0 else x + 1, if x + 1 >= limit then y + 1 else y;
            0 <= x' < c && 0 <= y' && (y' < rows || (y' == rows && x' == 0)) &&
            y' * c + x' == y * c + x + 1
  {
    if x + 1 >= limit {
      assert (y + 1) * c == y * c + c;
    }
  }

  /** The property of an image's cells, to be traversed with an iterator. */
  class ImageIterableProperty<T> {
    const img: Image
    const propertySupplier: (int, int) --> T
    const size: int

    /** The two-argument constructor: cells of one pixel. */
    constructor (img: Image, propertySupplier: (int, int) --> T)
      ensures this.img == img && this.propertySupplier == propertySupplier && size == 1
    {
      this.img := img;
      this.propertySupplier := propertySupplier;
      this.size := 1;
    }

    constructor WithSize(img: Image, propertySupplier: (int, int) --> T, size: int)
      ensures this.img == img && this.propertySupplier == propertySupplier && this.size == size
    {
      this.img := img;
      this.propertySupplier := propertySupplier;
      this.size := size;
    }

    /** `iterator()`: a new iterator at the first cell, (0, 0). */
    method Iterator() returns (it: PropertyIterator<T>)
      requires size != 0 && Supplies(propertySupplier, img, size)
      ensures fresh(it) && it.Valid() && it.Position() == 0
      ensures it.img == img && it.propertySupplier == propertySupplier && it.size == size
    {
      it := new PropertyIterator(img, propertySupplier, size);
    }
  }

  datatype IterationError = NoSuchElement

  /** The anonymous iterator of `iterator()`: the next cell is column x of row y. */
  class PropertyIterator<T> {
    const img: Image
    const propertySupplier: (int, int) --> T
    const size: int
    var x: int
    var y: int

    ghost predicate Valid()
      reads this
    {
      size != 0 && Supplies(propertySupplier, img, size) &&
      0 <= x < PerRow(img, size) && 0 <= y &&
      (y < RowsOf(img, size) || (y == RowsOf(img, size) && x == 0))
    }

    /** How many cells have been yielded so far. */
    ghost function Position(): int
      reads this
      requires size != 0
    {
      y * PerRow(img, size) + x
    }

    /** Everything this iterator yields, from the first cell on. */
    ghost function Elements(): seq<T>
      requires size != 0 && Supplies(propertySupplier, img, size)
    {
      Enumeration(propertySupplier, img, size)
    }

    constructor (img: Image, propertySupplier: (int, int) --> T, size: int)
      requires size != 0 && Supplies(propertySupplier, img, size)
      ensures this.img == img && this.propertySupplier == propertySupplier && this.size == size
      ensures Valid() && x == 0 && y == 0
    {
      this.img := img;
      this.propertySupplier := propertySupplier;
      this.size := size;
      x, y := 0, 0;
    }

    /** `hasNext()`: some cell is left, that is y < height / size. */
    function HasNext(): (b: bool)
      reads this
      requires Valid()
      ensures b <==> Position() < |Elements()|
      ensures Position() <= |Elements()|
    {
      RowMajorBefore(x, y, PerRow(img, size), RowsOf(img, size));
      y < JavaDiv(Height(img), size)
    }

    /**
     * `next()`: the current cell's property, then a step to the next column, or to the start of
     * the next row at the end of one; on an exhausted iterator, `NoSuchElementException` and
     * no change.
     */
    method Next() returns (r: Result<T, IterationError>)
      requires Valid()
      modifies this
      ensures Valid()
      ensures old(Position()) < |Elements()| ==>
        r == Ok(Elements()[old(Position())]) && Position() == old(Position()) + 1
      ensures old(Position()) >= |Elements()| ==> r == Err(NoSuchElement) && x == old(x) && y == old(y)
    {
      if !HasNext() {
        return Err(NoSuchElement);
      }
      CellElement(propertySupplier, img, size, x, y);
      StepForward(x, y, PerRow(img, size), RowsOf(img, size), JavaDiv(Width(img), size));
      var next := propertySupplier(x, y);
      x := x + 1;
      if x >= JavaDiv(Width(img), size) {
        x := 0;
        y := y + 1;
      }
      r := Ok(next);
    }
  }
}
