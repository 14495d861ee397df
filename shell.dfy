/**
 * The command interpreter of the ASCII-art program (Ex04-ASCII-Art/ascii_art/Shell.java): a
 * palette of printable characters edited by `add` and `remove` commands, a resolution
 * (characters per row) doubled and halved within bounds, and rendering through the matcher.
 *
 * The palette edits are specified by pure functions on the palette (`Edit` and its parts); the
 * methods of `Shell` change the palette as those functions say.
 */
module Shells {
  import opened Wrappers
  import opened FileImages
  import opened Images
  import opened ImageIterables
  import opened BrightnessMatchers

  // ---------------------------------------------------------------- constants

  const Space: char := ' '
  const AddCommand: string := "add "
  const RemoveCommand: string := "remove "
  const AddSpaceCommand: string := "add space"
  const RemoveSpaceCommand: string := "remove space"
  const AddAllCommand: string := "add all"
  const RemoveAllCommand: string := "remove all"
  const ResUpCommand: string := "res up"
  const ResDownCommand: string := "res down"
  const RangeSymbol: char := '-'
  const Font: string := "Courier New"
  const InitialCharsInRow: int := 64
  const MinPixelsPerChar: int := 2

  const AddCharLength: int := 5
  const RemoveCharLength: int := 8
  const AddRangeLength: int := 7
  const AddRangeSymbolIndex: int := 5
  const RemoveRangeLength: int := 10
  const RemoveRangeSymbolIndex: int := 8

  /** `ALL_ASCII`: the printable characters, from the space to the tilde. */
  const AllAscii: set<char> := set c: char | ' ' <= c <= '~'

  // ---------------------------------------------------------------- palette edits

  predicate StartsWith(u: string, prefix: string)
  {
    prefix <= u
  }

  /** The commands `run` hands to `add_remove`: "add", "remove", or one starting with "add " or "remove ". */
  predicate IsAddRemoveCommand(u: string)
  {
    u == "add" || u == "remove" || StartsWith(u, AddCommand) || StartsWith(u, RemoveCommand)
  }

  /** The resolution, console and render commands are not palette edits. */
  lemma OtherCommandsAreNotEdits(u: string)
    requires u in {ResUpCommand, ResDownCommand, "console", "render"}
    ensures !IsAddRemoveCommand(u)
  {
    assert u[0] != AddCommand[0];
    assert u[0] != RemoveCommand[0] || u[2] != RemoveCommand[2];
  }

  /** A character a single-character command accepts: printable and not the space. */
  predicate Addable(c: char)
  {
    c in AllAscii && c != Space
  }

  /** `add c`: the "add " prefix, length 5, and an acceptable character at index 4. */
  predicate IsAddChar(u: string)
  {
    StartsWith(u, AddCommand) && |u| == AddCharLength && Addable(u[AddCharLength - 1])
  }

  /** `remove c`: the "remove " prefix, length 8, and an acceptable character at index 7. */
  predicate IsRemoveChar(u: string)
  {
    StartsWith(u, RemoveCommand) && |u| == RemoveCharLength && Addable(u[RemoveCharLength - 1])
  }

  /**
   * `add_remove_single_char`: `add c` inserts c; `remove c` is checked on index 7 but removes
   * the character at index 4 of the input; anything else is refused (`None`).
   */
  function SingleCharEdit(p: set<char>, u: string): (r: Option<set<char>>)
    ensures r.Some? <==> IsAddChar(u) || IsRemoveChar(u)
    ensures IsAddChar(u) ==> r == Some(p + {u[4]})
  {
    if IsAddChar(u) then Some(p + {u[AddCharLength - 1]})
    else if IsRemoveChar(u) then Some(p - {u[AddCharLength - 1]})
    else None
  }

  /** `add_remove_all`: `add all` adds every printable character, `remove all` empties the palette. */
  function AllEdit(p: set<char>, u: string): (r: Option<set<char>>)
    ensures r.Some? <==> u == AddAllCommand || u == RemoveAllCommand
  {
    if u == AddAllCommand then Some(p + AllAscii)
    else if u == RemoveAllCommand then Some({})
    else None
  }

  /** `add_remove_space`: `add space` and `remove space` insert and delete the space. */
  function SpaceEdit(p: set<char>, u: string): (r: Option<set<char>>)
    ensures r.Some? <==> u == AddSpaceCommand || u == RemoveSpaceCommand
  {
    if u == AddSpaceCommand then Some(p + {Space})
    else if u == RemoveSpaceCommand then Some(p - {Space})
    else None
  }

  /**
   * `checkValidRangeInput`: a 7-character input with '-' at index 5 between acceptable
   * characters at 4 and 6, or a 10-character input with '-' at index 8 between acceptable
   * characters at 7 and 9. The prefix is not looked at.
   */
  predicate CheckValidRangeInput(u: string)
  {
    (|u| == AddRangeLength && u[AddRangeSymbolIndex] == RangeSymbol &&
     Addable(u[AddRangeSymbolIndex - 1]) && Addable(u[AddCharLength + 1]))
    ||
    (|u| == RemoveRangeLength && u[RemoveRangeSymbolIndex] == RangeSymbol &&
     Addable(u[RemoveCharLength - 1]) && Addable(u[RemoveCharLength + 1]))
  }

  /**
   * The endpoints `add_remove_range` hands to `helper_range`: indices 4 and 6 after "add ",
   * 7 and 9 otherwise. Every range command `run` can pass has them.
   */
  lemma RangeIndicesExist(u: string)
    requires IsAddRemoveCommand(u) && CheckValidRangeInput(u)
    ensures StartsWith(u, AddCommand) ==> AddCharLength + 1 < |u|
    ensures !StartsWith(u, AddCommand) ==>
              StartsWith(u, RemoveCommand) && |u| == RemoveRangeLength &&
              Addable(u[RemoveCharLength - 1]) && Addable(u[RemoveCharLength + 1])
  {
    if !StartsWith(u, AddCommand) && |u| == AddRangeLength {
      assert u[AddRangeSymbolIndex] == RemoveCommand[AddRangeSymbolIndex];
    }
  }

  function Min(a: char, b: char): char
  {
    if a > b then b else a
  }

  function Max(a: char, b: char): char
  {
    if a > b then a else b
  }

  /** The characters c with lo <= c < end that a single-character command accepts. */
  function Span(lo: int, end: int): (s: set<char>)
    ensures forall c :: c in s <==> Addable(c) && lo <= c as int < end
  {
    set c | c in AllAscii && c != Space && lo <= c as int < end
  }

  /**
   * `add_remove_range` and `helper_range`: the endpoints are put in order, and every character
   * from the first to the last goes through `add_remove_single_char` as "add " + c or
   * "remove " + c. Adding inserts the acceptable ones; each accepted removal removes the
   * character at index 4 of "remove " + c, the 'v'.
   */
  function RangeEdit(p: set<char>, u: string): (r: Option<set<char>>)
    requires IsAddRemoveCommand(u)
    ensures r.Some? <==> CheckValidRangeInput(u)
  {
    if !CheckValidRangeInput(u) then None
    else
      RangeIndicesExist(u);
      var (left, right) :=
        if StartsWith(u, AddCommand) then (AddCharLength - 1, AddCharLength + 1)
        else (RemoveCharLength - 1, RemoveCharLength + 1);
      var lo, hi := Min(u[left], u[right]), Max(u[left], u[right]);
      if StartsWith(u, AddCommand) then Some(p + Span(lo as int, hi as int + 1))
      else if Span(lo as int, hi as int + 1) == {} then Some(p)
      else Some(p - {RemoveCommand[AddCharLength - 1]})
  }

  /**
   * `add_remove`: the first of the single-character, all, space and range edits that accepts
   * the command; `None` when none does.
   */
  function Edit(p: set<char>, u: string): (r: Option<set<char>>)
    requires IsAddRemoveCommand(u)
    ensures r.None? ==>
              SingleCharEdit(p, u).None? && AllEdit(p, u).None? && SpaceEdit(p, u).None? && RangeEdit(p, u).None?
  {
    var single := SingleCharEdit(p, u);
    if single.Some? then single
    else
      var all := AllEdit(p, u);
      if all.Some? then all
      else
        var space := SpaceEdit(p, u);
        if space.Some? then space
        else RangeEdit(p, u)
  }

  /** `add c` inserts c and changes nothing else. */
  lemma AddCharInserts(p: set<char>, c: char)
    requires Addable(c)
    ensures Edit(p, AddCommand + [c]) == Some(p + {c})
  {
    assert IsAddChar(AddCommand + [c]);
  }

  /**
   * `remove c` removes 'v', whatever c is: any other c in the palette stays, and 'v' goes
   * even when c is not 'v'.
   */
  lemma RemoveCharRemovesV(p: set<char>, c: char)
    requires Addable(c)
    ensures Edit(p, RemoveCommand + [c]) == Some(p - {'v'})
    ensures c != 'v' && c in p ==> c in Edit(p, RemoveCommand + [c]).value
  {
    var u := RemoveCommand + [c];
    assert IsRemoveChar(u) && !IsAddChar(u);
    assert u[AddCharLength - 1] == 'v';
  }

  /** `add all` makes the palette hold every printable character; `remove all` empties it. */
  lemma AddAllRemoveAll(p: set<char>)
    ensures Edit(p, AddAllCommand).Some? && AllAscii <= Edit(p, AddAllCommand).value
    ensures Edit(p, AddAllCommand).value - AllAscii == p - AllAscii
    ensures Edit(p, RemoveAllCommand) == Some({})
  {
    assert !IsAddChar(AddAllCommand) && !IsRemoveChar(AddAllCommand);
    assert !IsAddChar(RemoveAllCommand) && !IsRemoveChar(RemoveAllCommand);
  }

  /** `add space` and `remove space` insert and delete the space and touch nothing else. */
  lemma SpaceToggles(p: set<char>)
    ensures Edit(p, AddSpaceCommand) == Some(p + {Space})
    ensures Edit(p, RemoveSpaceCommand) == Some(p - {Space})
  {
    assert !IsAddChar(AddSpaceCommand) && !IsRemoveChar(AddSpaceCommand);
    assert AddSpaceCommand != AddAllCommand && AddSpaceCommand != RemoveAllCommand;
    assert !IsAddChar(RemoveSpaceCommand) && !IsRemoveChar(RemoveSpaceCommand);
    assert RemoveSpaceCommand != AddAllCommand && RemoveSpaceCommand != RemoveAllCommand;
  }

  /** `add a-b` inserts every character from min(a, b) to max(a, b), in either order. */
  lemma AddRangeInserts(p: set<char>, a: char, b: char)
    requires Addable(a) && Addable(b)
    ensures var r := Edit(p, AddCommand + [a, RangeSymbol, b]);
            r.Some? && forall c :: c in r.value <==> c in p || Min(a, b) <= c <= Max(a, b)
  {
    var u := AddCommand + [a, RangeSymbol, b];
    assert CheckValidRangeInput(u) && !IsAddChar(u) && !IsRemoveChar(u);
    assert u != AddAllCommand && u != RemoveAllCommand && u != AddSpaceCommand && u != RemoveSpaceCommand;
    assert u[4] == a && u[6] == b;
  }

  /** `remove a-b` removes 'v', once per character of the range, and nothing else. */
  lemma RemoveRangeRemovesV(p: set<char>, a: char, b: char)
    requires Addable(a) && Addable(b)
    ensures Edit(p, RemoveCommand + [a, RangeSymbol, b]) == Some(p - {'v'})
  {
    var u := RemoveCommand + [a, RangeSymbol, b];
    assert CheckValidRangeInput(u) && !IsAddChar(u) && !IsRemoveChar(u);
    assert u != AddAllCommand && u != RemoveAllCommand && u != AddSpaceCommand && u != RemoveSpaceCommand;
    assert !StartsWith(u, AddCommand) by { assert u[0] != AddCommand[0]; }
    assert u[7] == a && Min(a, b) in Span(Min(a, b) as int, Max(a, b) as int + 1);
  }

  /** Whether a command is accepted does not depend on the palette. */
  lemma AcceptanceIgnoresPalette(p: set<char>, q: set<char>, u: string)
    requires IsAddRemoveCommand(u)
    ensures Edit(p, u).Some? <==> Edit(q, u).Some?
  {
  }

  /** Repeating an accepted command changes nothing more. */
  lemma EditIdempotent(p: set<char>, u: string)
    requires IsAddRemoveCommand(u) && Edit(p, u).Some?
    ensures Edit(Edit(p, u).value, u) == Edit(p, u)
  {
    var q := Edit(p, u).value;
    if SingleCharEdit(p, u).Some? {
      if IsAddChar(u) {
        assert q == p + {u[4]};
        assert q + {u[4]} == q;
      } else {
        assert q == p - {u[4]};
        assert q - {u[4]} == q;
      }
    } else if AllEdit(p, u).Some? {
      assert AllEdit(q, u).Some?;
      if u == AddAllCommand {
        assert q + AllAscii == q;
      }
    } else if SpaceEdit(p, u).Some? {
      if u == AddSpaceCommand {
        assert q + {Space} == q;
      } else {
        assert q - {Space} == q;
      }
    } else {
      RangeIndicesExist(u);
      var (left, right) :=
        if StartsWith(u, AddCommand) then (AddCharLength - 1, AddCharLength + 1)
        else (RemoveCharLength - 1, RemoveCharLength + 1);
      var span := Span(Min(u[left], u[right]) as int, Max(u[left], u[right]) as int + 1);
      if StartsWith(u, AddCommand) {
        assert q == p + span;
        assert q + span == q;
      } else if span != {} {
        assert RemoveCommand[AddCharLength - 1] == 'v';
        assert q == p - {'v'};
        assert q - {'v'} == q;
      }
    }
  }

  /** Every edit keeps the palette within the printable characters. */
  lemma EditKeepsPrintable(p: set<char>, u: string)
    requires IsAddRemoveCommand(u) && p <= AllAscii && Edit(p, u).Some?
    ensures Edit(p, u).value <= AllAscii
  {
  }

  // ---------------------------------------------------------------- resolution

  /** n / 2 for the powers of two the resolution takes; halving 1 gives 0. */
  lemma PowerHalves(n: int)
    requires IsPowerOfTwo(n) && n >= 2
    ensures IsPowerOfTwo(n / 2) && IsPowerOfTwo(2 * n)
  {
    assert (2 * n) / 2 == n;
  }

  lemma Twice(q: int, h: int, n: int)
    requires h > 0 && n % h == 0 && q == n / h
    ensures 2 * n == q * (2 * h)
    ensures n >= 0 ==> q >= 0
  {
    assert n == q * h;
  }

  /** A power of two p no larger than a power of two w divides it, with a power of two as quotient. */
  lemma {:induction false} PowerDivides(p: int, w: int)
    requires IsPowerOfTwo(p) && IsPowerOfTwo(w) && p <= w
    ensures w % p == 0 && IsPowerOfTwo(w / p)
    decreases p
  {
    if p > 1 {
      var hp, hw := p / 2, w / 2;
      assert p == 2 * hp && w == 2 * hw;
      PowerDivides(hp, hw);
      var q := hw / hp;
      Twice(q, hp, hw);
      RowMajor(0, q, p);
    }
  }

  lemma SmallQuotient(a: int, b: int)
    requires 0 <= a < b
    ensures a / b == 0
  {
  }

  /** A power of two w below a power of two h gives w / h == 0. */
  lemma PowerQuotient(w: int, h: int)
    requires IsPowerOfTwo(w) && IsPowerOfTwo(h)
    ensures w >= h ==> IsPowerOfTwo(w / h)
    ensures w < h ==> w / h == 0
  {
    if w >= h {
      PowerDivides(h, w);
    } else {
      assert w >= 1;
      SmallQuotient(w, h);
    }
  }

  /**
   * `res_up_down`: "res up" doubles the characters per row and "res down" halves them; a
   * result outside [lo, hi] is undone.
   */
  function Resize(c: int, u: string, lo: int, hi: int): (r: int)
    ensures r == c || lo <= r <= hi
    ensures lo <= c <= hi ==> lo <= r <= hi
  {
    var doubled := if u == ResUpCommand then c * 2 else c;
    var halved := if u == ResDownCommand then doubled / 2 else doubled;
    if lo <= halved <= hi then halved else c
  }

  /** An accepted "res up" is undone by "res down": halving brings back a value in bounds. */
  lemma UpThenDown(c: int, lo: int, hi: int)
    requires 1 <= lo <= c <= hi && Resize(c, ResUpCommand, lo, hi) != c
    ensures Resize(c, ResUpCommand, lo, hi) == 2 * c
    ensures Resize(Resize(c, ResUpCommand, lo, hi), ResDownCommand, lo, hi) == c
  {
  }

  /** Resizing keeps the characters per row a power of two. */
  lemma ResizeKeepsPower(c: int, u: string, lo: int, hi: int)
    requires IsPowerOfTwo(c) && 1 <= lo
    ensures IsPowerOfTwo(Resize(c, u, lo, hi))
  {
    if c >= 2 {
      PowerHalves(c);
    } else {
      assert IsPowerOfTwo(2 * c) by { assert (2 * c) / 2 == 1; }
    }
  }

  /**
   * The constructor's bounds: minCharsInRow = max(1, w / h), maxCharsInRow = w / 2, and
   * charsInRow = max(min(64, maxCharsInRow), minCharsInRow).
   */
  function InitialResolution(w: int, h: int): (r: (int, int, int))
    requires w >= 0 && h >= 1
    ensures r.0 >= 1 && r.0 <= r.2 && r.1 == w / 2
    ensures r.1 >= r.0 ==> r.2 <= r.1
  {
    var minChars := if 1 > w / h then 1 else w / h;
    var maxChars := w / MinPixelsPerChar;
    var narrower := if InitialCharsInRow < maxChars then InitialCharsInRow else maxChars;
    (minChars, maxChars, if narrower > minChars then narrower else minChars)
  }

  /**
   * On a power-of-two canvas the initial characters per row are a power of two, and no more
   * than a non-zero width.
   */
  lemma InitialResolutionIsPower(w: int, h: int)
    requires (w == 0 || IsPowerOfTwo(w)) && IsPowerOfTwo(h)
    ensures var r := InitialResolution(w, h);
            IsPowerOfTwo(r.2) && (w >= 1 ==> r.2 <= w)
  {
    assert h >= 1;
    var minChars := if 1 > w / h then 1 else w / h;
    var narrower := if InitialCharsInRow < w / 2 then InitialCharsInRow else w / 2;
    assert InitialResolution(w, h).2 == if narrower > minChars then narrower else minChars;
    assert IsPowerOfTwo(minChars) && (w >= 1 ==> minChars <= w) by {
      if w >= 1 {
        PowerQuotient(w, h);
        QuotientNotLarger(w, h);
      } else {
        SmallQuotient(0, h);
      }
    }
    if narrower > minChars {
      SixtyFourIsPower();
      if w / 2 <= InitialCharsInRow {
        PowerHalves(w);
      }
    }
  }

  lemma QuotientNotLarger(a: int, b: int)
    requires a >= 0 && b >= 1
    ensures a / b <= a
  {
    var q := a / b;
    assert a == b * q + a % b;
    if q > 0 {
      MulMonotone(1, b, q);
    }
  }

  lemma SixtyFourIsPower()
    ensures IsPowerOfTwo(InitialCharsInRow)
  {
    assert IsPowerOfTwo(2);
    assert IsPowerOfTwo(4);
    assert IsPowerOfTwo(8);
    assert IsPowerOfTwo(16);
    assert IsPowerOfTwo(32);
  }

  /** The picture the shell is built on: a file image with a power-of-two canvas, at least one row high. */
  ghost predicate Canvas(img: Image)
  {
    img.FileImg? && img.file.Valid() && (Width(img) == 0 || IsPowerOfTwo(Width(img))) && IsPowerOfTwo(Height(img))
  }

  /** A picture with at least one row, read by `fromFile`, is such a canvas. */
  lemma FromFileIsCanvas(im: seq<seq<int>>, origWidth: nat, img: Image)
    requires |im| >= 1 && forall i :: 0 <= i < |im| ==> |im[i]| == origWidth
    requires img.FileImg? && img.file.Valid()
    requires Width(img) == NextExp(origWidth) && Height(img) == NextExp(|im|)
    ensures Canvas(img)
  {
  }

  // ---------------------------------------------------------------- the shell

  /** What one command of `run` does, its console output left out. */
  datatype Reply =
    | Exit
    | ListChars(chars: set<char>)
    | Edited
    | AddFormatError
    | RemoveFormatError
    | WidthSet(charsInRow: int)
    | ExceedingBoundaries
    | ConsoleSelected
    | Rendered(grid: array2<char>, toConsole: bool)
    | IncorrectCommand

  class Shell {
    var charSet: set<char>
    const matcher: BrightnessImgCharMatcher
    var printToConsole: bool
    const minCharsInRow: int
    const maxCharsInRow: int
    var charsInRow: int

    /**
     * The palette is printable, the matcher's caches are sound, and the characters per row are
     * a power of two no wider than a non-empty canvas, so that each tile is a whole number of
     * pixels wide.
     */
    ghost predicate Valid()
      reads this, matcher
    {
      matcher.Valid() && Canvas(matcher.img) && charSet <= AllAscii &&
      minCharsInRow >= 1 && maxCharsInRow == Width(matcher.img) / MinPixelsPerChar && IsPowerOfTwo(charsInRow) &&
      (Width(matcher.img) >= 1 ==> charsInRow <= Width(matcher.img))
    }

    /**
     * `Shell(img)`: the palette '0'..'9', HTML output, the resolution bounds of
     * `InitialResolution`, and a matcher of img in "Courier New". `rasterize` stands for the
     * font renderer.
     */
    constructor (img: Image, rasterize: (char, string) -> seq<seq<bool>>)
      requires Canvas(img) && Renders(rasterize, Font)
      ensures Valid() && fresh(matcher) && matcher.img == img
      ensures forall c :: c in charSet <==> '0' <= c <= '9'
      ensures !printToConsole
      ensures (minCharsInRow, maxCharsInRow, charsInRow) == InitialResolution(Width(img), Height(img))
    {
      var digits := CharRange('0', '9');
      charSet := digits;
      printToConsole := false;
      var w, h := Width(img), Height(img);
      var minChars := if 1 > w / h then 1 else w / h;
      var maxChars := w / MinPixelsPerChar;
      var narrower := if InitialCharsInRow < maxChars then InitialCharsInRow else maxChars;
      minCharsInRow, maxCharsInRow := minChars, maxChars;
      charsInRow := if narrower > minChars then narrower else minChars;
      matcher := new BrightnessImgCharMatcher(img, Font, rasterize);
      new;
      InitialResolutionIsPower(w, h);
      assert forall c :: c in charSet ==> c in AllAscii;
    }

    /** The loops of the constructor and `initialize_all_ascii`: every character from first to last. */
    static method CharRange(first: char, last: char) returns (s: set<char>)
      ensures forall c :: c in s <==> first <= c <= last
    {
      s := {};
      var i := first as int;
      while i < last as int + 1
        invariant first as int <= i && (i <= last as int + 1 || i == first as int)
        invariant forall c :: c in s <==> first as int <= c as int < i
      {
        if !(0xD800 <= i < 0xE000) {
          s := s + {i as char};
        }
        i := i + 1;
      }
    }

    /**
     * One pass of `run`'s loop on the input line u: the command is recognised in the order
     * `run` tries them and carried out.
     */
    method Execute(u: string) returns (reply: Reply)
      requires Valid()
      requires u == "render" ==> Width(matcher.img) >= 1
      modifies this, matcher
      ensures Valid()
      ensures u == "exit" ==> reply == Exit
      ensures u == "chars" ==> reply == ListChars(charSet)
      ensures u != "render" ==> unchanged(matcher)
      ensures u !in {"exit", "chars", "console", "render"} && IsAddRemoveCommand(u) ==>
                (Edit(old(charSet), u).Some? ==> reply == Edited && charSet == Edit(old(charSet), u).value) &&
                (Edit(old(charSet), u).None? ==>
                   charSet == old(charSet) &&
                   reply == (if u == "add" || StartsWith(u, AddCommand) then AddFormatError else RemoveFormatError))
      ensures u == ResUpCommand || u == ResDownCommand ==>
                charSet == old(charSet) && charsInRow == Resize(old(charsInRow), u, minCharsInRow, maxCharsInRow) &&
                reply == (if minCharsInRow <= charsInRow <= maxCharsInRow && charsInRow != old(charsInRow)
                          then WidthSet(charsInRow) else ExceedingBoundaries)
      ensures u == "console" ==> printToConsole && charSet == old(charSet) && reply == ConsoleSelected
      ensures u == "render" ==>
                charSet == old(charSet) && charsInRow == old(charsInRow) && (reply == IncorrectCommand <==> charSet == {})
      ensures !IsAddRemoveCommand(u) ==> charSet == old(charSet)
      ensures u != ResUpCommand && u != ResDownCommand ==> charsInRow == old(charsInRow)
      ensures printToConsole == (old(printToConsole) || u == "console")
      ensures u !in {"exit", "chars", "console", "render", ResUpCommand, ResDownCommand} && !IsAddRemoveCommand(u) ==>
                reply == IncorrectCommand && charSet == old(charSet) && charsInRow == old(charsInRow) &&
                printToConsole == old(printToConsole)
      ensures u == "render" && charSet != {} ==>
                reply.Rendered? && reply.toConsole == printToConsole && matcher.Normalized() &&
                (var img, a := matcher.img, reply.grid;
                 var s := Width(img) / charsInRow;
                 fresh(a) && a.Length0 == Height(img) / s && a.Length1 == charsInRow &&
                 forall r, c :: 0 <= r < a.Length0 && 0 <= c < a.Length1 ==>
                   a[r, c] == BestChar(matcher.curKeys, matcher.curBrightness, TileBrightness(SubImg(img, s, r, c))))
      ensures u == "render" && charSet != {} ==>
                (forall c :: c in matcher.curBrightness <==> c in charSet) &&
                NormalizedFrom(matcher.curKeys, matcher.curBrightness, matcher.asciiBrightness)
    {
      if u in {ResUpCommand, ResDownCommand, "console", "render"} {
        OtherCommandsAreNotEdits(u);
      }
      if u == "exit" {
        reply := Exit;
      } else if u == "chars" {
        reply := ListChars(charSet);
      } else if u == "add" || StartsWith(u, AddCommand) {
        var ok := AddRemove(u);
        reply := if ok then Edited else AddFormatError;
      } else if u == "remove" || StartsWith(u, RemoveCommand) {
        var ok := AddRemove(u);
        reply := if ok then Edited else RemoveFormatError;
      } else if u == ResUpCommand || u == ResDownCommand {
        var widthSet := ResUpDown(u);
        reply := if widthSet then WidthSet(charsInRow) else ExceedingBoundaries;
      } else if u == "console" {
        printToConsole := true;
        reply := ConsoleSelected;
      } else if u == "render" {
        var grid := RenderOutput();
        reply := if grid.Some? then Rendered(grid.value, printToConsole) else IncorrectCommand;
      } else {
        reply := IncorrectCommand;
      }
    }

    /**
     * `renderOutput`: an empty palette is refused; otherwise the palette, listed in some order,
     * becomes the matcher's palette and the image is rendered with charsInRow characters per
     * row, each cell the best character for its tile.
     */
    method RenderOutput() returns (grid: Option<array2<char>>)
      requires Valid() && Width(matcher.img) >= 1
      modifies matcher
      ensures Valid()
      ensures grid.None? <==> charSet == {}
      ensures grid.None? ==> unchanged(matcher)
      ensures grid.Some? ==>
                var img, a := matcher.img, grid.value;
                var s := Width(img) / charsInRow;
                fresh(a) && a.Length0 == Height(img) / s && a.Length1 == charsInRow && matcher.Normalized() &&
                forall r, c :: 0 <= r < a.Length0 && 0 <= c < a.Length1 ==>
                  a[r, c] == BestChar(matcher.curKeys, matcher.curBrightness, TileBrightness(SubImg(img, s, r, c)))
      ensures grid.Some? ==> forall c :: c in matcher.curBrightness <==> c in charSet
      ensures grid.Some? ==> NormalizedFrom(matcher.curKeys, matcher.curBrightness, matcher.asciiBrightness)
    {
      if charSet == {} {
        return None;
      }
      var charArr := ConvertToArr(charSet);
      PowerDivides(charsInRow, Width(matcher.img));
      var asciiChars := matcher.ChooseChars(charsInRow, charArr[..]);
      grid := Some(asciiChars);
    }

    /** `convertToArr`: the set's elements, each once, in an array of the set's size. */
    static method ConvertToArr(chars: set<char>) returns (newArr: array<char>)
      ensures fresh(newArr) && newArr.Length == |chars| && Distinct(newArr[..])
      ensures forall c :: c in newArr[..] <==> c in chars
    {
      newArr := new char[|chars|];
      var rest := chars;
      var ind := 0;
      while rest != {}
        invariant 0 <= ind <= newArr.Length && ind + |rest| == |chars|
        invariant rest <= chars && Distinct(newArr[..ind])
        invariant forall c :: c in chars <==> c in rest || c in newArr[..ind]
        invariant forall c :: c in newArr[..ind] ==> c !in rest
        decreases |rest|
      {
        var c :| c in rest;
        newArr[ind] := c;
        assert newArr[..ind + 1] == newArr[..ind] + [c];
        rest := rest - {c};
        ind := ind + 1;
      }
      assert newArr[..] == newArr[..ind];
    }

    /** `res_up_down`: the characters per row become `Resize` of them; false when that undid the step. */
    method ResUpDown(u: string) returns (widthSet: bool)
      requires Valid()
      modifies this
      ensures Valid()
      ensures charsInRow == Resize(old(charsInRow), u, minCharsInRow, maxCharsInRow)
      ensures widthSet <==> minCharsInRow <= charsInRow <= maxCharsInRow &&
                            (charsInRow != old(charsInRow) || (u != ResUpCommand && u != ResDownCommand))
      ensures charSet == old(charSet) && printToConsole == old(printToConsole)
    {
      var charsInRowBefore := charsInRow;
      if u == ResUpCommand {
        charsInRow := charsInRow * 2;
      }
      if u == ResDownCommand {
        charsInRow := charsInRow / 2;
      }
      if minCharsInRow <= charsInRow && charsInRow <= maxCharsInRow {
        widthSet := true;
      } else {
        charsInRow := charsInRowBefore;
        widthSet := false;
      }
      ResizeKeepsPower(charsInRowBefore, u, minCharsInRow, maxCharsInRow);
      if Width(matcher.img) >= 1 && charsInRow != charsInRowBefore {
        assert charsInRow <= Width(matcher.img) / 2;
      }
    }

    /** `add_remove`: the palette becomes `Edit` of it, or stays when the command is refused. */
    method AddRemove(u: string) returns (ok: bool)
      requires Valid() && IsAddRemoveCommand(u)
      modifies this
      ensures Valid()
      ensures ok <==> Edit(old(charSet), u).Some?
      ensures charSet == if ok then Edit(old(charSet), u).value else old(charSet)
      ensures charsInRow == old(charsInRow) && printToConsole == old(printToConsole)
    {
      ghost var palette := charSet;
      ok := AddRemoveSingleChar(u);
      if !ok {
        ok := AddRemoveAll(u);
        if !ok {
          ok := AddRemoveSpace(u);
          if !ok {
            ok := AddRemoveRange(u);
          }
        }
      }
      if ok {
        EditKeepsPrintable(palette, u);
      }
    }

    /** `add_remove_single_char`: the palette becomes `SingleCharEdit` of it when that accepts. */
    method AddRemoveSingleChar(u: string) returns (ok: bool)
      modifies this
      ensures ok <==> SingleCharEdit(old(charSet), u).Some?
      ensures charSet == if ok then SingleCharEdit(old(charSet), u).value else old(charSet)
      ensures charsInRow == old(charsInRow) && printToConsole == old(printToConsole)
    {
      if StartsWith(u, AddCommand) && |u| == AddCharLength &&
         u[AddCharLength - 1] in AllAscii && u[AddCharLength - 1] != Space {
        charSet := charSet + {u[AddCharLength - 1]};
        return true;
      }
      if StartsWith(u, RemoveCommand) && |u| == RemoveCharLength &&
         u[RemoveCharLength - 1] in AllAscii && u[RemoveCharLength - 1] != Space {
        charSet := charSet - {u[AddCharLength - 1]};
        return true;
      }
      return false;
    }

    /** `add_remove_all`: the palette becomes `AllEdit` of it when that accepts. */
    method AddRemoveAll(u: string) returns (ok: bool)
      modifies this
      ensures ok <==> AllEdit(old(charSet), u).Some?
      ensures charSet == if ok then AllEdit(old(charSet), u).value else old(charSet)
      ensures charsInRow == old(charsInRow) && printToConsole == old(printToConsole)
    {
      if u == AddAllCommand {
        charSet := charSet + AllAscii;
        return true;
      }
      if u == RemoveAllCommand {
        charSet := {};
        return true;
      }
      return false;
    }

    /** `add_remove_space`: the palette becomes `SpaceEdit` of it when that accepts. */
    method AddRemoveSpace(u: string) returns (ok: bool)
      modifies this
      ensures ok <==> SpaceEdit(old(charSet), u).Some?
      ensures charSet == if ok then SpaceEdit(old(charSet), u).value else old(charSet)
      ensures charsInRow == old(charsInRow) && printToConsole == old(printToConsole)
    {
      if u == AddSpaceCommand {
        charSet := charSet + {Space};
        return true;
      }
      if u == RemoveSpaceCommand {
        charSet := charSet - {Space};
        return true;
      }
      return false;
    }

    /** `add_remove_range`: the palette becomes `RangeEdit` of it when the input is a valid range. */
    method AddRemoveRange(u: string) returns (ok: bool)
      requires IsAddRemoveCommand(u)
      modifies this
      ensures ok <==> RangeEdit(old(charSet), u).Some?
      ensures charSet == if ok then RangeEdit(old(charSet), u).value else old(charSet)
      ensures charsInRow == old(charsInRow) && printToConsole == old(printToConsole)
    {
      if CheckValidRangeInput(u) {
        RangeIndicesExist(u);
        if StartsWith(u, AddCommand) {
          ok := HelperRange(u, AddCharLength - 1, AddCharLength + 1);
          return;
        }
        ok := HelperRange(u, RemoveCharLength - 1, RemoveCharLength + 1);
        return;
      }
      return false;
    }

    /**
     * `helper_range`: the endpoints at leftCharInd and rightCharInd are put in order and every
     * character between them, both included, is handed to `add_remove_single_char` after the
     * input's "add " or "remove " prefix. Surrogate code units are not characters here; the
     * single-character command refuses them, so skipping them changes nothing.
     */
    method HelperRange(u: string, leftCharInd: int, rightCharInd: int) returns (ok: bool)
      requires StartsWith(u, AddCommand) || StartsWith(u, RemoveCommand)
      requires 0 <= leftCharInd < |u| && 0 <= rightCharInd < |u|
      modifies this
      ensures ok
      ensures var lo, hi := Min(u[leftCharInd], u[rightCharInd]), Max(u[leftCharInd], u[rightCharInd]);
              var span := Span(lo as int, hi as int + 1);
              charSet == if StartsWith(u, AddCommand) then old(charSet) + span
                         else if span == {} then old(charSet) else old(charSet) - {'v'}
      ensures charsInRow == old(charsInRow) && printToConsole == old(printToConsole)
    {
      var leftChar := u[leftCharInd];
      var rightChar := u[rightCharInd];
      if leftChar > rightChar {
        var temp := leftChar;
        leftChar := rightChar;
        rightChar := temp;
      }
      var adding := StartsWith(u, AddCommand);
      assert !(adding && StartsWith(u, RemoveCommand)) by {
        assert AddCommand[0] != RemoveCommand[0];
      }
      var i := leftChar as int;
      while i < rightChar as int + 1
        invariant leftChar as int <= i <= rightChar as int + 1
        invariant charSet == if adding then old(charSet) + Span(leftChar as int, i)
                             else if Span(leftChar as int, i) == {} then old(charSet) else old(charSet) - {'v'}
        invariant charsInRow == old(charsInRow) && printToConsole == old(printToConsole)
      {
        ghost var before := Span(leftChar as int, i);
        if !(0xD800 <= i < 0xE000) {
          var c := i as char;
          assert Span(leftChar as int, i + 1) == before + (if Addable(c) then {c} else {});
          if adding {
            assert (AddCommand + [c])[AddCharLength - 1] == c;
            assert IsAddChar(AddCommand + [c]) <==> Addable(c);
            var _ := AddRemoveSingleChar(AddCommand + [c]);
          }
          if StartsWith(u, RemoveCommand) {
            assert (RemoveCommand + [c])[AddCharLength - 1] == 'v';
            assert (RemoveCommand + [c])[RemoveCharLength - 1] == c;
            assert IsRemoveChar(RemoveCommand + [c]) <==> Addable(c);
            assert !IsAddChar(RemoveCommand + [c]);
            var _ := AddRemoveSingleChar(RemoveCommand + [c]);
          }
        } else {
          assert Span(leftChar as int, i + 1) == before;
        }
        i := i + 1;
      }
      return true;
    }
  }
}
