# Intro-to-OOP: ASCII-art rendering and tic-tac-toe, modelled in Dafny

This project models two exercises of the Intro-to-OOP repository and proves properties of the model.

**The ASCII-art engine (Ex04-ASCII-Art).**
- `FileImage` pads a bitmap, centred, to power-of-two sides and fills the margin with white.
- `SubImage` is a square tile of another image.
- `ImageIterableProperty` enumerates a per-cell property of an image in row-major order. `Image.pixels()` and `Image.getSubImages(size)` are built on it.
- `BrightnessImgCharMatcher` computes each glyph's ink share and normalises the shares min-max. It scores each tile by BT.709 luminance and picks, for each tile, the glyph whose brightness is closest. It keeps caches of glyph and tile brightness.
- `Shell` is the interactive command interpreter. It edits the character palette (`add`/`remove` of a char, a range, `all` or `space`), changes the resolution (`res up`/`res down`) and renders.

**The tic-tac-toe game (Ex02-TicTacToe).**
- `Board` is an n-by-n grid of marks.
- `Game` plays alternating turns and looks for a run of `winStreak` equal marks in a row, a column or a down-right diagonal.
- `Tournament` plays rounds that swap who plays X and keeps a score.
- `CleverPlayer` and `GeniusPlayer` extend an existing run of their own mark before falling back to a random cell.
- `PlayerFactory` maps a case-insensitive name to a player.

**How the model is laid out.**
- Each Java class whose fields change in place is a Dafny `class`: `Board`, `FileImage`'s construction, the iterator, `BrightnessImgCharMatcher` and `Shell`. Its methods are proved against specification functions.
- `Game` and `Tournament` are classes too, but their fields are all `final` in Java and `const` here. Their methods change only the board they create and their local counters.
- Pure logic is modelled as functions and lemmas: winner detection, move choice, normalisation, closest-glyph search and palette edits.
- An image is a datatype value, `FileImg(file)` or `SubImg(parent, size, numRow, numCol)`. A `FileImage` is compared by identity; a tile by its fields.
- Java `double` is a `real` wrapped in a `Double` datatype that can also be `NaN`. The code divides by `max - min`, so a palette whose glyphs are all equally bright normalises to `NaN`, and the closest-glyph search then returns the first glyph in iteration order.

The model follows the code as written, including these behaviours:
- A palette whose glyphs are all equally bright normalises to `NaN`: the code computes 0.0/0.0, because Ex04-ASCII-Art/ascii_art/img_to_char/BrightnessImgCharMatcher.java:101-110 has no guard for `max == min`.
- `remove <c>` and `remove <a>-<b>` remove the character `'v'`, whatever `c` is. Ex04-ASCII-Art/ascii_art/Shell.java:238 removes the literal `'v'`.
- Anti-diagonal lines (up-right) are never detected as wins. `checkLeftDiagonal` walks the same down-right line, backwards.
- `fillDiagonalsLeft` stops the search and returns false when its first target lies off the board. A top-row mark makes it target row -1.

## Model

| member | source | states |
|---|---|---|
| Boards.Set | Ex02-TicTacToe/Board.java:74-83 | writing one cell changes that cell and no other, and keeps the grid's shape |
| Boards.EmptyGrid | Ex02-TicTacToe/Board.java:20-26 | a new grid is n by n |
| Boards.Columns | Ex02-TicTacToe/Game.java:100-119 | column c of the transposed grid holds the marks of column c, top to bottom |
| Boards.MarkCountSet | Ex02-TicTacToe/Board.java:74-83 | putting a mark changes each mark's count by exactly the cell it overwrites and the mark it writes |
| Boards.BlankCountSet | Ex02-TicTacToe/Board.java:74-83 | marking a blank cell leaves one blank fewer |
| Boards.EmptyGridCounts | Ex02-TicTacToe/Board.java:20-26 | a new board has n*n blanks and no X or O |
| Boards.Board.Grid | Ex02-TicTacToe/Board.java:92-97 | the board's grid view agrees with its array cell by cell |
| Boards.Board.constructor | Ex02-TicTacToe/Board.java:42-46 | a board of the given size, all blank |
| Boards.Board.Default | Ex02-TicTacToe/Board.java:31-35 | the default board is 4 by 4, all blank |
| Boards.Board.InitializeBoard | Ex02-TicTacToe/Board.java:20-26 | every cell of the array becomes blank |
| Boards.Board.GetMark | Ex02-TicTacToe/Board.java:92-97 | the mark at (row, col); blank for coordinates off the board |
| Boards.Board.PutMark | Ex02-TicTacToe/Board.java:74-83 | succeeds exactly on a blank cell on the board, and then writes only that cell; on failure nothing changes |
| Moves.FirstBlank | Ex02-TicTacToe/WhateverPlayer.java:14-24 | whenever a blank exists, the chosen cell is on the board and blank |
| Moves.FirstBlankInRow | Ex02-TicTacToe/WhateverPlayer.java:14-24 | a row holding a blank yields the index of a blank |
| Moves.FirstBlankChoosesBlank | Ex02-TicTacToe/WhateverPlayer.java:14-24 | the first-blank chooser is an admissible random/human move source |
| Moves.ChosenTurn | Ex02-TicTacToe/HumanPlayer.java:24-38 | the chosen blank cell receives the mark and nothing else changes |
| Players.Move | Ex02-TicTacToe/Player.java:12 | every kind of player picks a blank cell on the board |
| Players.Turn | Ex02-TicTacToe/Player.java:12 | a turn fills exactly one blank cell with the player's mark: one blank fewer, one more of that mark, other marks unchanged |
| Players.PlayTurn | Ex02-TicTacToe/Player.java:12 | playing a turn on the board yields exactly `Turn` of the old grid |
| CleverPlayers.FirstSpotInLine | Ex02-TicTacToe/CleverPlayer.java:16-28 | a returned cell is blank and just right of a run of the mark, at or after the start index |
| CleverPlayers.FirstSpot | Ex02-TicTacToe/CleverPlayer.java:16-28 | a returned (row, col) is a spot in a row at or after the start row |
| CleverPlayers.FirstSpotInLineIsFirst | Ex02-TicTacToe/CleverPlayer.java:16-28 | the returned spot is the leftmost; when none is returned, no spot exists |
| CleverPlayers.FirstSpotIsFirst | Ex02-TicTacToe/CleverPlayer.java:16-28 | the returned spot is the first in row-major order; when none is returned, no row has a spot |
| CleverPlayers.FillLines | Ex02-TicTacToe/CleverPlayer.java:16-28 | succeeds exactly when some row has a blank right after the mark, and then marks the first such cell; otherwise the board is unchanged |
| CleverPlayers.CleverMove | Ex02-TicTacToe/CleverPlayer.java:37-49 | the clever move is a blank cell on the board, and it extends a row run whenever one can be extended |
| CleverPlayers.PlayTurn | Ex02-TicTacToe/CleverPlayer.java:37-49 | the clever turn marks exactly the cell `CleverMove` picks |
| GeniusPlayers.FillCols | Ex02-TicTacToe/GeniusPlayer.java:67-80 | succeeds exactly when some column has a blank below the mark, and then marks the first such cell in column-major order; otherwise the board is unchanged |
| GeniusPlayers.ScanCols | Ex02-TicTacToe/GeniusPlayer.java:68-77 | the outer column loop finds the first column spot, or reports that none exists |
| GeniusPlayers.SpotInColumn | Ex02-TicTacToe/GeniusPlayer.java:69-76 | scanning one column finds its first spot, or reports that none exists |
| GeniusPlayers.FollowRun | Ex02-TicTacToe/GeniusPlayer.java:70-75 | following a run of the mark down a column finds the spot after it, or skips the run with no spot passed over |
| GeniusPlayers.WalkEnd | Ex02-TicTacToe/GeniusPlayer.java:45-52 | the diagonal walk stops at the first cell not holding the mark, and every cell before it holds the mark |
| GeniusPlayers.DiagTarget | Ex02-TicTacToe/GeniusPlayer.java:45-52 | a target found from (i, j) is a blank cell that continues a diagonal run of the mark |
| GeniusPlayers.FirstDiagTarget | Ex02-TicTacToe/GeniusPlayer.java:42-56 | the first target in row-major start order is blank and continues a run of the mark |
| GeniusPlayers.DownRightTargetOnBoard | Ex02-TicTacToe/GeniusPlayer.java:42-56 | every down-right target lies on the board |
| GeniusPlayers.TopRowMarkStopsUpLeftScan | Ex02-TicTacToe/GeniusPlayer.java:17-31 | a mark in the top row makes the up-left scan's first target (-1, j-1), which is off the board |
| GeniusPlayers.WalkFrom | Ex02-TicTacToe/GeniusPlayer.java:20-27 | the walk from (i, j) hits a target exactly when `DiagTarget` has one, and returns that target |
| GeniusPlayers.FindDiagTarget | Ex02-TicTacToe/GeniusPlayer.java:18-29 | the double loop finds the first diagonal target, or reports that none exists |
| GeniusPlayers.FindDiagTargetInRow | Ex02-TicTacToe/GeniusPlayer.java:44-53 | the inner loop finds the first target among starts in row i |
| GeniusPlayers.FillDiagonalsRight | Ex02-TicTacToe/GeniusPlayer.java:42-56 | succeeds exactly when a down-right target exists, and then marks it; otherwise the board is unchanged |
| GeniusPlayers.FillDiagonalsLeft | Ex02-TicTacToe/GeniusPlayer.java:17-31 | succeeds exactly when the first up-left target exists and is on the board (an off-board first target ends the scan with false) |
| GeniusPlayers.GeniusMove | Ex02-TicTacToe/GeniusPlayer.java:112-125 | rows, then columns, then the two diagonals, then the random source: the move is always a blank cell on the board |
| GeniusPlayers.PlayTurn | Ex02-TicTacToe/GeniusPlayer.java:112-125 | the genius turn marks exactly the cell `GeniusMove` picks |
| PlayerFactories.LowerChar | Ex02-TicTacToe/PlayerFactory.java:26 | maps A-Z to a-z and leaves every other character alone |
| PlayerFactories.ToLower | Ex02-TicTacToe/PlayerFactory.java:26 | lower-cases character by character, keeping the length |
| PlayerFactories.ToLowerIdempotent | Ex02-TicTacToe/PlayerFactory.java:26 | lower-casing twice is lower-casing once |
| PlayerFactories.ToLowerOfLower | Ex02-TicTacToe/PlayerFactory.java:26 | a name without capitals is left unchanged |
| PlayerFactories.BuildPlayer | Ex02-TicTacToe/PlayerFactory.java:25-44 | a player is built exactly for the four names, case-insensitively, and each name gives its own kind |
| PlayerFactories.BuildPlayerIgnoresCase | Ex02-TicTacToe/PlayerFactory.java:25-44 | a name and its lower-case form build the same player |
| PlayerFactories.BuildPlayerNames | Ex02-TicTacToe/PlayerFactory.java:8-11 | each of the four names builds a player |
| Games.ClampStreak | Ex02-TicTacToe/Game.java:43-53 | a streak outside 2..size becomes size; inside, it is kept |
| Games.FirstRunEndIsWinner | Ex02-TicTacToe/Game.java:74-88 | the first place a counted run reaches winStreak decides the line's winner |
| Games.NoRunEndNoWinner | Ex02-TicTacToe/Game.java:74-88 | no run reaching winStreak means no winner on the line |
| Games.LineWinnerSound | Ex02-TicTacToe/Game.java:74-88 | a line winner has a run of winStreak of its mark, the first such run on the line |
| Games.LineWinnerComplete | Ex02-TicTacToe/Game.java:74-88 | any run of winStreak equal non-blank marks gives the line a winner |
| Games.FirstWinnerIffRun | Ex02-TicTacToe/Game.java:72-91 | the row (or column) scan finds a winner exactly when some line has a winning run, and the winner has one |
| Games.LeftRunIsRightRun | Ex02-TicTacToe/Game.java:156-171 | a run walked up-left from a cell is the same cells as a down-right run: no anti-diagonal is ever checked |
| Games.DiagWinnerSound | Ex02-TicTacToe/Game.java:181-195 | a diagonal winner has a down-right run of winStreak of its mark |
| Games.DiagWinnerComplete | Ex02-TicTacToe/Game.java:181-195 | any down-right run of winStreak gives a diagonal winner |
| Games.WinnerSound | Ex02-TicTacToe/Game.java:203-213 | a reported winner owns a row, column or down-right line of winStreak |
| Games.WinnerComplete | Ex02-TicTacToe/Game.java:203-213 | whenever such a line exists, a winner is reported |
| Games.AntiDiagonalMissed | Ex02-TicTacToe/Game.java:181-195 | three X on the anti-diagonal of a 3x3 board are not reported as a win |
| Games.SingleCellWinner | Ex02-TicTacToe/Game.java:72-91 | with size and streak 1 the cell itself, blank included, is the line's result |
| Games.TurnMark | Ex02-TicTacToe/Game.java:229-236 | turn i plays X on even i and O on odd i, never blank |
| Games.EndGrid | Ex02-TicTacToe/Game.java:233-241 | the game loop ends on a board with a winner or with no blank left |
| Games.GameEnd | Ex02-TicTacToe/Game.java:222-242 | a game from the empty board ends with a winner or a full board |
| Games.EndGridStep | Ex02-TicTacToe/Game.java:233-240 | one loop iteration: play the turn, stop on a winner, otherwise continue |
| Games.TurnAlternates | Ex02-TicTacToe/Game.java:235-239 | after turn i, X leads O by (i+1) mod 2 marks |
| Games.EndGridAlternates | Ex02-TicTacToe/Game.java:233-240 | at the end, X has as many marks as O or one more |
| Games.GameOutcome | Ex02-TicTacToe/Game.java:222-242 | a game ends with a winner that owns a line, or a full board on which nobody owns one; X leads O by at most one |
| Games.Game.Default | Ex02-TicTacToe/Game.java:26-32 | the three-argument game: default size and streak |
| Games.Game.constructor | Ex02-TicTacToe/Game.java:43-53 | the five-argument game: size as given, streak clamped |
| Games.Game.GetWinStreak | Ex02-TicTacToe/Game.java:60-62 | the streak is always within 2..size, or size itself |
| Games.Game.ScanLine | Ex02-TicTacToe/Game.java:74-88 | the count loop over one row or column reaches winStreak exactly when the line has a winner, and reports it |
| Games.Game.CheckWinRow | Ex02-TicTacToe/Game.java:72-91 | returns the first row winner, or blank |
| Games.Game.CheckWinCol | Ex02-TicTacToe/Game.java:100-119 | returns the first column winner, or blank |
| Games.Game.CheckRightDiagonal | Ex02-TicTacToe/Game.java:130-145 | returns the mark that fills winStreak cells down-right from (row, col), or blank |
| Games.Game.CheckLeftDiagonal | Ex02-TicTacToe/Game.java:156-171 | the same walking up-left |
| Games.Game.CheckWinDiagonal | Ex02-TicTacToe/Game.java:181-195 | returns the first diagonal winner in row-major start order, or blank |
| Games.Game.CheckWin | Ex02-TicTacToe/Game.java:203-213 | rows, then columns, then diagonals: the result is `Winner` of the board |
| Games.Game.PlayRound | Ex02-TicTacToe/Game.java:235-239 | one turn then a winner check, staying on the path to the game's end |
| Games.Game.Run | Ex02-TicTacToe/Game.java:222-242 | the game's result is the winner of `GameEnd` for these players and move sources |
| Games.Game.PlayRounds | Ex02-TicTacToe/Game.java:233-241 | the turn loop returns the winner of `GameEnd` |
| Tournaments.CheckValidNames | Ex02-TicTacToe/Tournament.java:38-59 | accepts exactly when both player names are among the four known names |
| Tournaments.ValidNamesBuildPlayers | Ex02-TicTacToe/Tournament.java:86-89 | accepted names always build both players |
| Tournaments.PlayersSwapMarks | Ex02-TicTacToe/Tournament.java:127-128 | player one is X on even rounds and O on odd rounds |
| Tournaments.CreditRound | Ex02-TicTacToe/Tournament.java:131-148 | the switch credits the round's winner to the player holding that mark, or a tie |
| Tournaments.Tally | Ex02-TicTacToe/Tournament.java:126-149 | wins plus ties equal the rounds played |
| Tournaments.TallyCountsRounds | Ex02-TicTacToe/Tournament.java:131-148 | each counter equals the number of rounds player one won, player two won, or were tied |
| Tournaments.RoundsPlayed | Ex02-TicTacToe/Tournament.java:126 | a negative round count plays no rounds |
| Tournaments.Outcomes | Ex02-TicTacToe/Tournament.java:126-129 | round i's result is the game played with the players and marks swapped on odd rounds |
| Tournaments.TallyStep | Ex02-TicTacToe/Tournament.java:126-149 | one loop iteration keeps the score equal to the tally of the rounds so far |
| Tournaments.Tournament.constructor | Ex02-TicTacToe/Tournament.java:105-109 | stores the rounds and the players |
| Tournaments.Tournament.PlayRound | Ex02-TicTacToe/Tournament.java:127-129 | plays round i with the marks swapped on odd rounds |
| Tournaments.Tournament.PlayTournament | Ex02-TicTacToe/Tournament.java:120-155 | the final counters are the tally of every round's result, and they add up to the rounds played |
| FileImages.ColorOf | Ex04-ASCII-Art/image/FileImage.java:54-58 | decoding a packed pixel gives channels in 0..255 |
| FileImages.PackArgb | Ex04-ASCII-Art/image/FileImage.java:54-58 | packing ARGB fits a Java int |
| FileImages.ColorOfPackArgb | Ex04-ASCII-Art/image/FileImage.java:54-58 | decoding what was packed gives the colour back |
| FileImages.PowerAtLeast | Ex04-ASCII-Art/image/FileImage.java:67-76 | the doubling search ends on a power of two at least n, below 2n |
| FileImages.PowerAtLeastHits | Ex04-ASCII-Art/image/FileImage.java:67-76 | the search started below a power of two n stops at n |
| FileImages.NextExp | Ex04-ASCII-Art/image/FileImage.java:67-76 | the least power of two at least the number; a power of two maps to itself; below 1 gives 0 |
| FileImages.Padded | Ex04-ASCII-Art/image/FileImage.java:44-58 | the canvas has the padded size, the image is centred in it, and every margin pixel is white |
| FileImages.FileImage.constructor | Ex04-ASCII-Art/image/FileImage.java:32-59 | the sides are the next powers of two, and the pixels are the padded canvas |
| FileImages.FileImage.PaintCanvas | Ex04-ASCII-Art/image/FileImage.java:48-58 | filling white then copying the rows produces `Padded` |
| FileImages.FileImage.IsPadded | Ex04-ASCII-Art/image/FileImage.java:44-58 | a canvas that matches the cell-wise description is `Padded` |
| FileImages.FileImage.Freeze | Ex04-ASCII-Art/image/FileImage.java:54-58 | the array is read row by row into a grid of the same cells |
| FileImages.FileImage.FillWhite | Ex04-ASCII-Art/image/FileImage.java:48-52 | every pixel of the canvas becomes white |
| FileImages.FileImage.CopyRow | Ex04-ASCII-Art/image/FileImage.java:54-58 | one source row is decoded into place at the offsets; all other pixels are kept |
| FileImages.FileImage.GetPixel | Ex04-ASCII-Art/image/FileImage.java:102-104 | the pixel in column x of row y of the canvas |
| FileImages.PixelOfPicture | Ex04-ASCII-Art/image/FileImage.java:44-58 | pixel (x, y) of an image built from a picture is the picture's pixel shifted by half the added rows and columns, or white in the margin |
| FileImages.FileImage.GetWidth | Ex04-ASCII-Art/image/FileImage.java:82-84 | the padded width |
| FileImages.FileImage.GetHeight | Ex04-ASCII-Art/image/FileImage.java:90-92 | the padded height |
| Images.FileImageReadable | Ex04-ASCII-Art/image/FileImage.java:102-104 | every pixel within the canvas sides can be read |
| Images.PixelIsColor | Ex04-ASCII-Art/image/SubImage.java:41-43 | every readable pixel, through any chain of tiles, is a colour |
| SubImages.TilePixel | Ex04-ASCII-Art/image/SubImage.java:41-43 | a tile's pixel (x, y) is its parent's pixel (numCol*size+x, numRow*size+y) |
| SubImages.TileIsSquare | Ex04-ASCII-Art/image/SubImage.java:49-59 | a tile's width and height are both its size |
| SubImages.TileReadable | Ex04-ASCII-Art/image/SubImage.java:26-31 | a tile inside a readable parent is readable |
| SubImages.Equals | Ex04-ASCII-Art/image/SubImage.java:68-74 | equality holds exactly for tiles with the same parent, size and position |
| SubImages.EqualsIsEquivalence | Ex04-ASCII-Art/image/SubImage.java:68-74 | `equals` is reflexive, symmetric and transitive |
| SubImages.ParentIdentityMatters | Ex04-ASCII-Art/image/SubImage.java:68-74 | tiles of two distinct file images with equal pixels are not equal |
| SubImages.Wrap32 | Ex04-ASCII-Art/image/SubImage.java:80-82 | reduces to a Java int, congruent modulo 2^32 |
| SubImages.HashCode | Ex04-ASCII-Art/image/SubImage.java:80-82 | the hash is a Java int |
| SubImages.EqualImagesHashEqually | Ex04-ASCII-Art/image/SubImage.java:68-82 | equal tiles have equal hash codes |
| ImageIterables.JavaDiv | Ex04-ASCII-Art/image/ImageIterableProperty.java:38-40 | Java's int division, rounding toward zero |
| ImageIterables.PerRow | Ex04-ASCII-Art/image/ImageIterableProperty.java:43-53 | the cells per row of the traversal, at least one |
| ImageIterables.Enumeration | Ex04-ASCII-Art/image/ImageIterableProperty.java:33-55 | a traversal yields rows * perRow elements |
| ImageIterables.EnumerationLength | Ex04-ASCII-Art/image/ImageIterableProperty.java:33-55 | with 1 <= size <= width, exactly (height/size)*(width/size) cells are yielded |
| ImageIterables.CellElement | Ex04-ASCII-Art/image/ImageIterableProperty.java:43-53 | cell (x, y) is yielded at position y*perRow+x with the supplier's value there |
| ImageIterables.StepForward | Ex04-ASCII-Art/image/ImageIterableProperty.java:46-50 | the column or next-row step moves to the next position in row-major order |
| ImageIterables.ImageIterableProperty.constructor | Ex04-ASCII-Art/image/ImageIterableProperty.java:16-22 | cells of size 1 |
| ImageIterables.ImageIterableProperty.WithSize | Ex04-ASCII-Art/image/ImageIterableProperty.java:24-30 | cells of the given size |
| ImageIterables.ImageIterableProperty.Iterator | Ex04-ASCII-Art/image/ImageIterableProperty.java:33-55 | a fresh iterator at position 0 |
| ImageIterables.PropertyIterator.constructor | Ex04-ASCII-Art/image/ImageIterableProperty.java:33-37 | starts at cell (0, 0) |
| ImageIterables.PropertyIterator.HasNext | Ex04-ASCII-Art/image/ImageIterableProperty.java:38-40 | true exactly when elements remain |
| ImageIterables.PropertyIterator.Next | Ex04-ASCII-Art/image/ImageIterableProperty.java:43-53 | yields the next element of the enumeration and advances by one; when exhausted, NoSuchElement and no change |
| ImageDefaults.Pixels | Ex04-ASCII-Art/image/Image.java:52-55 | the pixel property of size 1, suppliable on every cell |
| ImageDefaults.PixelsInRowMajorOrder | Ex04-ASCII-Art/image/Image.java:52-55 | `pixels()` yields width*height pixels, the k-th being pixel (k mod width, k div width) |
| ImageDefaults.GetSubImages | Ex04-ASCII-Art/image/Image.java:63-66 | the tile property of the given size |
| ImageDefaults.SubImagesInRowMajorOrder | Ex04-ASCII-Art/image/Image.java:63-66 | the k-th tile is at row k div perRow and column k mod perRow, and its corner is the parent's pixel there |
| ImageDefaults.SubImagesInside | Ex04-ASCII-Art/image/Image.java:63-66 | every enumerated tile lies inside the image |
| ImageDefaults.FromFile | Ex04-ASCII-Art/image/Image.java:39-45 | a well-formed file image with power-of-two sides |
| BrightnessMatchers.RowInk | Ex04-ASCII-Art/ascii_art/img_to_char/BrightnessImgCharMatcher.java:88-93 | ink counted in a glyph row is at most the cells scanned |
| BrightnessMatchers.GlyphInk | Ex04-ASCII-Art/ascii_art/img_to_char/BrightnessImgCharMatcher.java:87-94 | ink counted in a glyph is at most the cells scanned |
| BrightnessMatchers.InkShare | Ex04-ASCII-Art/ascii_art/img_to_char/BrightnessImgCharMatcher.java:85-96 | a glyph's brightness is its ink share, in [0, 1] |
| BrightnessMatchers.Lowest | Ex04-ASCII-Art/ascii_art/img_to_char/BrightnessImgCharMatcher.java:115-123 | the minimum raw brightness: one of the values and no larger than any |
| BrightnessMatchers.Highest | Ex04-ASCII-Art/ascii_art/img_to_char/BrightnessImgCharMatcher.java:128-136 | the maximum raw brightness: one of the values and no smaller than any |
| BrightnessMatchers.Normalize | Ex04-ASCII-Art/ascii_art/img_to_char/BrightnessImgCharMatcher.java:106-109 | NaN exactly when max equals min; otherwise a value in [0, 1] |
| BrightnessMatchers.NormalizeByDifference | Ex04-ASCII-Art/ascii_art/img_to_char/BrightnessImgCharMatcher.java:106-109 | the value is (v - min) / (max - min), NaN for a zero difference |
| BrightnessMatchers.NormalizeEnds | Ex04-ASCII-Art/ascii_art/img_to_char/BrightnessImgCharMatcher.java:101-110 | the dimmest glyph maps to 0 and the brightest to 1 |
| BrightnessMatchers.NormalizeMonotone | Ex04-ASCII-Art/ascii_art/img_to_char/BrightnessImgCharMatcher.java:101-110 | normalisation keeps the glyphs' order |
| BrightnessMatchers.Lookup | Ex04-ASCII-Art/ascii_art/img_to_char/BrightnessImgCharMatcher.java:106-109 | the glyphs' values in key order |
| BrightnessMatchers.FiniteValues | Ex04-ASCII-Art/ascii_art/img_to_char/BrightnessImgCharMatcher.java:115-136 | the finite brightness values in key order |
| BrightnessMatchers.ClosestIndex | Ex04-ASCII-Art/ascii_art/img_to_char/BrightnessImgCharMatcher.java:209-219 | the scan keeps the first glyph at least distance from the value |
| BrightnessMatchers.BestCharIsClosest | Ex04-ASCII-Art/ascii_art/img_to_char/BrightnessImgCharMatcher.java:200-220 | the chosen glyph is nearest to the tile's brightness, the first among equals |
| BrightnessMatchers.ExactMatchWins | Ex04-ASCII-Art/ascii_art/img_to_char/BrightnessImgCharMatcher.java:202-208 | the first glyph whose brightness equals the value exactly is chosen |
| BrightnessMatchers.Gray | Ex04-ASCII-Art/ascii_art/img_to_char/BrightnessImgCharMatcher.java:177-184 | the BT.709 grey of a colour is in [0, 255] |
| BrightnessMatchers.TileBrightnessBounds | Ex04-ASCII-Art/ascii_art/img_to_char/BrightnessImgCharMatcher.java:175-192 | a tile's brightness, the grey sum over size*size*255, is in [0, 1] |
| BrightnessMatchers.BrightnessImgCharMatcher.constructor | Ex04-ASCII-Art/ascii_art/img_to_char/BrightnessImgCharMatcher.java:38-44 | the image and font are stored and all caches are empty |
| BrightnessMatchers.BrightnessImgCharMatcher.ChooseChars | Ex04-ASCII-Art/ascii_art/img_to_char/BrightnessImgCharMatcher.java:53-57 | the palette becomes exactly the given characters, each brightness is that glyph's cached raw brightness normalised by the palette's least and greatest (`NormalizedFrom`), and every grid cell holds the glyph closest to its tile's brightness |
| BrightnessMatchers.BrightnessImgCharMatcher.CalcBrightnessOfSet | Ex04-ASCII-Art/ascii_art/img_to_char/BrightnessImgCharMatcher.java:64-75 | the palette's brightness map covers exactly the palette, each value normalised between the palette's min and max raw brightness |
| BrightnessMatchers.BrightnessImgCharMatcher.GatherBrightness | Ex04-ASCII-Art/ascii_art/img_to_char/BrightnessImgCharMatcher.java:65-73 | each glyph's raw brightness is taken from the cache or computed, and the cache only grows |
| BrightnessMatchers.BrightnessImgCharMatcher.CalcInitCharBrightness | Ex04-ASCII-Art/ascii_art/img_to_char/BrightnessImgCharMatcher.java:85-96 | the counting loop computes the glyph's ink share |
| BrightnessMatchers.BrightnessImgCharMatcher.NormalBrightness | Ex04-ASCII-Art/ascii_art/img_to_char/BrightnessImgCharMatcher.java:101-110 | every glyph's value becomes its normalised raw brightness; nothing else changes |
| BrightnessMatchers.BrightnessImgCharMatcher.Rescale | Ex04-ASCII-Art/ascii_art/img_to_char/BrightnessImgCharMatcher.java:106-109 | the loop replaces each glyph's value with its normalised value |
| BrightnessMatchers.BrightnessImgCharMatcher.GetMinBrightness | Ex04-ASCII-Art/ascii_art/img_to_char/BrightnessImgCharMatcher.java:115-123 | the least raw brightness; -1 for an empty palette |
| BrightnessMatchers.BrightnessImgCharMatcher.GetMaxBrightness | Ex04-ASCII-Art/ascii_art/img_to_char/BrightnessImgCharMatcher.java:128-136 | the greatest raw brightness; -1 for an empty palette |
| BrightnessMatchers.BrightnessImgCharMatcher.ConvertToAsciiChars | Ex04-ASCII-Art/ascii_art/img_to_char/BrightnessImgCharMatcher.java:144-165 | a (height/s)-by-numCharsInRow grid whose every cell is the glyph closest to its tile's brightness; only the tile cache changes |
| BrightnessMatchers.BrightnessImgCharMatcher.FillGrid | Ex04-ASCII-Art/ascii_art/img_to_char/BrightnessImgCharMatcher.java:150-163 | the loop over the tiles fills every cell |
| BrightnessMatchers.BrightnessImgCharMatcher.FilledGrid | Ex04-ASCII-Art/ascii_art/img_to_char/BrightnessImgCharMatcher.java:150-163 | a grid filled in row-major order holds the best glyph at every (row, col) |
| BrightnessMatchers.BrightnessImgCharMatcher.WriteCell | Ex04-ASCII-Art/ascii_art/img_to_char/BrightnessImgCharMatcher.java:161 | writing the k-th cell extends the filled prefix by one |
| BrightnessMatchers.BrightnessImgCharMatcher.NextTile | Ex04-ASCII-Art/ascii_art/img_to_char/BrightnessImgCharMatcher.java:150-152 | the k-th tile is at row k div n and column k mod n, inside the image |
| BrightnessMatchers.BrightnessImgCharMatcher.MatchTile | Ex04-ASCII-Art/ascii_art/img_to_char/BrightnessImgCharMatcher.java:153-160 | the tile brightness comes from the cache or is computed, and the glyph is the closest one |
| BrightnessMatchers.BrightnessImgCharMatcher.ConvertSingleImgToDouble | Ex04-ASCII-Art/ascii_art/img_to_char/BrightnessImgCharMatcher.java:175-192 | computes the tile's brightness, in [0, 1] |
| BrightnessMatchers.BrightnessImgCharMatcher.GreyPixels | Ex04-ASCII-Art/ascii_art/img_to_char/BrightnessImgCharMatcher.java:177-184 | the array holds each pixel's grey, row by row |
| BrightnessMatchers.BrightnessImgCharMatcher.SumGrey | Ex04-ASCII-Art/ascii_art/img_to_char/BrightnessImgCharMatcher.java:185-190 | the sum of the greys in the array |
| BrightnessMatchers.BrightnessImgCharMatcher.FindBestChar | Ex04-ASCII-Art/ascii_art/img_to_char/BrightnessImgCharMatcher.java:200-220 | returns `BestChar`, the glyph closest to the value |
| Shells.SingleCharEdit | Ex04-ASCII-Art/ascii_art/Shell.java:227-242 | accepts exactly `add c` and `remove c` with a printable c; `add c` inserts c |
| Shells.AllEdit | Ex04-ASCII-Art/ascii_art/Shell.java:250-260 | accepts exactly `add all` and `remove all` |
| Shells.SpaceEdit | Ex04-ASCII-Art/ascii_art/Shell.java:268-278 | accepts exactly `add space` and `remove space` |
| Shells.RangeEdit | Ex04-ASCII-Art/ascii_art/Shell.java:286-294 | accepts exactly the inputs `checkValidRangeInput` accepts |
| Shells.RangeIndicesExist | Ex04-ASCII-Art/ascii_art/Shell.java:303-317 | an accepted range command has the indices `helper_range` reads |
| Shells.Span | Ex04-ASCII-Art/ascii_art/Shell.java:327-346 | the printable characters in a code-point interval |
| Shells.Edit | Ex04-ASCII-Art/ascii_art/Shell.java:216-219 | a rejected command is rejected by every edit kind |
| Shells.AddCharInserts | Ex04-ASCII-Art/ascii_art/Shell.java:227-242 | `add c` inserts c |
| Shells.RemoveCharRemovesV | Ex04-ASCII-Art/ascii_art/Shell.java:238 | `remove c` removes 'v' rather than c, and keeps c |
| Shells.AddAllRemoveAll | Ex04-ASCII-Art/ascii_art/Shell.java:250-260 | `add all` adds every printable character and nothing else; `remove all` empties the palette |
| Shells.SpaceToggles | Ex04-ASCII-Art/ascii_art/Shell.java:268-278 | `add space` inserts the space and `remove space` removes it |
| Shells.AddRangeInserts | Ex04-ASCII-Art/ascii_art/Shell.java:327-346 | `add a-b` inserts every character between a and b, in either order |
| Shells.RemoveRangeRemovesV | Ex04-ASCII-Art/ascii_art/Shell.java:327-346 | `remove a-b` removes only 'v' |
| Shells.AcceptanceIgnoresPalette | Ex04-ASCII-Art/ascii_art/Shell.java:216-219 | whether a command is accepted does not depend on the palette |
| Shells.EditIdempotent | Ex04-ASCII-Art/ascii_art/Shell.java:216-219 | repeating an accepted edit changes nothing more |
| Shells.EditKeepsPrintable | Ex04-ASCII-Art/ascii_art/Shell.java:216-219 | edits keep a palette of printable characters printable |
| Shells.PowerQuotient | Ex04-ASCII-Art/ascii_art/Shell.java:105-107 | width over height is a power of two, or 0 |
| Shells.Resize | Ex04-ASCII-Art/ascii_art/Shell.java:194-208 | a resize stays within the bounds, or leaves the value unchanged |
| Shells.UpThenDown | Ex04-ASCII-Art/ascii_art/Shell.java:194-208 | a successful `res up` doubles, and `res down` then undoes it |
| Shells.ResizeKeepsPower | Ex04-ASCII-Art/ascii_art/Shell.java:194-208 | the characters per row stay a power of two |
| Shells.InitialResolution | Ex04-ASCII-Art/ascii_art/Shell.java:105-107 | the minimum is at least 1 and at most the start; the maximum is width/2 |
| Shells.InitialResolutionIsPower | Ex04-ASCII-Art/ascii_art/Shell.java:105-107 | the start width is a power of two no wider than the image |
| Shells.SixtyFourIsPower | Ex04-ASCII-Art/ascii_art/Shell.java:74 | the initial 64 characters per row is a power of two |
| Shells.FromFileIsCanvas | Ex04-ASCII-Art/image/Image.java:39-45 | an image read from a non-empty file is a canvas the shell accepts |
| Shells.Shell.constructor | Ex04-ASCII-Art/ascii_art/Shell.java:95-110 | the palette is the digits, output goes to HTML, and the resolution bounds come from the image |
| Shells.Shell.CharRange | Ex04-ASCII-Art/ascii_art/Shell.java:98-100 | every character from first to last |
| Shells.Shell.Execute | Ex04-ASCII-Art/ascii_art/Shell.java:115-147 | each command is recognised in the order the loop tries them: `exit`, `chars`, palette edits with their format errors, `res up`/`res down` with the width message or the boundary error, `console`, `render` (refused for an empty palette; otherwise `Rendered` with the console flag and the grid of `RenderOutput`: the closest glyph per tile of the palette normalised by `NormalizedFrom`), and the error for anything else, which changes nothing; only palette edits change the palette, only `res up`/`res down` change the width, only `console` sets the console flag, and only `render` touches the matcher |
| Shells.Shell.RenderOutput | Ex04-ASCII-Art/ascii_art/Shell.java:153-170 | an empty palette renders nothing and leaves the matcher alone; otherwise the matcher's palette is exactly the shell's, normalised from the glyphs' raw brightness (`NormalizedFrom`), and the grid holds, per tile, the closest glyph |
| Shells.Shell.ConvertToArr | Ex04-ASCII-Art/ascii_art/Shell.java:178-186 | the array lists the palette, each character once |
| Shells.Shell.ResUpDown | Ex04-ASCII-Art/ascii_art/Shell.java:194-208 | the width becomes `Resize` of the old one, and success is reported exactly when it stays in bounds and changed |
| Shells.Shell.AddRemove | Ex04-ASCII-Art/ascii_art/Shell.java:216-219 | the palette becomes `Edit` of the old one when accepted, and is kept otherwise |
| Shells.Shell.AddRemoveSingleChar | Ex04-ASCII-Art/ascii_art/Shell.java:227-242 | applies `SingleCharEdit` |
| Shells.Shell.AddRemoveAll | Ex04-ASCII-Art/ascii_art/Shell.java:250-260 | applies `AllEdit` |
| Shells.Shell.AddRemoveSpace | Ex04-ASCII-Art/ascii_art/Shell.java:268-278 | applies `SpaceEdit` |
| Shells.Shell.AddRemoveRange | Ex04-ASCII-Art/ascii_art/Shell.java:286-294 | applies `RangeEdit` |
| Shells.Shell.HelperRange | Ex04-ASCII-Art/ascii_art/Shell.java:327-346 | `add` inserts every printable character between the two ends; `remove` removes 'v' when that span is not empty |

## Left out

- Console input, the command loop's reading, all printing, the HTML and console outputs, and the `Renderer`s passed to `Game` and `Tournament`. `Shell.Execute` returns a `Reply` value in place of the printed messages.
- `CharRenderer.getImg` (rasterising a glyph in a font) is a parameter `rasterize` of the matcher. Font rendering is not part of this model.
- Reading an image file. `FromFile` takes the decoded ARGB rows. The `IOException` path that returns null is not modelled.
- `main` of the ASCII-art program and `Tournament.main`'s parsing of the round count, board size and streak from strings. `Tournament.main` crashes when fewer than six arguments are given; that crash is not modelled.
- Randomness in `WhateverPlayer` and the genius and clever fallbacks, and console input in `HumanPlayer`. These move sources are a `Chooser` parameter that must pick a blank cell. The retry loop until `putMark` succeeds is folded into that requirement.
- `GeniusPlayer.fillLines` is the same code as `CleverPlayer.fillLines`. It is modelled once, as `CleverPlayers.FillLines`, and both players use it.
- Java `double` arithmetic is modelled as exact `real` arithmetic without rounding. NaN is the only special value modelled.
- `FileImages.NextExp` computes the next power of two on integers. `getNextExp` uses the floating-point `log`/`ceil`/`pow` chain; rounding effects of that chain are not modelled.
- 32-bit `int` overflow is modelled only in `SubImage.hashCode` (`Wrap32`). Elsewhere, sizes and counters are unbounded integers.
- `HashMap` and `HashSet` iteration order. The palette array order from `convertToArr` is an arbitrary order (`:|`). Per-tile and per-glyph caches are maps whose values are fixed at first insertion.
- `PlayerFactories.ToLower` lowers only ASCII A-Z; `String.toLowerCase` also folds non-ASCII letters.
- Boards.Board.constructor: the size is a `nat`. A negative size makes `new Mark[size][size]` (Board.java:43) throw `NegativeArraySizeException`; that exception is not modelled.
- Games.Game.constructor: the size is a `nat`. A negative size, which `Tournament.main` can parse from its arguments (Tournament.java:76), reaches `new Board(size)` (Game.java:223) and throws there; that exception is not modelled.
- Shells.Shell.constructor: requires a canvas image (a file image with power-of-two sides and at least one row). An image of height zero makes the Java constructor divide by zero, which the model does not follow.
- Shells.Shell.Execute: `render` requires a non-empty canvas width. The division by zero in the Java code for a zero width is not modelled.
- BrightnessMatchers.BrightnessImgCharMatcher.ChooseChars: requires `numCharsInRow` to divide the image width and be at most the width. This always holds for a power-of-two resolution within the shell's bounds. Other widths are not modelled: a width larger than the image makes the tile side 0 and the Java code divides by zero; a width that does not divide the image's (16 and 6, say: tiles of side 2, 8 per row) yields more tiles per row than the array has columns, and the write at BrightnessImgCharMatcher.java:161 runs past the array's last row.
- Shells.Shell.HelperRange: the Java loop variable is a `char`, so a range ending at U+FFFF never terminates. A 10-character `add` command is validated at other indices than the ones the loop reads, so that input reaches the loop. The model's loop runs over integers and stops. Surrogate code points, which Dafny's `char` excludes, are skipped.
- `Image.pixels()` on an image of width zero is not covered by `ImageDefaults.PixelsInRowMajorOrder`, which requires width at least 1.
- ImageDefaults.Pixels: requires `PixelsReadable(img)`, which excludes an image of width zero that has rows. On such an image Java's `pixels()` returns normally and only the first `next()` throws.
