# A verified model of the kernels of the RAND editor `e`

The editor `e` (branch e20) is a full-screen editor in C. Between its terminal and file layers lie
algorithms that can be stated without either: a regular expression compiler and matcher, a screen manager
that drives a terminal with as few codes as it can, windows repainted in part, a line codec, a filler and
justifier, the editing of lines and rectangles, search and replacement, the tiling of windows and the lookup
of abbreviated names. This project models them in Dafny, as the C code has them, and proves what they are
for. Each state-changing function of the source is a method over the same state, proved against functions or
predicates that say what it is to do; the properties that span several of them are lemmas about those.

`dafny verify dfyconfig.toml` checks everything.

## The parts

Regular expressions (`Pattern`, `Matching`, `Searching`, `Compiling`, `RegexEngine`, `PatternSearch`,
`Meaning`). A pattern is a sequence of items; a match is a path of positions, one after each item, and
captures follow from the path. `Greediest` says that each item takes as much as the later ones allow. The
matcher finds the greediest match and nothing else, the compiler produces exactly the bytes of the items a
text is read as, and the greediest match is the longest because paths that cross can be exchanged. `Meaning`
says, apart from all that, what an expression takes from a line, by the rules of the documentation, proves
that the items its text is read as match just that, and finds an expression for every text that compiles.

The display (`Terminal`, `Emulator`, `Codes`, `Display`, `Painting`, `Redisplay`). `Terminal` says what a
terminal does with each code, as far as its declared traits go. `Emulator` gives the meaning of a stream of
the editor's own codes as a value, and `Codes` says what that comes to, code by code. `Display` is the screen
manager: over any stream it keeps its image equal to that meaning, its record of the cursor equal to the
terminal's, and every cell but the corner equal to the image, but for the runs of blanks told of below.
`Painting` repaints rows from bounds of what they show, and `Redisplay` brings every window on a file up to
date, keeping those bounds right while rows are scrolled.

Lines (`LineCodec`, `FileForms`, `Editing`, `SplitEscapes`, `Rectangles`, `Replacing`). `LineCodec` relates a
line of the file to the line in memory, both ways, the second in place in an array, and `FileForms` tells
which lines are written back as they were. The others edit a file of lines through the one current line of the
editor, with its pending change, and what saving does to a line is that codec; `SplitEscapes` is about lines
split inside the escape of an ESC.

Paragraphs (`Filling`, `Paragraphs`, `Rendering`). Words go through a ring; lines are broken greedily and
justified by spreading blanks over gaps; `Rendering` says in which columns the words then stand.

`Tiling` and `Lookup` are about windows that lie under one another or side by side, and about tables of names.

## What was found

Where the code does not do what it seems meant to, the model follows the code. The failure is proved for an
input, and where the property holds is proved as an exact condition, in the members named.

- With back references the greediest match need not be the longest (`GreediestNotLongestWithBack`), though
  the documentation promises the longest of the leftmost for every pattern. It is, if those after the first
  star are to groups closed before it (`GreediestIsLongest`).
- A starred back reference that finds no number of copies to go on from does not fail: the matcher goes on
  from a copy's length before the place it began at (`StarBack`, `BackFromThere`).
- A back reference to a group that captured nothing matches only where the next character is the one that
  follows the place of the group (`CopiesAt`, `BackRef`).
- At the end of the subject `re_exec` accepts only `^`, `$` and `^$`; that is right exactly for those and
  for patterns that need a character (`EndOfSubject`).
- Searching backward, the text kept as matched is that of a later match exactly when some match begins at or
  after the start on the line where the search began and ended (`Backward`).
- A key with ESC before `*` or a newline character is taken for one with `^J`, because two bits are set before
  the comparison with `j` (`BitsOfJ`). A search for a string then misses it where it is (`MisreadKey`); among
  the keys without `^J` exactly such keys are misread (`ReadsPlain`). A search for a pattern refuses them
  (`PatSearch`).
- A pattern that ends in a quoted backslash is searched for as if it ended in a quoted `$`
  (`QuotedBackslashLast`), since its last character is taken for a lone backslash, which stands for `$`.
- On a terminal that erases, a run of blanks that goes on to another line can leave the record of the cursor
  at odds with the terminal (`PutMult` has the exact condition on the display, `EraseBelow` what happens).
- On a terminal that clears to the end of the line, so can a run of blanks with one cell not blank to its
  right, which is shown again elsewhere, except in the first line of the screen. It does not when that cell is
  in the last column of a terminal that does not say where its cursor is then (`Misleads` and `Spared`, exactly;
  `ClearRun`, `PutMult`).
- A two-byte column address of the width itself is let through, one beyond the last column (`AddressColumn`).
- When lines are both altered and inserted, as filtering may do, a window that begins further down among the
  altered lines than as many as were inserted is left with old rows: `putup` is asked to begin at a negative
  row, which it takes for a wish to show the current line in the last one (`Inserted` and `Refresh` exactly
  when; `GarbledShows` when the rows are right all the same, `SkewedExample` when not).
- In -tabs mode control characters take two columns in memory and one in the file. A line is stable exactly
  when every run of blanks that reaches a tab stop has a multiple of eight of them before it
  (`SavedLineIsStable`).
- In -tabs mode the column 10000 stands for no column, so lines longer than that can be written wrongly
  (`TooLong`; `CodedIff` which are right). What is said of lines written in that mode is for those that are.
- In literal mode with stripping, a line that ends in tabs is not stable (`LiteralStrips`). A line split after
  a tab is then joined with blanks for it (`TabComesBackBlank`, `TabsLost`; `SplitThenJoin` exactly when).
- Where blanks at the end of lines are kept, a rectangle taken out and put back lengthens the lines that are
  shorter than it reaches (`RectangleRestored`).
- A line split inside the escape of an ESC at its end is joined with two (`SplitInLastEsc`); elsewhere it
  depends on what follows (`SplitInEsc` exactly when).
- `dojoin` at a column beyond the end of the lower line takes as many characters off the upper one, until
  there are none left to take: then it keeps all it has before that column, but a newline is written in front
  of the buffer (`UpperKept` exactly when, `UpperLost`, `UpperUntouched`, `DoJoin`).
- `alt_h_winresize` changes the bottommost window before it finds that the chosen one cannot shrink, and
  shrinks windows by more rows than they have (`AltHWinresize`: exactly when the windows are not tall enough).
- `alt_h_winresize` shows the file of the bottommost window from its first line if that fits in as many rows
  more, though another window may be given them (`Sound` in `AltHWinresize`).
- `alt_w_winresize` holds back only the rightmost window: the chosen one may be made narrower than a window
  can be (`AltWWinresize`: exactly when it is not wide enough).
- A paragraph whose words have all been put out when it ends, the last of them longer than the line, ends
  with a line of nothing but its indent (`PutWords`).
- When the second line of the input is a single word at the very end of the input, its indent is not used
  (`Doit`).

## Model

| member | source | states |
|---|---|---|
| Pattern.ParseElemsShrinks | e20/e.re.c:512-541 | reading a bracketed class leaves strictly less text, whatever the ranges in it, so reading a pattern ends |
| Pattern.ParseSeqChained | e20/e.re.c:523-538 | in every pattern that is read, each range of a class continues from the member read just before it |
| Pattern.ParseSeqSound | e20/e.re.c:545-565 | groups are numbered in the order they are opened and closed innermost first, so the only condition left on a pattern is on its back references |
| Pattern.TextIsSound | e20/e.re.c:457-576 | a text whose classes fit a byte and whose back references name closed groups compiles to items the matcher can run: fits and groups are sound |
| Matching.MembersHave | e20/e.re.c:819-834 | the bytes a class is stored as hold exactly the characters its members and ranges name |
| Matching.GreediestUnique | e20/e.re.c:668-777 | there is at most one match in which every item takes as much as the later items allow |
| Matching.Exchange | e20/e.re.c:414-415 | two matches whose positions cross can exchange their ends, when back references are to groups both have closed the same way |
| Matching.GreediestIsLongest | e20/e.re.c:416-417 | the greediest match from a place is the longest of all matches from it, for every pattern whose back references after the first star are to groups closed before it |
| Matching.NoBackEarly | e20/e.re.c:416-417 | patterns without back references are among those |
| Matching.GreediestNotLongestWithBack | e20/e.re.c:416-417 | with a back reference it need not be: on aaaa, n b's and a, the greediest match of \(a*\).*\1 is shorter than another by n + 1, for every n from 1 on |
| Matching.EndOfSubject | e20/e.re.c:603-609 | at the end of the subject, taking only ^, $ and ^$ agrees with what the pattern means exactly when it is one of those or asks for a character |
| Matching.CapsExact | e20/e.re.c:714-720 | the group boundaries left by a whole pattern are those of the path that succeeded, whatever failed branches wrote |
| Matching.CapsWithin | e20/e.re.c:639-649 | the boundaries of groups that were closed lie within the match, so that moving them into the copy is sound |
| Matching.PathAgree | e20/e.re.c:668-777 | whether a path is a match does not depend on boundaries the rest of a sound pattern cannot look at |
| Matching.StarFound | e20/e.re.c:766-772 | trying the ends of a star from the furthest down, the first end that lets the rest match gives the greediest match |
| Matching.StarFailed | e20/e.re.c:766-773 | if no end of a star lets the rest match, there is no match at all |
| Matching.BackFromThere | e20/e.re.c:731-743 | \(a\)b\1*bc and the line abc: no number of copies lets the rest match, which it does a copy's length before the star |
| Matching.MadeOutCat | e20/e.re.c:848-876 | two templates one after the other make out to what they make out to |
| Matching.QuotedMakesItself | e20/e.re.c:848-876 | any text can be asked for: with a backslash before & and backslash it makes out to itself, whatever matched |
| Matching.MarksMakeOut | e20/e.re.c:848-876 | & makes out to all that matched, a backslash and a number to what that group took, any other character to itself |
| Matching.GroupInCopy | e20/e.re.c:638-649 | what a group took in the line is between its boundaries in the copy |
| RegexEngine.FirstCharacter | e20/e.re.c:620-632 | a pattern that begins with a plain character matches only where that character is, so the fast scan misses nothing |
| RegexEngine.Regex.CClass | e20/e.re.c:819-834 | the loop over a stored class answers whether the character is in it, or out of it; NUL is neither |
| RegexEngine.Regex.BackRef | e20/e.re.c:792-804 | whether the text of a group recurs at a place; a group that captured nothing compares one character |
| RegexEngine.Regex.TakeOne | e20/e.re.c:681-713 | an item of one character takes the subject's character exactly when its pattern does |
| RegexEngine.Regex.StarEnd | e20/e.re.c:744-765 | the scanning loops find the furthest end of a starred item, and every end before it is one |
| RegexEngine.Regex.TryEnds | e20/e.re.c:766-773 | the loop at the label star returns the greediest match of the rest from any end of the star, and no match exactly when there is none |
| RegexEngine.Regex.StarBack | e20/e.re.c:731-743 | a starred back reference takes the most copies that let the rest match, and if none do, goes on with the rest from a copy's length before the star: wrong exactly when that matches |
| RegexEngine.Regex.Advance | e20/e.re.c:668-777 | the backtracking matcher accepts at a place exactly when the pattern does there, ends where the greediest match ends, and leaves that match's group boundaries |
| RegexEngine.Regex.CompMembers | e20/e.re.c:516-541 | the members of a class are stored as they are named, ranges spelled out, and the three ways a class can be malformed are told apart |
| RegexEngine.Regex.CompClass | e20/e.re.c:512-544 | a class is compiled to the code of its meaning, negation included |
| RegexEngine.Regex.CompEscape | e20/e.re.c:545-568 | groups and back references are compiled with the right numbers, with the errors for too many, unmatched and undefined groups |
| RegexEngine.Regex.CompRepeat | e20/e.re.c:500-505 | a star sets a bit in the opcode of the item before it, or stands for itself at the start and after group marks |
| RegexEngine.Regex.Comp | e20/e.re.c:457-576 | compilation yields exactly the byte code of the items that the text is read as, or the error for it, and never anything in between; TextMeans says what those match |
| RegexEngine.Regex.Try | e20/e.re.c:610-637 | one attempt at a place, independent of the boundaries left by the attempts before it |
| RegexEngine.Regex.Exec | e20/e.re.c:593-653 | the match found begins at the leftmost place there is one, is the greediest there, and the longest unless a back reference after the first star is to a group not closed before it; its text and relocated boundaries are kept; none is reported only if there is none |
| RegexEngine.Regex.GotIt | e20/e.re.c:638-649 | the matched text is copied out and the boundaries moved into the copy |
| RegexEngine.Regex.Replace | e20/e.re.c:848-876 | the template with & and \n standing for the whole match and the groups |
| PatternSearch.Searcher.Forward | e20/e.re.c:109-219 | the least place after the start, or at it if starthere is set, up to the limit line, at which the pattern matches; not found exactly when there is none |
| PatternSearch.Searcher.LastOnLine | e20/e.re.c:156-197 | stepping through the matches of a line comes to the last one that begins before a column |
| PatternSearch.Searcher.Backward | e20/e.re.c:109-219 | the greatest place strictly before the start at which the pattern matches; and the text kept as matched is that of this place if and only if no match begins at or after the start on its line |
| PatternSearch.Searcher.PatSearch | e20/e.re.c:59-220 | both for the text of a pattern, forward and backward: the nearest match ahead within the limit, none exactly if there is none, and the text kept the longest match where it begins, but for back references as above; a malformed pattern, or one that seems to name ^J, finds nothing |
| PatternSearch.BitsOfJ | e20/e.re.c:77-80 | a character taken for j once the bits of 0140 are set is j, J, * or the newline |
| Meaning.TextMeans | e20/e.re.c:392-415 | what a text matches, by the documented rules 1 to 9: characters, dots, quoted characters, classes with ranges, stars, groups, copies of groups, one expression after another, ^ and $: the items it is read as match s[p..q] if and only if the expression takes that, which is said for expressions and not for items, whatever their nesting |
| Meaning.EveryText | e20/e.re.c:457-576 | and the texts written for expressions are all that compile, but for those in which a copy of a group is repeated |
| Meaning.PlaceMeans | e20/e.re.c:593-637 | so there is a match at a place if and only if the expression takes something from there |
| Meaning.LettersAndDots | e20/e.re.c:495-498 | a text of letters and dots matches exactly where it stands, its dots counting for any character |
| Meaning.QuotedStands | e20/e.re.c:545-568 | every text, with a backslash before each character that means something, matches exactly where it stands |
| Meaning.HitMeans | e20/e.re.c:109-219 | the places a search can stop at are those at which the expression takes something |
| Meaning.BackslashLast | e20/e.re.c:84-85 | a backslash at the end of the text stands for $ |
| Meaning.OtherLast | e20/e.re.c:84-85 | any other text is searched for as it is |
| Meaning.QuotedBackslashLast | e20/e.re.c:84-85 | but one that ends in a quoted backslash is searched for as if it ended in a quoted $ |
| Terminal.Traits.FarAway | e20/e.d.c:1672-1680 | the place the manager takes the cursor to be at when it has lost it is never mistaken for one on the screen |
| Emulator.RepeatedIsTyped | e20/e.d.c:276-296 | a repeated character means that many characters typed, if the run does not pass the corner |
| Emulator.ByLinesIsTyped | e20/e.d.c:1121-1154 | filling a run line by line means typing its characters one by one, short of the corner |
| Emulator.PutAllAdd | e20/e.t.c:508-549 | a run is the run of its first part followed by the run of the rest, across line ends |
| Emulator.Burst | e20/e.t.c:523-533 | a repeat count of up to 95 and a character mean that many characters typed |
| Emulator.Singles | e20/e.t.c:534-547 | so do up to three characters by themselves |
| Codes.OneOp | e20/e.d.c:223-672 | an address with line and column, home, return, an arrow with a count and a character with a count do what they say: the place addressed, so many steps round the edge of the screen, so many characters one by one until the corner is filled |
| Codes.StreamDone | e20/e.d.c:223-672 | any stream of them does one after the other, and is among the streams d_write is proved for |
| Display.Display.ColumnZero | e20/e.d.c:1480-1501 | moves to the first column by return and a line up or down go where the image cursor is, or are not tried |
| Display.Display.TryArrows | e20/e.d.c:1512-1588 | arrows, and blanks put over blanks in place of arrows, go where the image cursor is and change no cell |
| Display.Display.AddressTo | e20/e.d.c:1590-1642 | addressing one axis, or both, goes where the image cursor is |
| Display.Display.MoveTo | e20/e.d.c:1467-1649 | however the cursor is moved, it ends where the image cursor is and no cell changes |
| Display.Display.ShowHere | e20/e.d.c:1665-1698 | a character is shown and the record of the cursor follows what the terminal does in its last column, for each of the four ways it may do it |
| Display.Display.PutScr | e20/e.d.c:1454-1710 | the two together: one cell is changed, and the record of the cursor is right, unless the corner would scroll, when nothing is sent |
| Display.Display.DbFill | e20/e.d.c:1294-1386 | a stretch of a row is one character on the terminal and in the image, whether written, erased, or cleared with the rest of the line; the record of the cursor strays exactly when the terminal is to erase with the column of another line on record, or clears with one cell to be shown again that is then shown elsewhere |
| Display.Display.ClearRun | e20/e.d.c:1314-1348 | a run cleared to the end of the line, and the one cell right of it shown again, if at most one is not blank there; the record strays exactly when there is one, the line is not the first of the screen, and the cell is not in the last column under the arrows and the kind of terminal that spare it |
| Display.Display.PutLine | e20/e.d.c:1127-1151 | the share of one line of a run is shown, and the rest left for the line below; the record of the cursor strays in it exactly when the terminal erases with a stale column or clears and shows the one cell again elsewhere |
| Display.Display.PutMult | e20/e.d.c:1121-1154 | a repeated character leaves image and cursor as that many characters typed, and cursor record and terminal right unless it strays: exactly when blanks begun past the first column of a line have more than five to erase in the line below, without the terminal cursor being there, or in the line below that; or, on a terminal that clears instead, when the last line of the run is cleared with one cell to be shown again elsewhere |
| Display.Display.EraseBelow | e20/e.d.c:1121-1154 | what becomes of the terminal then: its cursor goes to the column the run began in, and the manager takes it to be in the first |
| Display.Display.GoLeft | e20/e.d.c:405-420 | left arrows go round the edge of the line, by the remainder of the column |
| Display.Display.GoRight | e20/e.d.c:422-437 | right arrows likewise |
| Display.Display.GoUp | e20/e.d.c:439-458 | up arrows likewise |
| Display.Display.GoDown | e20/e.d.c:460-479 | down arrows likewise |
| Display.Display.RollIfNec | e20/e.d.c:1165-1186 | a pending line end leads to the line below, if there is one |
| Display.Display.AddressColumn | e20/e.d.c:320-326 | a two-byte column is one of the line if and only if it is less than the width; the width itself is one beyond, and off the image in the last line |
| Display.Display.Analyse | e20/e.d.c:268-672 | one code, taken once more if it ends what came before it, does to the image and the cursor what the simulated terminal does |
| Display.Display.DWrite | e20/e.d.c:223-672 | over any stream the image and cursor are those of the simulated terminal; the cursor record tracks the terminal's cursor and every cell but the corner agrees with the image, for any terminal and stream unless a run of blanks makes the record stray, which only runs erased below the line they began in, or cleared with one cell not blank beyond them, can do |
| Display.Display.MultChar | e20/e.t.c:508-549 | run-length encoding means the same as writing each character by itself, across line ends and the bursts of 95, on every terminal; the record does not stray for characters other than the blank, on terminals that only write, and for runs within a line on those that erase |
| Painting.Window.FnbCol | e20/e.t.c:467-497 | the first column in the range where the line is not blank, or the one before the range |
| Painting.Window.PosCursor | e20/e.t.c:1228-1330 | the cursor moves to a place of the window by an arrow or an address, and nothing else changes |
| Painting.RowPainted | e20/e.t.c:339-419 | blanks up to the first character, the text, and blanks over what was shown beyond it make the whole row show its line |
| Painting.NewBounds | e20/e.t.c:351-420 | and the bounds put down for the row are right again |
| Painting.Window.PutCells | e20/e.t.c:352-419 | what the writing of a row changes, cell by cell |
| Painting.Window.PutRow | e20/e.t.c:325-420 | one row is painted from right bounds, or a fresh row from blank cells |
| Painting.Window.PutUp | e20/e.t.c:194-452 | every row asked for shows the visible slice of its line padded with blanks, its bounds hold, and nothing outside those rows changes |
| Painting.Window.OnTheScreen | e20/e.t.c:194-452 | what a painted row has in each cell of the screen: the character of the file that belongs there, or a blank |
| Painting.Window.PutCh | e20/e.t.c:1699-1750 | a character put in a row keeps the bounds of the row right |
| Redisplay.LineMoves | e20/e.t.c:2764-2848 | which line of the changed file a line of the file before is, whatever was altered, inserted or deleted |
| Redisplay.TopKept | e20/e.t.c:2864-2892 | readjtop keeps a window below the change showing what it showed, begins one among lines only deleted with the first after them, and leaves any other alone, one that begins just where lines are inserted too |
| Redisplay.NewLinesShow | e20/e.t.c:2876-2882 | so lines put in at the first line of a window or below it show, where they fall in its rows |
| Redisplay.RowsOnScreen | e20/e.t.c:194-452 | a row as a value is what Painting has in the cells of the screen: bounds, a painted row and a blank one are the same thing in both |
| Redisplay.RowsThen | e20/e.t.c:2786-2808 | what rows are already right when the file has changed and nothing has been repainted |
| Redisplay.GarbledShows | e20/e.t.c:2818-2827 | the window left by a putup from a negative row is right only by coincidence: if and only if each altered row showed before what belongs delta rows further down after |
| Redisplay.SkewedExample | e20/e.t.c:2818-2827 | a file, a change of four lines into five and a window for which it is not |
| Redisplay.Window.VMove | e20/e.t.c:2994-3000 | the contract of d_vmove: it declines, or moves rows by as many as it likes up to delta and blanks the rows left |
| Redisplay.Window.PutUp | e20/e.t.c:194-452 | the contract of putup on rows: from right bounds, or blank rows known to be so, the rows show their lines and the bounds are right again |
| Redisplay.Window.Opened | e20/e.t.c:3007-3026 | the bounds follow the rows that were moved, and the blank rows are painted with the top of the window moved for the time |
| Redisplay.Window.Closed | e20/e.t.c:3043-3062 | the same when rows were closed up |
| Redisplay.Window.Insert | e20/e.t.c:2988-3027 | after the lines have been opened, in as many moves as the terminal likes, every row shows its line but the altered ones, which have moved down as they were; or, exactly if the terminal declined, every row does |
| Redisplay.Window.Delete | e20/e.t.c:3028-3065 | after they have been closed up, every row shows its line but the altered ones |
| Redisplay.Window.Inserted | e20/e.t.c:2818-2827 | an insertion, with lines altered or not: the window is right, or garbled exactly if it begins more than delta lines down among the altered lines, they end in it and the terminal moved the rows |
| Redisplay.Window.Refresh | e20/e.t.c:2786-2845 | after any change a window on the file shows exactly the changed file, though it was skipped, scrolled or partly repainted, and the bounds of its rows are right; the one case in which it does not is told exactly |
| Redisplay.Redisplay | e20/e.t.c:2764-2848 | so for every window on the file, in any number, which begins at the same line if nothing was deleted and the change is not above it; the alternate workspaces follow by readjtop; windows on other files are untouched |
| LineCodec.EnteredPlain | e20/e.la.c:132-164 | a line is read as the escapes of its characters, its tabs expanded to columns |
| LineCodec.LeadingReads | e20/e.la.c:335-354 | the default form of a line, with tabs for its first blanks, is read back as the line |
| LineCodec.TabbedReads | e20/e.la.c:297-323 | the -tabs form of a line is read back as the line if and only if every run of blanks that reaches a tab stop has a multiple of eight escapes before it |
| LineCodec.SavedLineIsStable | e20/e.la.c:34-169 | reading, writing and reading again gives what the first reading gave, for every line in default and -blanks mode, and in -tabs mode, for the lines its loop does right on, if and only if their runs keep; stripping or not |
| LineCodec.LiteralIsExact | e20/e.la.c:324-334 | in literal mode without stripping a line is written exactly as it was read |
| LineCodec.LiteralStrips | e20/e.la.c:356-359 | in literal mode with stripping the line is stable if and only if no tab precedes the blanks at its end |
| LineCodec.ControlFreeIsStable | e20/e.la.c:34-169 | a line without control characters is stable in default and -blanks mode, and in -tabs mode if the loop does right on it |
| LineCodec.Line.Take | e20/e.la.c:132-164 | one character is read: as itself, as blanks up to a tab stop, as an escape, or as the end of the line |
| LineCodec.Line.GetLine | e20/e.la.c:98-169 | the line in memory depends on the characters only, not on the pieces they are delivered in |
| LineCodec.Next | e20/e.la.c:289-291 | one character of the line in memory is decoded |
| LineCodec.AsIs | e20/e.la.c:287-296 | -blanks and literal mode write the characters as they are, in place |
| LineCodec.Default | e20/e.la.c:336-354 | the default mode writes them with tabs for the first blanks, in place |
| LineCodec.Tabs | e20/e.la.c:297-323 | the -tabs mode writes tabs wherever blanks reach a tab stop, in place, for every line the loop does right on |
| LineCodec.CodedIff | e20/e.la.c:297-323 | what that loop makes of a line is its -tabs form if and only if no character comes, nor the line ends, beyond column 10000 except after blanks that do not begin there, or are one or at least eight |
| LineCodec.ShortIsWithin | e20/e.la.c:298-299 | so it is for every line of up to 10000 columns |
| LineCodec.TooLong | e20/e.la.c:298-299 | and is not for one of 10002 characters without a blank |
| LineCodec.Dechars | e20/e.la.c:274-363 | the characters left at the front of the line are those of the external form, which WrittenBack describes, and the write pointer has not passed the read pointer |
| FileForms.ReadOn | e20/e.la.c:132-164 | reading one character more: itself, blanks up to the next multiple of eight columns, or an escape and a letter |
| FileForms.WrittenBack | e20/e.la.c:34-363 | a line that is read is written back as it was if and only if it is in the form of the mode: tabs, then fewer than eight blanks, then neither; no tabs at all in -blanks mode; in -tabs mode no blank that reaches a stop or comes before a tab, and tabs only after a multiple of eight escapes; and no white space at the end if that is stripped. Whatever is written is in that form, in -tabs mode if its runs keep |
| Filling.Gaps.SpreadRight | e20/e.fi.c:561-568 | the loop from the right ends inside the gaps and widens so many candidates by one, the right ones |
| Filling.Gaps.SpreadLeft | e20/e.fi.c:569-576 | the loop from the left likewise |
| Filling.Gaps.FillNarrow | e20/e.fi.c:536-549 | the smaller gaps are made as wide as the others, which become the candidates |
| Filling.SpreadJustifies | e20/e.fi.c:505-577 | gaps of at most two widths one apart, some of the narrower or of the level ones widened, are justified |
| Filling.Gaps.Justify | e20/e.fi.c:488-578 | the line is filled exactly if it has a gap to widen, no gap shrinks, gaps of no width stay so, the others end within one, and the wider are on the right or left by turns |
| Filling.JustifiedUnique | e20/e.fi.c:488-578 | there is only one way to do that |
| Paragraphs.WidthIs | e20/e.fi.c:386-410 | the width counted as words are added is that of the words and of the gaps between them |
| Paragraphs.SpacingIs | e20/e.fi.c:386-403 | when two blanks, one or none are put between words |
| Paragraphs.JustifiedFills | e20/e.fi.c:488-578 | a justified line with a gap to widen is exactly as wide as the room there is for it |
| Paragraphs.Filler.AddWord | e20/e.fi.c:374-421 | a word joins the line, or makes it full, by its width and the gap before it |
| Paragraphs.Filler.PutOut | e20/e.fi.c:454-466 | a line is written as its indent, its words and its gaps |
| Rendering.LineLength | e20/e.fi.c:454-466 | a line begins with its indent and ends, with the newline, where its last word does |
| Rendering.WordStands | e20/e.fi.c:458-465 | each word stands in the column that the indent and the words and gaps before it come to, with its gap of blanks after it |
| Rendering.JustifiedEnds | e20/e.fi.c:488-578 | a justified line with a gap to widen ends in the last column |
| Rendering.LineFits | e20/e.fi.c:405-414 | no line of two words or more goes beyond the last column |
| Rendering.NextWouldNot | e20/e.fi.c:405-414 | and each line but the last would, with the next word on it |
| Paragraphs.Filler.Recollect | e20/e.fi.c:472-481 | the words left over are collected again up to the first that does not fit |
| Paragraphs.Filler.PutWords | e20/e.fi.c:439-485 | words put out and words waiting are together what they were; every line put out fits, ends because the next word would not, and is justified if it is to be |
| Paragraphs.Filler.GetWord | e20/e.fi.c:213-233 | a word goes into the ring of words behind the last one |
| Paragraphs.Filler.Doit | e20/e.fi.c:139-199 | a paragraph is put out as lines holding every word once and in order, with the indents of the first two lines of the input |
| Rendering.ParagraphShows | e20/e.fi.c:139-199 | what is put out holds the characters of the words, every one once and in order, and otherwise only blanks and newlines |
| Editing.SavedSays | e20/e.la.c:204-219 | reading again the form in which a line is written takes off the blanks, and in literal mode the tabs, at its end at most; in -tabs mode for lines whose runs of blanks keep |
| Editing.SplitThenJoin | e20/e.e.c:101-159 | splitting a line and joining it at the same places, for any number of lines, any column, inside the escape of a control character or not, and the last line too, gives the file back if and only if the split is inside one or the first part, less the blanks at its end, does not end in a tab that is stripped, which only literal mode has; in -tabs mode for lines whose runs of blanks keep, moved or not, and that its loop does right on |
| Editing.TabsLost | e20/e.e.c:101-159 | when the first part does end so, the tabs come back as blanks, as wide as their escapes |
| Editing.TabComesBackBlank | e20/e.e.c:101-159 | a line of five characters for which it does |
| Editing.PrintableSplitThenJoin | e20/e.e.c:101-159 | any line of printing characters comes back, at any column: in -tabs mode if the loop does right on the line and on the two parts |
| SplitEscapes.SplitInEsc | e20/e.e.c:101-159 | inside the escape of an ESC too, outside -tabs mode, if and only if the second half and what follows stand for a text |
| SplitEscapes.SplitInLastEsc | e20/e.e.c:101-159 | not so at the end of a line: the ESC comes back as two |
| Editing.NothingToSplit | e20/e.e.c:117-119 | the file is left alone if and only if the line is beyond the end or the column at or beyond the end of the line |
| Editing.UpperKept | e20/e.e.c:305-352 | joining keeps what the upper line has before the column if and only if the column asked for is not beyond the end of the lower line, or further beyond it than that column; in between as many characters of the upper line are lost |
| Editing.UpperLost | e20/e.e.c:305-352 | such a loss |
| Editing.UpperUntouched | e20/e.e.c:305-352 | and a column so far beyond that nothing is |
| Editing.Editor.GetLine | e20/e.la.c:48-95 | the line asked for is read, a changed one being written first, and a line beyond the end is blank |
| Editing.Editor.PutLine | e20/e.la.c:196-219 | the changed line takes its place in the file, and the buffer beyond it is left alone |
| Editing.Editor.PutBks | e20/e.e.c:1102-1123 | blanks are put in at a column, and up to it if it is beyond the end of the line |
| Editing.Editor.SplitLines | e20/e.e.c:101-159 | the file becomes the split one, for a line changed and not yet written too; then the column may be among blanks that writing strips |
| Editing.SplitAsRead | e20/e.e.c:121-148 | a line changed and not yet written is split like the line as it was read if and only if the place is before what writing strips, or not inside an escape and what is left in the buffer there is white |
| Editing.LeftWhite | e20/e.e.c:121-148 | what is left in the buffer where writing has stripped a character is a blank or a tab, unless it was a tab so far to the right that nothing was written there, exactly |
| Editing.Editor.DoJoin | e20/e.e.c:282-363 | the file becomes the joined one, whatever the columns; and a newline is put in front of the buffer if and only if the column asked for is further beyond the end of the lower line than the other column |
| Rectangles.ChangedCell | e20/e.e.c:950-1054 | column by column, what each operation makes of a line |
| Rectangles.LaidCell | e20/e.e.c:997-1030 | which of the two characters is seen in each column after overlay, underlay, cover, blot and opposite blot |
| Rectangles.BlotsShare | e20/e.e.c:1003-1010 | what blot and its opposite leave of a line, laid over one another, is the line |
| Rectangles.LinePutBack | e20/e.e.c:801-1091 | a line out of which a rectangle was taken, and into which it was put again, is the line without the blanks at its end if those are stripped, and else the line padded to the end of the rectangle; in -tabs mode if the loop does right on every line written on the way |
| Rectangles.ShortDoneRight | e20/e.la.c:297-323 | which it does if neither the line nor the rectangle goes beyond column 10000 |
| Rectangles.RectangleRestored | e20/e.e.c:801-1091 | close and insert, and erase and overlay, underlay or cover, give the file back if and only if each line in the rectangle has no blanks at its end or, where those are kept, reaches the end of the rectangle; in -tabs mode for lines the loop does right on |
| Rectangles.Pick | e20/e.e.c:873-881 | what a line has in the rectangle goes into the buffer |
| Rectangles.Change | e20/e.e.c:950-1055 | the line is changed in place as the operation says |
| Rectangles.BlendIn | e20/e.e.c:997-1033 | the loop over the characters of a line of the buffer, for each operation |
| Rectangles.EdRect | e20/e.e.c:801-1091 | the operation on the whole rectangle: the lines in it are changed, the buffer filled or used, all other lines kept |
| Replacing.Match | e20/e.se.c:730-780 | the key is compared with the line at a column, with what is taken for a ^J in it; a plain key is found exactly where it is |
| Replacing.ReadsPlain | e20/e.se.c:730-780 | for a key without ^J, the comparison tells wherever there is room for the key whether it is there, if and only if no ESC in it is followed by * or the newline character |
| Replacing.MisreadKey | e20/e.se.c:731-734 | a key that is not found where it is: ESC, ESC and * |
| Replacing.StrSearch | e20/e.se.c:654-791 | the first place the key is at, forward or backward from the cursor and as far as the limit line, and not found exactly when there is none |
| Replacing.ReplacedIs | e20/e.se.c:303-381 | what is replaced: the text is pieces with the key between them, each key the first after the one before, and becomes the pieces with the replacement between them |
| Replacing.ReplacedFromFirst | e20/e.se.c:369-372 | replacing the first key and going on after the replacement is replacing them all |
| Replacing.RplIt | e20/e.se.c:440-488 | the key at a column gives way to the replacement, longer or shorter |
| Replacing.DoReplace | e20/e.se.c:303-381 | from the cursor to the limit line every line is the leftmost non-overlapping replacement of what it was, for any replacement text; lines without the key are not written |
| Tiling.CheckWindowValues | e20/e.resize.c:785-821 | it answers 0 exactly when the four equations hold in every window |
| Tiling.AdjHBorders | e20/e.resize.c:561-606 | the windows that end at the row, unless too low, end h rows lower, and show their file from its start where that now fits |
| Tiling.ShiftedTiles | e20/e.resize.c:637-707 | whatever the outcome the windows still tile; all is right, and the windows as high as they have to be, if and only if nothing was held back and the chosen window is high enough for the change |
| Tiling.AltHWinresize | e20/e.resize.c:637-707 | only the chosen window changes its height, the last one ends h rows lower, the tiling holds and every window still is as high as windows have to be, if and only if the windows are tall enough; tiling, the four equations, the rows that are edited and the lines windows begin with are right in any case, but that the last window begins its file from the start if it fits in h rows more |
| Tiling.AdjWBorders | e20/e.resize.c:611-631 | the windows that end at the column, unless narrower than four, end w columns further right |
| Tiling.AltWWinresize | e20/e.resize.c:712-783 | likewise for widths: all is right, and the windows as wide as they have to be, if and only if nothing is taken away, or the chosen one can spare it and the rightmost is not narrower than four; nothing keeps the chosen one from being made narrower than it can be |
| Lookup.Lookup | e20/e.pa.c:118-178 | in a sorted table the scan with its early ends gives the one answer there is: the first exact entry, the one entry abbreviated, ambiguous, or none |
| Lookup.NoneAfter | e20/e.pa.c:162-163 | once an entry comes after the name without being an expansion of it, no later one is |
| Lookup.AnswerUnique | e20/e.pa.c:107-117 | there is only one answer to give |
| Lookup.CaseIgnored | e20/e.pa.c:137-141 | letters of either case are taken for one another, and nothing else is |
| Lookup.FoundInLowerCase | e20/e.pa.c:111-113 | the entry found agrees with the name but for case, and has no capital there |
| Lookup.TwiceMustBeSpelledOut | e20/e.pa.c:108-110 | an entry that is in the table twice is found only by its full name |

## Left out

- RegexEngine.Regex.Advance: back references to groups not closed are a precondition, and so are starred ones,
  which are in StarBack, after a pattern that needs no other (`BacksClosed`); a class must fit its byte
  (`Fits`); overflow of the code buffer is not modelled, nor are characters beyond 127.
- RegexEngine.Regex.TryEnds: for the same patterns as Advance.
- RegexEngine.Regex.StarBack: for a group that is not empty, since the loop need not end for one that is; the
  rest of the pattern looks only at groups that end before the place it is tried from.
- RegexEngine.Regex.Try: for the same patterns as Advance.
- RegexEngine.Regex.Exec: for the same patterns as Advance.
- RegexEngine.Regex.Comp: a text that runs off its own end (a lone final backslash, a class that ends in a dash) has no
  defined meaning in the source and is a precondition.
- Meaning.TextMeans: texts in which a copy of a group is repeated are left out; what the matcher makes of them
  is in StarBack.
- PatternSearch.Searcher.Forward: anchored patterns and patterns that can match nothing.
- PatternSearch.Searcher.Backward: the same.
- PatternSearch.Searcher.PatSearch: the same, the range limits, interrupts and the form that looks at one place.
- Display.Display.DWrite: insert mode, tabs, backspace, clearing the screen, the window codes and
  reinitialisation are left out (`LeftOut` names the codes), and so are terminals of the kind tt_pwr 4, the
  redraw and silent flags. State 4, for oversize columns, cannot be reached, since a column code above 040 is
  taken first. Once the record of the cursor has strayed the terminal is followed no further, though an
  address can bring it right again.
- Display.Display.Analyse: the same codes and terminals.
- Display.Display.MultChar: on terminals that clear to the end of the line nothing is said of the record of the
  cursor after blanks.
- Emulator.Singles: multchar keeps count of the cursor column, which is stated in Painting instead.
- Painting.Window.PutUp: paints whole rows (`ncols` is MAXWIDTH), not from the current line, uninterrupted,
  without margin characters and bullets, for lines of printing characters within a width of 255.
- Painting.Window.PutCh: within the text of the window, not over its right margin.
- Redisplay.Window.PutUp: whole rows as values, by its contract; RowsOnScreen says that they are those that
  Painting paints.
- Redisplay.Redisplay: what a terminal does for d_vmove is an arbitrary answer, and the current line is given
  when a window is garbled; bullets and borders are left out.
- LineCodec.Line.GetLine: the line is a growing sequence, so making room for it is left out, and so is the
  flag for lines already read, which is in Editing.
- LineCodec.Tabs: for the lines the loop does right on (`Within`); on others it overtakes what it has still to read.
- LineCodec.Dechars: the same lines, in -tabs mode.
- Filling.Gaps.Justify: gaps are integers, not characters of the C code; the arrays grow as needed.
- Paragraphs.Filler.GetWord: words come as records, since the scanning of characters is left out; so is
  centring. A word without columns stands only for a blank line, and the ring fills by words, not characters.
- Paragraphs.Filler.Doit: one paragraph of such words.
- Editing.SplitThenJoin: the column is not inside the escape of an ESC, which is in SplitInEsc.
- SplitEscapes.SplitInEsc: not in -tabs mode.
- SplitEscapes.SplitInLastEsc: not in -tabs mode.
- Editing.Editor.PutLine: the line is written as `External` says, which in -tabs mode is for lines that are `Within`.
- Editing.Editor.DoJoin: the form that saves what it joins in a buffer is left out.
- Rectangles.EdRect: rectangles within the file, without boxes and changes of case; OPPICK and OPOPEN are
  left out, and the old lines are not kept.
- Rectangles.RectangleRestored: for lines of printing characters.
- Replacing.StrSearch: keys with ^J, range limits, interrupts and the form that looks at one place only.
- Replacing.DoReplace: forward and with a plain key; pattern replacement, showing and asking are left out.
- Tiling.AltHWinresize: dragging of borders is left out.
- Lookup.Lookup: names and tables of 7-bit characters; a null name is left out.
- The la package is a sequence of lines; files, buffers of fixed size, allocation, signals, the mouse, help,
  and shelling out are not part of this model.
