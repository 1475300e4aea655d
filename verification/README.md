# Verified models of an INI store, fmt integer and template output, directory removal and walking, Base64, a watchdog, and split/join

The project models the parts of a C++ toolkit whose correctness is not obvious from any
one function body, and proves what they promise. Where a promise is false of the code, the
project proves exactly when it holds.

- **INI store** (`Ini*.dfy`). The parser eats one zero-terminated buffer in place
  (`IniBuffer`, `IniLines`, `IniStore`) and is proved to compute a pure line-by-line parser
  (`IniText`, `IniParse`). The writer (`IniPrint`) quotes and escapes. `IniSurvival` works
  out what a quoted value reads back as although the two comment scanners know nothing of
  escapes; `IniRoundTrip` lifts that to whole files; `IniReload` runs the writer and the
  in-place parser one after the other; `IniNames` says which names come back. `IniMeaning`
  and `IniPlain` tell what lines and files say by positions and characters alone. `IniErrors`
  is about the reported line, `IniGroups` about the current-group pointer.
- **fmt** (`Fmt*.dfy`). The `clz` digit counter against the plain digit count, the backward
  two-digit writer with its separator functor, padding and prefixes around a hole in the
  growing buffer, the packed argument types, the template loop against a meaning of
  templates, named arguments, and the specifications of integer fields with widths taken
  from arguments. `FmtIntText`, `FmtSpecText` and `FmtErrors` tell texts and errors by their
  characters.
- **Directories** (`FileTree`, `DirRemove`, `DirWalk`). Removal with a re-scanning stack and
  the walk, over an abstract tree in which entries may refuse to be removed or read.
- **Base64** (`Base64`, `Base64Bits`, `Base64Lines`), **watchdog** (`Watchdog`,
  `WatchdogStop`, `WatchdogNotify`, `WatchdogTexts`) and **split/join** (`SplitJoin`).

Where the code mutates a buffer, a map, a stack or an object, the model is a method over an
array or a class, and its postcondition ties the new state to a pure function about which
the lemmas speak. `dafny verify dfyconfig.toml` checks the whole project.

## What the code does that one might not expect

- A quoted value is cut at its first ';' that follows a space or an odd number of quote
  marks. What remains loses trailing spaces and a final quote mark, and becomes a single
  quote mark if nothing is left (`IniSurvival.ReadBack`). It is always shorter than the value.
- A name or value is written up to its first NUL (`IniPrint.UpToNul`).
- An empty memory block does not open, an empty file does, as an empty store
  (`IniStore.IniProcessing.OpenMem`, `IniStore.IniProcessing.OpenFile`).
- `isFloatValue` accepts the empty text and a lone '-', and rejects a leading '.', a '+' and
  an exponent without a '.' before it (`IniPrint.FloatLanguage`).
- A final backslash makes the unescaper step over the terminator. That is harmless where
  the closing quote after it was overwritten, so the parser's precondition allows that case
  (`IniLines.SafeValue`).
- Beginning a missing group, or the empty name, inside a group leaves the old pointer in
  place: the next write lands in the old group, or is ignored. `IniGroups.Guard` is the exact
  condition under which pointer and name agree.
- When a load met an error, what it loaded stays but the store does not count as opened.
  Setting a key that was loaded then keeps the old value (`IniGroups.SetThenRead`).
- Removal never returns when something under the path refuses to go, other than the path
  itself and files directly in it (`DirRemove.NeverEnds`).
- The encoder's position has 32 bits; at 2^32 bytes and more its loop does not end
  (`Base64.EncodeEndsIff`).
- Splitting by one character drops a final delimiter, splitting the empty text throws, and
  the empty delimiter makes the loop endless except on a single character
  (`SplitJoin.JoinUndoesSplit`, `SplitJoin.Split`, `SplitJoin.EmptyDelimiterStays`).
- An unmatched '}' drops the literal text before it that was not yet written
  (`FmtTemplate.Written`).
- An alignment character right behind a field with an empty specification is taken for that
  field's alignment, without effect (`FmtSpec.AlignSeenHarmless`).
- The watchdog's start makes a notification that the worker's opening reset erases
  (`Watchdog.OutsideWindowLost`). The worker is sure to end after a stop if and only if it
  has made its first store by then; a stop before that can wait for ever
  (`WatchdogStop.StopReturnsIff`).
- The flag that is meant to guarantee that a message gets through does not guarantee the
  notified status. It is sure to be sent if and only if the worker is yet to make its
  message, or has made one that says the same and not sent it, or the status is the
  time-out's own and the worker is at its send, its sleep or its time-out
  (`WatchdogNotify.StatusGetsThroughIff`). Otherwise the flag is reset before it is seen, or
  the worker's time-out overwrites the status. Statuses without a case (off, startup) send
  the client's previous message again.

## Model

| member | source | states |
|---|---|---|
| IniBuffer.RStripAt | IniProcessor/ini_processing.cpp:106-114 | in place, the string becomes its text without trailing whitespace, the stripped cells are NUL, and no other cell changes |
| IniBuffer.LSkipAt | IniProcessor/ini_processing.cpp:117-123 | returns the start of the text without leading whitespace |
| IniBuffer.LrTrimAt | IniProcessor/ini_processing.cpp:125-136 | trims both ends in place and writes only inside the string |
| IniBuffer.FindCharOrCommentAt | IniProcessor/ini_processing.cpp:141-152 | finds the first wanted character or the first ';' after whitespace, else the end |
| IniBuffer.FindIniEqAt | IniProcessor/ini_processing.cpp:154-165 | the same for ':' and '=' |
| IniBuffer.RemoveQuotesAt | IniProcessor/ini_processing.cpp:167-181 | drops the opening quote when something follows it, and the closing one only together with it; says exactly when a closing quote was overwritten |
| IniBuffer.UnescapeAt | IniProcessor/ini_processing.cpp:183-210 | source and destination in one buffer give the unescaped text; nothing outside the string is written, also when a final backslash makes the loop step over the terminator |
| IniBuffer.UnescapeNulFree | IniProcessor/ini_processing.cpp:183-210 | unescaping a text without NUL brings none in |
| IniBuffer.SkipCommentAt | IniProcessor/ini_processing.cpp:213-241 | cuts at the first ';' outside quotes, where an escaped quote toggles too |
| IniLines.MemFGets | IniProcessor/ini_processing.cpp:243-266 | the line up to LF or CRLF is terminated, the next one starts after it, and only cells of that line are written; nothing is read only at the end |
| IniLines.ValueTextAt | IniProcessor/ini_processing.cpp:345-360 | both comment scans and both strips leave the value text |
| IniLines.ReadValueAt | IniProcessor/ini_processing.cpp:343-365 | the value of a key line, in place, equals the pure reading of its text |
| IniLines.KeyLineAt | IniProcessor/ini_processing.cpp:333-376 | name, lower-cased, and value of a key line, or that no separator stands before a comment |
| IniLines.SectionLineAt | IniProcessor/ini_processing.cpp:310-331 | section name, or that no ']' stands before a comment |
| IniStore.IniProcessing.HandleLine | IniProcessor/ini_processing.cpp:290-379 | one line takes the store, the recent section, the error line and the error kind where the pure parser takes them, and writes only that line's cells |
| IniStore.IniProcessing.NextLine | IniProcessor/ini_processing.cpp:287-387 | one round of the loop: the rest of the buffer is untouched and parses on to the same result |
| IniStore.IniProcessing.ParseHelper | IniProcessor/ini_processing.cpp:269-389 | for every buffer without interior NUL whose values keep to their lines: same map, same first bad line, same error kind as the pure parser |
| IniStore.BodyThenCr | IniProcessor/ini_processing.cpp:251-257 | a CR before the line feed makes no difference to what a line says, first line with byte order mark included |
| IniStore.LineStep | IniProcessor/ini_processing.cpp:287-387 | taking one line, with or without its CR, off the front of a text is one step of the pure parser |
| IniStore.IniProcessing.ParseMemory | IniProcessor/ini_processing.cpp:480-497 | the same for a memory block, through a terminated copy |
| IniStore.IniProcessing.OpenMem | IniProcessor/ini_processing.cpp:560-576 | an empty block is an error that changes nothing else; any other replaces the store by the parsed text, and the store counts as opened only without an error |
| IniStore.IniProcessing.OpenFile | IniProcessor/ini_processing.cpp:534-557 | a missing file is an error that leaves an empty store; any other replaces the store by the parsed text, and an empty file opens |
| IniStore.IniProcessing.Close | IniProcessor/ini_processing.cpp:578-584 | empties the store but leaves the group pointer and name, so a set pointer dangles |
| IniStore.IniProcessing.BeginGroup | IniProcessor/ini_processing.cpp:601-614 | sets the name always and the pointer only when the group exists |
| IniStore.IniProcessing.EndGroup | IniProcessor/ini_processing.cpp:680-684 | clears both |
| IniStore.IniProcessing.Read | IniProcessor/ini_processing.h:87-107 | the value of the lower-cased key in the table pointed to, on an opened store |
| IniStore.IniProcessing.WriteIniParam | IniProcessor/ini_processing.cpp:1187-1209 | the new store, pointer and name as the group state machine says, through tables shared by reference |
| IniErrors.LineFault | IniProcessor/ini_processing.cpp:318-376 | a line changes the error line and kind exactly when it is bad and no earlier one was |
| IniErrors.FirstErrorReported | IniProcessor/ini_processing.cpp:325-388 | over a whole text: the reported number and kind are those of the first bad line, and 0 means no line is bad |
| IniErrors.ErrorsKept | IniProcessor/ini_processing.cpp:325-388 | a reported error is never replaced by a later one |
| IniErrors.LoadingGoesOn | IniProcessor/ini_processing.cpp:325-388 | whether an error was met makes no difference to what is loaded |
| IniErrors.BadLineSkipped | IniProcessor/ini_processing.cpp:325-388 | a bad line loses only itself: the rest loads as if it were blank |
| IniMeaning.StripAt | IniProcessor/ini_processing.cpp:106-114 | stripping ends the text at its last character that is not space, tab, LF or CR |
| IniMeaning.StopsAt | IniProcessor/ini_processing.cpp:141-152 | the scan stops at the first wanted character or ';' behind a blank |
| IniMeaning.SeparatesAt | IniProcessor/ini_processing.cpp:154-165 | the same for ':' and '=' |
| IniMeaning.CutsAt | IniProcessor/ini_processing.cpp:213-241 | the cut is at the first ';' with an even number of quote marks before it |
| IniMeaning.ValueTextEnds | IniProcessor/ini_processing.cpp:343-360 | the text of a value ends before its first comment, a ';' of either kind, and the blanks in front of it |
| IniMeaning.UnescapeMeans | IniProcessor/ini_processing.cpp:183-210 | a backslash escapes exactly when an even number of them stands right before it; n, r and t stand for control characters, anything else for itself |
| IniMeaning.ReadValueMeans | IniProcessor/ini_processing.cpp:343-365 | what any value without NUL reads as, by positions of comment, blanks, quotes and backslashes |
| IniMeaning.PlainReads | IniProcessor/ini_processing.cpp:343-365 | an ordinary value reads as it stands |
| IniMeaning.QuotedReads | IniProcessor/ini_processing.cpp:343-365 | and so does a quoted one, blanks and semicolons included |
| IniMeaning.BodyMeans | IniProcessor/ini_processing.cpp:290-299 | blanks around a line and a byte order mark on the first do not count |
| IniMeaning.KeyMeans | IniProcessor/ini_processing.cpp:333-365 | name and value of a key line go into the section opened last, or into "General", and nothing else changes |
| IniMeaning.KeyErrorMeans | IniProcessor/ini_processing.cpp:368-373 | a line without separator before a comment is a key error |
| IniMeaning.SectionMeans | IniProcessor/ini_processing.cpp:310-323 | a header opens the section between its brackets |
| IniMeaning.SectionErrorMeans | IniProcessor/ini_processing.cpp:324-329 | a header without bracket before a comment is a section error |
| IniPlain.PlainLineLoads | IniProcessor/ini_processing.cpp:333-376 | for every writable key and ordinary value, key=value stores that value under that key |
| IniPlain.SmallFileLoads | IniProcessor/ini_processing.cpp:269-389 | a file of one section and one such line loads as just that |
| IniPlain.MarkIgnored | IniProcessor/ini_processing.cpp:293-294 | a byte order mark in front of a file makes no difference |
| IniPlain.TextWithoutBackslash | IniProcessor/ini_processing.cpp:183-210 | every text without backslashes is safe for the in-place parser |
| IniPlain.OpenBeginRead | IniProcessor/ini_processing.cpp:601-614 | after opening, a loaded group gives each key in whatever case it is asked; a store that did not open gives nothing |
| IniPlain.FileToReader | IniProcessor/ini_processing.h:87-107 | from the text of a file to the value read, ignoring the case of the key asked for |
| IniPrint.IsFloatValue | IniProcessor/ini_processing.cpp:1283-1336 | the scanner loop accepts exactly what the state machine accepts |
| IniPrint.FloatLanguage | IniProcessor/ini_processing.cpp:1283-1336 | if and only if: the texts accepted, as a grammar of digit blocks and separators |
| IniPrint.EscapeValue | IniProcessor/ini_processing.cpp:1374-1391 | the loop builds the escaped text |
| IniPrint.WriteGroup | IniProcessor/ini_processing.cpp:1359-1396 | the text of one section, values plain or quoted, each string up to its first NUL |
| IniPrint.WriteIniFile | IniProcessor/ini_processing.cpp:1355-1398 | the text of the whole store in the given iteration order, each string up to its first NUL |
| IniPrint.FileNulFree | IniProcessor/ini_processing.cpp:1355-1398 | the file never holds a NUL, whatever the store |
| IniPrint.EscapeCut | IniProcessor/ini_processing.cpp:1374-1391 | printing an escaped value up to its NUL is escaping what stands before the NUL |
| IniPrint.EscapeMeans | IniProcessor/ini_processing.cpp:1374-1391 | the escaped text is, character by character, that of a written-out table |
| IniPrint.FileMeans | IniProcessor/ini_processing.cpp:1355-1396 | the file of one group and entry, character by character |
| IniSurvival.UnescapeEscape | IniProcessor/ini_processing.cpp:183-210 | unescaping undoes escaping, whatever follows |
| IniSurvival.CutsCombine | IniProcessor/ini_processing.cpp:141-241 | the two comment scans together cut at the first harmful ';' |
| IniSurvival.QuotedReadsBack | IniProcessor/ini_processing.cpp:343-365 | for every value without NUL, what the parser makes of its quoted form, cut or not |
| IniSurvival.SurvivesIffNoCut | IniProcessor/ini_processing.cpp:141-241 | no cut if and only if no ';' follows a space or an odd number of quote marks |
| IniSurvival.ReadBackShorter | IniProcessor/ini_processing.cpp:343-365 | a cut value reads back strictly shorter |
| IniSurvival.ExactSurvival | IniProcessor/ini_processing.cpp:1374-1391 | a quoted value comes back unchanged if and only if it has no NUL and every ';' in it is harmless; otherwise shorter |
| IniRoundTrip.EntryParses | IniProcessor/ini_processing.cpp:333-376 | a written entry, empty key and value included, parses to its key and read-back value in the current section |
| IniRoundTrip.SectionParses | IniProcessor/ini_processing.cpp:310-331 | a written header selects its section |
| IniRoundTrip.FileParses | IniProcessor/ini_processing.cpp:269-389 | a written file parses without error, from any earlier state, to its entries in order |
| IniRoundTrip.FileReadsBack | IniProcessor/ini_processing.cpp:1338-1399 | for every store with writable names, any values and every iteration order: no error, same sections and keys, each value read back |
| IniRoundTrip.WholeFileRoundTrip | IniProcessor/ini_processing.cpp:1338-1399 | the parsed file is the written store if and only if every value is numeric, or has no NUL and survives quoting |
| IniReload.PrintedSafe | IniProcessor/ini_processing.cpp:1374-1391 | a printed value, cut or not, never makes the unescaper leave its line |
| IniReload.FileSafe | IniProcessor/ini_processing.cpp:1338-1399 | whatever the values, the written text meets the precondition of the in-place parser |
| IniReload.SaveAndReload | IniProcessor/ini_processing.cpp:534-547 | writer then in-place parser, for every store with writable names, the empty one included: opened without error, contents read back, equal to the store if and only if all values survive |
| IniNames.KeyWritable | IniProcessor/ini_processing.cpp:336-349 | whatever a key line says, its name is one that can be written |
| IniNames.SectionWritable | IniProcessor/ini_processing.cpp:313-323 | the same for a section line |
| IniNames.LoadedIsClean | IniProcessor/ini_processing.cpp:269-389 | every store loaded from a text without NUL, errors or not, has writable names and values without NUL |
| IniNames.NamesComeBackIff | IniProcessor/ini_processing.cpp:1338-1399 | for every store and every iteration order: the names come back without error if and only if they are writable |
| IniNames.StoreComesBackIff | IniProcessor/ini_processing.cpp:1338-1399 | for every store: it comes back whole if and only if its names are writable and its values survive |
| IniNames.LoadSaveLoad | IniProcessor/ini_processing.cpp:1338-1399 | loading any text without NUL, saving and loading again: no error, and the same store if and only if every value survives |
| IniGroups.StepConsistent | IniProcessor/ini_processing.cpp:601-614 | from a state where pointer and name agree, an operation keeps that if and only if its guard holds |
| IniGroups.RunConsistent | IniProcessor/ini_processing.cpp:601-684 | over every run: pointer and name agree all along if and only if every operation was guarded |
| IniGroups.StepPointer | IniProcessor/ini_processing.cpp:601-614 | a set pointer stays the table of the current name if and only if a guard on the state before the call holds |
| IniGroups.RunPointer | IniProcessor/ini_processing.cpp:601-684 | the same over every run |
| IniGroups.UnguardedBeginMisplaces | IniProcessor/ini_processing.cpp:604-613 | counterexample: a write after beginning a missing group inside another lands in the other |
| IniGroups.EmptyNameStaysInside | IniProcessor/ini_processing.cpp:604-613 | beginning the empty name inside a group: reads go on from it, writes are ignored |
| IniGroups.SetThenRead | IniProcessor/ini_processing.cpp:1187-1209 | if and only if: when the value set is what the next read of the key returns, any key, opened or not |
| IniGroups.SetReadsBack | IniProcessor/ini_processing.h:87-107 | on an opened or empty store a lower-case key reads back what was set |
| IniGroups.WriteTouchesOneKey | IniProcessor/ini_processing.cpp:1187-1209 | no other key and no other group changes |
| IniGroups.ReadMeans | IniProcessor/ini_processing.h:87-107 | a read gives a value if and only if the store is opened and the lower-cased key has it in the current group |
| IniGroups.OutsideGroups | IniProcessor/ini_processing.cpp:578-684 | outside any group nothing is read or written; a closed store has nothing |
| FmtDigits.TablePowers | fmt/fmt_format.cpp:270-294 | both tables hold the powers of ten beyond their first entry |
| FmtDigits.EstimateBrackets | fmt/fmt_format.h:1024-1024 | for every bit length up to 64 the shifted product encloses the decimal length within one |
| FmtDigits.CountDigits64Exact | fmt/fmt_format.h:1021-1026 | for every 64-bit number the counter gives the digit count and reads inside its table |
| FmtDigits.CountDigits32Exact | fmt/fmt_format.h:1047-1050 | the same for 32 bits and the shorter table |
| FmtDigits.CountDigitsFallback | fmt/fmt_format.h:1029-1042 | the four-at-a-time loop gives the same digit count |
| FmtDigits.NumDigitsUnique | fmt/fmt_format.h:1019-1020 | the digit count is the one whose powers of ten enclose the number |
| FmtDecimal.PairDigits | fmt/fmt_format.cpp:262-268 | entry i of the written-out two-digit table is the two digits of i |
| FmtDecimal.FormatDecimal | fmt/fmt_format.h:1084-1106 | the backward writer puts the grouped text into exactly the cells before the end, and no others |
| FmtDecimal.GroupedIsSpread | fmt/fmt_format.h:1060-1106 | what it writes is the decimal text in groups of three from the right, joined by the separator |
| FmtDecimal.SpreadLength | fmt/fmt_format.h:3084-3085 | that text has digits + separator size times (digits - 1) / 3 cells, as counted beforehand |
| FmtDecimal.UnspreadSpread | fmt/fmt_format.h:1060-1078 | taking the separators out leaves the plain decimal text |
| FmtDecimal.GroupedPlain | fmt/fmt_format.h:1084-1106 | with the empty separator the decimal text itself is written |
| FmtInt.AbsValueExact | fmt/fmt_format.h:3008-3014 | unsigned negation gives the absolute value of every number of the type, the smallest included |
| FmtInt.CountRadix | fmt/fmt_format.h:3032-3035 | the shift loop counts the digits of the radix text |
| FmtInt.WriteRadix | fmt/fmt_format.h:3038-3044 | the shift-and-mask loop writes the radix text backwards and touches nothing else |
| FmtInt.FillPadding | fmt/fmt_format.h:2926-2938 | fills both sides and nothing in between, the right side getting the odd cell |
| FmtInt.LayOut | fmt/fmt_format.h:2973-3002 | each alignment leaves prefix and fill around the digits' cells and changes nothing else |
| FmtInt.PrepareIntBuffer | fmt/fmt_format.h:2973-3002 | the buffer grows by the larger of width and content, old contents kept, and the last digit's cell is returned |
| FmtInt.WriteInt | fmt/fmt_format.h:3006-3095 | for every value, code, flag, fill, alignment and width the buffer gains exactly the laid-out text; an unknown code is an error and adds nothing |
| FmtInt.GroupedLength | fmt/fmt_format.h:3084-3085 | the precomputed size is the size of the grouped text |
| FmtIntRead.RadixReads | fmt/fmt_format.h:3026-3077 | the digit run of a radix reads back to the number |
| FmtIntRead.DecimalReads | fmt/fmt_format.h:1084-1106 | the decimal text reads back to the number |
| FmtIntRead.PaddedIntReadsBack | fmt/fmt_format.h:3006-3089 | for every value and specification: length max(width, prefix + digits), sign in the prefix, digit run reads back to the absolute value |
| FmtIntText.CodeTable | fmt/fmt_format.h:3019-3093 | the known codes and the radix of each |
| FmtIntText.OneNumeral | fmt/fmt_format.h:3006-3077 | a number has one numeral in each radix and case |
| FmtIntText.IntTextMeans | fmt/fmt_format.h:3006-3095 | for every value and specification the text is fill, sign character, radix mark, fill, the numeral in the asked case and fill, each fixed by the specification |
| FmtBuffer.MemoryBuffer.Grow | fmt/fmt_format.h:874-896 | contents survive; the capacity is at least the request and one and a half times the old one |
| FmtBuffer.MemoryBuffer.Push | fmt/fmt_format.h:788-792 | the sequence gains one element, growing only when full |
| FmtBuffer.MemoryBuffer.AppendAll | fmt/fmt_format.h:802-812 | the sequence gains the appended elements |
| FmtBuffer.MemoryBuffer.ResizeTo | fmt/fmt_format.h:770-774 | the sequence is cut, or extended with its elements kept |
| FmtBuffer.MemoryBuffer.ReserveFor | fmt/fmt_format.h:781-784 | capacity only |
| FmtBuffer.Run | fmt/fmt_format.h:738-812 | over every run of operations the contents go through a history in which each step follows from its operation, and capacity never falls |
| FmtArgs.TypeOfMakeType | fmt/fmt_format.h:2361-2402 | unpacking a packed word gives the i-th type, and NONE after the last, also for lists too long for the word |
| FmtArgs.ArgAt | fmt/fmt_format.h:1599-1622 | for lists of every length: the i-th argument below the length, NONE from there on, never reading past the end marker |
| FmtArgs.StoredForm | fmt/fmt_format.h:1586-1622 | sixteen arguments are the first to be stored whole, with an end marker |
| FmtNames.ArgMap.Init | fmt/fmt_format.h:2043-2085 | the table holds the named arguments of the list in order, across both forms of the list |
| FmtNames.ArgMap.Find | fmt/fmt_format.h:2031-2039 | the first entry with the name |
| FmtNames.GetByIndex | fmt/fmt_format.cpp:413-427 | the i-th argument, a named one followed to its value, or out of range |
| FmtNames.LookupsAgree | fmt/fmt_format.h:3800-3810 | both lookups agree with the list and the map of names that templates use |
| FmtNames.NameMeans | fmt/fmt_format.h:2031-2039 | a name gives the value of the first argument that bears it |
| FmtNames.NameMissing | fmt/fmt_format.h:3800-3810 | a name that no argument bears is not found |
| FmtFormatter.ParseNonnegativeInt | fmt/fmt_format.h:3758-3777 | both overflow tests together let through exactly the numbers that fit an int |
| FmtFormatter.Formatter.NextArgument | fmt/fmt_format.h:2212-2217 | the next position, or an error after manual indexing; the counter moves on even past the last argument |
| FmtFormatter.Formatter.CheckNoAutoIndex | fmt/fmt_format.h:2225-2232 | refuses after automatic indexing, and otherwise switches to manual |
| FmtFormatter.Formatter.FieldArgument | fmt/fmt_format.h:3813-3837 | the argument a field names, or the same error as the specification, cursor after the index or name |
| FmtFormatter.Formatter.FormatAll | fmt/fmt_format.h:4012-4031 | the cursor loop with its batched writes equals formatting character by character, same error included, and leaves exactly the text written so far |
| FmtTemplate.WrittenWhenOk | fmt/fmt_format.h:4012-4031 | without an error what the batches wrote is the whole output |
| FmtTemplate.TemplateMeaning | fmt/fmt_format.h:4012-4031 | formatting the template of any literals and fields gives their meaning, error or not |
| FmtTemplate.FormatsIff | fmt/fmt_format.h:2193-2237 | formatting succeeds if and only if every argument is there and automatic and manual indexing are not mixed |
| FmtTemplate.FormatsTo | fmt/fmt_format.h:4012-4031 | what is written is the literals and argument texts in order |
| FmtTemplate.PlainTemplate | fmt/fmt_format.h:4012-4031 | brace-doubled literals and plain fields with enough arguments never fail, and give that text |
| FmtErrors.FirstErrorMeans | fmt/fmt_format.h:2193-2237 | for every template that cannot be formatted, the first field not served and what came before it give the error |
| FmtErrors.UnmatchedMeans | fmt/fmt_format.h:4023-4024 | a '}' that is not doubled |
| FmtErrors.NoFieldMeans | fmt/fmt_format.h:3813-3822 | a '{' with nothing of a field behind it: which of two errors |
| FmtErrors.NoBraceAfterName | fmt/fmt_format.h:4003-4004 | a known name not followed by a brace or colon |
| FmtErrors.NameClasses | fmt/fmt_format.h:3825-3837 | the characters of names, by written-out alphabets |
| FmtSpec.WriteArgument | fmt/fmt_format.h:4006-4008 | a field writes exactly the laid-out text of its argument under the parsed specification |
| FmtSpec.NestedReads | fmt/fmt_format.h:3918-3948 | a width given by a field is the value of that argument, with the errors of its lookup, its sign and its size |
| FmtSpec.SpecReadsBack | fmt/fmt_format.h:3844-4004 | every spelling, with bare or filled alignment, any sign, the zero flag, width fixed or nested, is read as what it means; any sign is refused for an unsigned argument |
| FmtSpec.AlignSeenHarmless | fmt/fmt_format.h:3852-3882 | the alignment picked up behind an empty specification does not change the output |
| FmtSpec.PartsFormat | fmt/fmt_format.h:3840-4031 | formatting any template of literals, fields and integer fields with specifications gives the texts that the integer writer lays out, in order, or the first error |
| FmtSpecText.SpellingTable | fmt/fmt_format.h:3855-3912 | the characters for alignment, sign and flags |
| FmtSpecText.NestedWidthMeans | fmt/fmt_format.h:3918-3948 | a width from a field is the argument's value; negative and too big are errors |
| FmtSpecText.WidthFromArgument | fmt/fmt_format.h:3918-3948 | "{:{}}" with any number and any width, text or error |
| FmtSpecText.AtLeastWidth | fmt/fmt_format.h:2973-3002 | the text of a field is never shorter than its width |
| FmtSpecText.PlainFieldMeans | fmt/fmt_format.h:4006-4008 | "{}" prints sign and decimal numeral alone |
| FmtSpecText.PrecisionMeans | fmt/fmt_format.h:3951-3996 | a precision is refused, and with which error |
| FmtSpecText.NestedPrecisionMeans | fmt/fmt_format.h:3957-3996 | also one from an argument |
| FmtSpecText.BadSpecMeans | fmt/fmt_format.h:3872-3874 | a '{' cannot fill, and a specification must be closed |
| FmtSpecText.UnknownCodeMeans | fmt/fmt_format.h:3090-3093 | an unknown code is refused |
| FileTree.PathTextInjective | DirManager/dirman_posix.cpp:287-287 | different lists of names are different path strings |
| FileTree.ChildBelow | DirManager/dirman_posix.cpp:276-303 | what stands below a directory comes down through one of its subdirectories |
| DirRemove.FileSystem.Scan | DirManager/dirman_posix.cpp:276-303 | files are unlinked up to the first subdirectory; without one every removable file goes, and a refusal is remembered |
| DirRemove.FileSystem.OneRound | DirManager/dirman_posix.cpp:269-313 | a round either pushes a subdirectory or tries the directory itself and pops it |
| DirRemove.RoundKeeps | DirManager/dirman_posix.cpp:269-313 | every round keeps the invariant and lowers twice the directories left less the stack depth |
| DirRemove.RemovePath | DirManager/dirman_posix.cpp:257-316 | ends when nothing under the path refuses other than the path itself and files directly in it; then everything under the path is gone except what refuses, nothing else changed, and the answer is whether all went |
| DirRemove.NeverEnds | DirManager/dirman_posix.cpp:269-313 | otherwise no run of any length empties the stack |
| DirWalk.MatchSuffixFilters | DirManager/dirman.cpp:29-54 | true if and only if there is no filter or some filter ends the lower-cased name |
| CLocale.LowerTable | DirManager/dirman.cpp:44-45 | each capital becomes its own small letter, by written-out alphabets |
| CLocale.OthersStay | DirManager/dirman.cpp:44-45 | nothing else changes |
| CLocale.LowerEqual | DirManager/dirman.cpp:44-47 | lower-casing makes equal exactly what differs in case only |
| DirWalk.FilterLaw | DirManager/dirman.cpp:29-54 | a name passes if and only if there is no filter or its last characters are those of one, ignoring case |
| DirWalk.Walker.BeginWalking | DirManager/dirman.cpp:121-150 | the stack holds the root alone, and the filters are the given ones in lower case |
| DirWalk.ScanDir | DirManager/dirman_posix.cpp:125-140 | every subdirectory once, and every matching regular file name once |
| DirWalk.Walker.Fetch | DirManager/dirman_posix.cpp:108-145 | visits the top directory, pushes its subdirectories and moves the caller's path when it is readable, and ends when the stack is empty |
| DirWalk.WalkStep | DirManager/dirman_posix.cpp:108-145 | every fetch keeps visited and stacked parts apart and together complete |
| DirWalk.WalkAll | DirManager/dirman_posix.cpp:108-145 | fetches until the end visit every directory that can be reached exactly once, each with exactly the names of its regular files that end, ignoring case, in one of the filters |
| DirWalk.AllReached | DirManager/dirman_posix.cpp:108-145 | on a readable tree those are exactly the directories under the root |
| Base64.PosInvertsAlphabet | base64/base64.cpp:41-64 | the position function inverts both alphabets, which hold no padding and no line break |
| Base64.MasksAreFields | base64/base64.cpp:125-144 | the masks and shifts cut the 24 bits of three bytes into four groups of six |
| Base64.EncodeBytes | base64/base64.cpp:104-153 | the loop with its 32-bit position gives the encoding of every shorter byte string |
| Base64.EncodeEndsIff | base64/base64.cpp:124-148 | the loop test fails at some round if and only if the length is below 2^32 |
| Base64.PosWraps | base64/base64.cpp:148-148 | each round moves the position on by three, wrapping around at 2^32 |
| Base64.EncodedLength | base64/base64.cpp:106-106 | the encoding has four characters for every three bytes begun |
| Base64.DecodeString | base64/base64.cpp:179-214 | the loop gives the decoding, or the error of the first bad character |
| Base64.QuadDecodes | base64/base64.cpp:194-212 | four encoded characters, padded or not, decode to their bytes |
| Base64.DecodeEncode | base64/base64.cpp:104-214 | decoding the encoding gives the bytes back, every byte string and both alphabets |
| Base64Bits.EncodeMeans | base64/base64.cpp:104-153 | for every byte string: character i spells bits 6i to 6i+5 of the stream by written-out alphabets, and behind them stand '.' in the url form and '=' otherwise |
| Base64Bits.PaddingCount | base64/base64.cpp:104-153 | as many fill characters as the length lacks to a multiple of three |
| Base64Bits.PositionMeans | base64/base64.cpp:52-64 | exactly the symbols of either alphabet have a position, and it is theirs |
| Base64Bits.DecodesIff | base64/base64.cpp:179-214 | a text decodes if and only if each group is two symbols and then symbols or fill, the last one perhaps shorter |
| Base64Bits.GroupMeans | base64/base64.cpp:194-212 | a group gives one, two or three bytes |
| Base64Bits.JoinBits | base64/base64.cpp:194-206 | made of the bits of its positions in order |
| Base64Lines.InsertLinebreaks | base64/base64.cpp:66-82 | inserting into the growing text breaks it after each distance, and never at its end |
| Base64Lines.LinesOfBroken | base64/base64.cpp:66-82 | the lines of the broken text are its consecutive pieces |
| Base64Lines.PiecesWellBroken | base64/base64.cpp:66-97 | every line but the last is full; the last is neither empty nor too long |
| Base64Lines.EraseBreaks | base64/base64.cpp:168-173 | the erase loop removes every line break and nothing else |
| Base64Lines.WithoutBroken | base64/base64.cpp:162-177 | removing the breaks undoes inserting them |
| Base64Lines.EncodeWithLineBreaks | base64/base64.cpp:84-97 | the encoding broken at the line length, 64 or 76 among them |
| Base64Lines.DecodeLines | base64/base64.cpp:162-177 | decoding with removal is decoding the text without its breaks |
| Base64Lines.LineBrokenRoundTrip | base64/base64.cpp:84-177 | for every byte string and line length: well broken, and decoding gives the bytes back |
| Base64Lines.EncodePem | base64/base64.cpp:89-92 | lines of 64, decoding gives the bytes back |
| Base64Lines.EncodeMime | base64/base64.cpp:94-97 | lines of 76, decoding gives the bytes back |
| Watchdog.StepKeeps | watchdog_worker/WatchDogWorker.cpp:21-210 | every step of every thread keeps the order of sends and the fate of notifications |
| Watchdog.RunKeeps | watchdog_worker/WatchDogWorker.cpp:21-210 | so does every run |
| Watchdog.SendsInOrder | watchdog_worker/WatchDogWorker.cpp:153-210 | in every interleaving: start message first, then only worker messages, stop message last |
| Watchdog.WindowNotifySent | watchdog_worker/WatchDogWorker.cpp:143-151 | a notification between the opening reset and the last loop test is followed by a worker's send before the stop message |
| Watchdog.OutsideWindowLost | watchdog_worker/WatchDogWorker.cpp:23-29 | counterexample runs, with and without an external flag: the notification start makes, and one after the last loop test, are lost |
| WatchdogStop.StopTooEarly | watchdog_worker/WatchDogWorker.cpp:23-23 | a stop before the worker's first store is overwritten by it |
| WatchdogStop.StopWaitsForEver | watchdog_worker/WatchDogWorker.cpp:186-189 | then in every interleaving the worker goes on and stop waits, unless the external flag is cleared |
| WatchdogStop.WorkerRunsDown | watchdog_worker/WatchDogWorker.cpp:29-116 | after a stop in time, in every interleaving, the worker's steps and those left are at most those left before and eight for each notification |
| WatchdogStop.StopInTime | watchdog_worker/WatchDogWorker.cpp:29-116 | so the worker has ended after that many steps |
| WatchdogStop.StopReturnsIff | watchdog_worker/WatchDogWorker.cpp:176-190 | from every state in which stop may be called: the worker is sure to end within a number of its steps if and only if it has made its first store |
| WatchdogStop.EndedThenStopped | watchdog_worker/WatchDogWorker.cpp:188-192 | once the worker has ended, stop goes on to its message |
| WatchdogNotify.BoundRuns | watchdog_worker/WatchDogWorker.cpp:29-116 | a worker bound to send a text has sent it, or still is, after every run without another notification |
| WatchdogNotify.DoomedLoses | watchdog_worker/WatchDogWorker.cpp:83-115 | from every other place a run with stop ends without sending it |
| WatchdogNotify.StatusGetsThroughIff | watchdog_worker/WatchDogWorker.h:60-61 | right after a notification's flag store, wherever the worker is: the notified status is sent before the worker ends, in every run without another notification, time-outs included, if and only if the worker is in one of the safe places |
| WatchdogNotify.DiskErrorLost | watchdog_worker/WatchDogWorker.cpp:83-84 | counterexample from start: a disk error notified between message and reset need not get through |
| WatchdogNotify.DiskErrorTimedOut | watchdog_worker/WatchDogWorker.cpp:111-115 | counterexample from start: one notified between the worker's test of its clock and its store of the time-out need not either |
| WatchdogTexts.TextTable | watchdog_worker/WatchDogWorker.cpp:31-81 | each status has its own written-out text |
| WatchdogTexts.RoundSends | watchdog_worker/WatchDogWorker.cpp:31-84 | a round sends the text of the status, or the previous message for one without |
| WatchdogTexts.StartLeaves | watchdog_worker/WatchDogWorker.cpp:165-171 | runs begin in exactly the states that start leaves |
| WatchdogTexts.ClearedEnds | watchdog_worker/WatchDogWorker.cpp:29-29 | clearing the external flag ends the worker in every interleaving in which it is not set again |
| WatchdogTexts.StatusStays | watchdog_worker/WatchDogWorker.cpp:111-115 | without notification a status stays when it is off or the worker is never late |
| WatchdogTexts.LateTimesOut | watchdog_worker/WatchDogWorker.cpp:111-115 | a late worker replaces any other status by the time-out |
| SplitJoin.FindFrom | Utils/mstrings.cpp:86-88 | the first delimiter from a position on, or the end |
| SplitJoin.Split | Utils/mstrings.cpp:80-108 | the loop gives the pieces of every non-empty text, throws on the empty one, and gives one empty piece for the empty delimiter on a single character |
| SplitJoin.EmptyDelimiterStays | Utils/mstrings.cpp:95-108 | with the empty delimiter every round starts over, and the loop goes on for ever if and only if the text is not a single character |
| SplitJoin.PiecesFree | Utils/mstrings.cpp:80-108 | no piece contains the delimiter |
| SplitJoin.JoinStrings | Utils/mstrings.cpp:164-180 | the loop joins with the delimiter between pieces only |
| SplitJoin.JoinPieces | Utils/mstrings.cpp:80-180 | joining the pieces gives the text less a final one-character delimiter |
| SplitJoin.JoinUndoesSplit | Utils/mstrings.cpp:80-180 | join undoes split if and only if the text is not empty, on which split throws, and the delimiter is longer than one character or does not end the text |
| SplitJoin.PiecesJoin | Utils/mstrings.cpp:80-180 | splitting joined pieces by one character gives them back less an empty last one, and throws on a single empty piece |
| SplitJoin.SplitUndoesJoin | Utils/mstrings.cpp:80-180 | for every delimiter and pieces: split undoes join if and only if there is a text to split, no delimiter shows up before the one that ends a piece, and a one-character delimiter is not followed by an empty last piece |

## Left out

- IniStore.IniProcessing.ParseHelper: buffers with an interior NUL, and values that end in an unpaired backslash with no closing quote after it.
- IniStore.IniProcessing.ParseMemory: the same inputs as ParseHelper.
- IniStore.IniProcessing.OpenMem: the same inputs as ParseHelper.
- IniStore.IniProcessing.NextLine: the same inputs as ParseHelper.
- IniStore.IniProcessing.HandleLine: lines whose value ends in an unpaired backslash with no closing quote after it.
- IniLines.MemFGets: buffers with an interior NUL, which ends a line early.
- IniLines.KeyLineAt: values that end in an unpaired backslash with no closing quote after it.
- IniLines.ReadValueAt: the same values.
- IniBuffer.UnescapeAt: a final backslash when the cell after the terminator is not NUL; the loop then reads and writes whatever follows the string.
- IniStore.IniProcessing.Read: a dangling group pointer (store closed or reopened inside a group) is excluded, since following it is undefined in C++; the same holds for WriteIniParam. The value overloads that convert to numbers, booleans and Qt types only add conversions.
- IniPrint.WriteIniFile: the file itself; the text is a value and the iteration order of the hash maps a parameter. Failures to read a file, to write one and to allocate memory are not modelled.
- INI characters are not limited to a byte; the byte order mark is three characters, and letter case is that of the "C" locale.
- FmtInt.WriteInt: specifications with a precision; the locale's separator must be shorter than 2^28 characters so that the size fits its 32-bit variable; width and buffer sizes are unbounded, so overflow of `size_t` is not modelled. The precision branch is reached only from printf.
- FmtTemplate.TemplateMeaning: what follows ':' in a field is a parameter, and so is how an argument prints in a plain field.
- FmtSpec.PartsFormat: integer arguments alone, and nested indexes without leading zeros; specifications of texts, characters, booleans, pointers, floating point and custom types are not modelled. A precision is parsed and refused, as for every integer.
- FmtBuffer.Run: moved-from buffers, appending a buffer to itself and allocation failure.
- fmt floating point, printf, time, ostream and posix files: foreign calls or type dispatch.
- DirRemove.RemovePath: links, entries that cannot be examined, directories that cannot be read, and changes by others during the call.
- DirWalk.WalkAll: links and entries that are neither directory nor regular file.
- Windows paths, path resolution and creation of directories: operating system calls.
- Base64.EncodeBytes: byte strings of 2^32 bytes or more, for which the loop does not end.
- SplitJoin.Split: the empty delimiter on texts of other than one character, for which the loop does not end.
- Watchdog.SendsInOrder: threads are steps over a value, each load or store atomic and in program order; a failed start, the sleep, the clock and error texts are not modelled, and progress is counted in steps of the worker. The initial content of the uninitialised works flag is arbitrary.
- Network and device code, loggers, signal handlers, timers, random numbers and the bundled libraries: input and output or thin wrappers.
- Utility containers, file monitors and the remaining string helpers: would only add easier members.
