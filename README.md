# ElasticTabstops in Dafny

A model of the core of the ElasticTabstops plugin for Notepad++, with proofs
about it. The plugin aligns tab-separated text. A line is a row of cells, each
ending in a tab. A column block is a run of adjacent lines that all have a
cell in one column. Every cell of a block is stretched to the block's widest
cell. Each line then gets tabstops at the running sums of its cells' stretched
widths.

The model has seven modules:

- `Cells` (cells.dfy) covers a line as the scanner reads it. It defines the
  split into tab-terminated cells (stopping at a NUL, as `SCI_GETCHARAT` does
  past the text), `calc_tab_width`, and how many tabs the block scans count.
- `Columns` (columns.dfy) is the reference definition of a layout. Over a grid
  of padded cell widths it defines column blocks, stretched widths and
  cumulative tabstops. It proves that a block of lines bounded by lines
  without tabs can be laid out on its own.
- `Boundary` (boundary.dfy) covers the document as lines and `(line, column)`
  positions. It models `change_line`, `get_block_boundary` and
  `get_nof_tabs_between` as methods with their loops.
- `ElasticTabstops` (engine.dfy) has the editor surface (`Editor`: text,
  per-line tabstop lists, tab settings and the width oracle) and
  `stretch_tabstops`. That works in place on an `array2` grid of cells in its
  three phases: scan, stretch and set. It also has `ElasticTabstops_OnModify`
  in class `Engine`, which holds the two file-level width variables.
- `Config` (config.dfy) models `ConfigLoad` as a class updated line by line,
  matching a pure reference fold. It models the lines `ConfigSave` writes as a
  function, and proves that saving and then loading gives back the settings.
- `Plugin` (plugin.dfy) covers src/Main.cpp:
  - `shouldProcessCurrentFile`, both as written and corrected (the plugin's
    handlers use it as written, as the source does);
  - the `SCN_MODIFIED` filter of `beNotified`;
  - the `isFileEnabled` flag set on `NPPN_BUFFERACTIVATED`;
  - `toggleEnabled` and `convertEtToSpaces`.
- `Util` (util.dfy) holds `Option` and `Max`.

The host editor is a parameter, not modelled code:
- The text is a sequence of lines, without their line-end characters.
- Text-width measurement (`SCI_TEXTWIDTH`) is a function `measure` from a
  cell's text to a width.
- The character width, tab width and use-tabs flag are fields of `Editor`.
- `SCI_CLEARTABSTOPS` and `SCI_ADDTABSTOP` are methods of `Editor` on its
  tabstop lists.
- The file extension (`NPPM_GETEXTPART`) is a parameter.
- The settings file is an optional sequence of lines: `None` when it cannot be
  opened.

Notes on the source:
- `ElasticTabstops_OnModify` recomputes the width constants on every edit
  (src/ElasticTabstops.cpp:306-308).
- The extension filter is one space-separated string matched with `wcsstr`
  (src/Main.cpp:68).
- `min_padding` is a `size_t` (src/Config.h:29). A negative `padding` value
  therefore wraps around and is clamped to 256. The width of `size_t` depends
  on the platform. The model takes the 64 bits of an x64 build, and
  `Config.NegativeClampedAnyWidth` shows that any width of at least 32 bits
  gives 256 as well.
- src/Config.h declares `file_extensions` as a `std::vector<std::string>`,
  but src/Config.cpp and src/Main.cpp use it as a nullable wide string. The
  model follows the two .cpp files, as an `Option<seq<char>>`.
- src/Main.cpp:138 calls `ElasticTabstops_OnModify` with arguments
  `(start, end, linesAdded, text)`. That is not the signature defined at
  src/ElasticTabstops.cpp:294. The model connects the two through the edit
  range `start..end` only.

## Model

| member | source | states |
|---|---|---|
| Cells.CalcTabWidth | src/ElasticTabstops.cpp:94-101 | a cell is at least the minimum plus the padding wide, at least its text plus the padding, and exactly one of the two |
| Cells.SplitCells | src/ElasticTabstops.cpp:205-236 | the scanner's split of a line into tab-terminated cells and trailing text; no contract of its own: `Cells.CellsCountTabs`, `Cells.SplitJoin` and `Cells.JoinSplit` state what it computes |
| Cells.VisibleLength | src/ElasticTabstops.cpp:199-205 | the scan stops at the first NUL or at the end: no NUL before the result, a NUL at it when inside the line |
| Cells.VisibleLengthUnique | src/ElasticTabstops.cpp:199-205 | any index with no NUL before it and a NUL or the end at it is the visible length |
| Cells.CellsCountTabs | src/ElasticTabstops.cpp:213-225 | a line has exactly one tab-terminated cell per tab, and the cells and the trailing text contain no tab |
| Cells.SplitJoin | src/ElasticTabstops.cpp:192-236 | splitting into cells loses nothing: joining the cells, each with its tab, then the trailing text, gives the line back |
| Cells.JoinSplit | src/ElasticTabstops.cpp:192-236 | conversely, any tab-free cells and trailing text are recovered by splitting their join |
| Cells.JoinSplitCells | src/ElasticTabstops.cpp:213-224 | tab-free cells, each followed by its tab, split back into exactly those cells |
| Cells.SplitAppendTabFree | src/ElasticTabstops.cpp:226-233 | text without tabs only extends the pending cell |
| Cells.ScanStep | src/ElasticTabstops.cpp:205-236 | one more character read either closes the pending cell (a tab) or extends it |
| Cells.CellWidths | src/ElasticTabstops.cpp:213-225 | one padded width per tab of the visible line, each at least minimum plus padding |
| Cells.PaddedWidths | src/ElasticTabstops.cpp:215-220 | one width per cell: `calc_tab_width` of the cell's measured text, 0 standing for an empty cell |
| Cells.NumTabs | src/ElasticTabstops.cpp:134-141 | the count kept by the inner loops of both tab scans (also lines 164-171): tabs before the line's end or its first NUL; no contract of its own, `NumTabsCountsVisible` relates it to the cells |
| Cells.NumTabsCountsVisible | src/ElasticTabstops.cpp:134-141 | the tab count of the block scans equals the tab count of the visible line and the number of its cells |
| Cells.EmptyCellWidth | src/ElasticTabstops.cpp:215-220 | a cell with no text before its tab is not measured and gets `calc_tab_width(0)`, the minimum plus the padding |
| Cells.AdjacentTabs | src/ElasticTabstops.cpp:213-224 | two adjacent tabs close the pending cell and then an empty one |
| Cells.LeadingTab | src/ElasticTabstops.cpp:213-224 | a leading tab closes an empty first cell |
| Columns.RunStart | src/ElasticTabstops.cpp:245-252 | the first line of the column block around a line: every line from it to the line has the cell, and the line above it does not |
| Columns.RunEnd | src/ElasticTabstops.cpp:262-265 | one past the last line of that block: every line up to it has the cell, and the line at it does not |
| Columns.ColumnMax | src/ElasticTabstops.cpp:256-259 | an upper bound on every cell of the column over the range, 0 for an empty range |
| Columns.ColumnMaxAttained | src/ElasticTabstops.cpp:256-259 | on a non-empty range the maximum is the width of one of its cells |
| Columns.Stretched | src/ElasticTabstops.cpp:253-260 | a stretched cell is at least its own padded width |
| Columns.StretchedIsRunMax | src/ElasticTabstops.cpp:245-266 | every cell of a block is stretched to the same width: no cell of the block is wider, and one cell is exactly that wide |
| Columns.InRunIffSameStart | src/ElasticTabstops.cpp:245-266 | two cells of a column are in one block exactly when their blocks start at the same line |
| Columns.SameRun | src/ElasticTabstops.cpp:245-266 | all lines of one block agree on its start and end |
| Columns.RunHead | src/ElasticTabstops.cpp:250-259 | the first line of a block holds the block's width |
| Columns.TablessLineSplitsBlocks | src/ElasticTabstops.cpp:262-265 | a line with no tabs ends every column block above it and starts none that reaches below it |
| Columns.BlockIsolation | src/ElasticTabstops.cpp:239-266 | a cell's stretched width depends only on the lines between the nearest lines without that column's cell |
| Columns.StretchedRow | src/ElasticTabstops.cpp:277-283 | one stretched width per cell of the line, each the width of its column block |
| Columns.TabstopsCumulative | src/ElasticTabstops.cpp:270-288 | one tabstop per cell; the first is the first stretched width and each later one adds the next stretched width to the previous tabstop |
| Columns.TabstopsIncreasing | src/ElasticTabstops.cpp:277-283 | when every cell is wider than 0, a line's tabstops strictly increase |
| Columns.Tabstops | src/ElasticTabstops.cpp:277-283 | the tabstops of one line of a block; no contract of its own: `Columns.TabstopsCumulative` and `Columns.TabstopsIncreasing` state them |
| Columns.Layout | src/ElasticTabstops.cpp:269-289 | the tabstop lists of every line of a block; no contract of its own: `Columns.LayoutLine` states them |
| Columns.LayoutLine | src/ElasticTabstops.cpp:270-289 | a block's layout has one tabstop list per line, and line `l` gets the tabstops of line `l` |
| Columns.StretchedWindow | src/ElasticTabstops.cpp:239-266 | a column block inside a window of lines is stretched alike in the window and in the whole grid |
| Columns.TabstopsWindow | src/ElasticTabstops.cpp:270-288 | a line with all its column blocks inside a window gets the same tabstops in the window as in the whole grid |
| Columns.BoundedWindowLayout | src/ElasticTabstops.cpp:180-292 | a window bounded by lines without cells, or by the ends of the grid, is laid out as the whole grid lays out those lines |
| Boundary.DocEnd | src/ElasticTabstops.cpp:103-118 | the position after the last character is a valid position |
| Boundary.MaxTabs | src/ElasticTabstops.cpp:143 | an upper bound on the tab count of every line of the range |
| Boundary.MaxTabsAttained | src/ElasticTabstops.cpp:143 | the maximum is the tab count of one of the lines of the range |
| Boundary.BackStop | src/ElasticTabstops.cpp:121-151 | the backward walk stops at the first line above the start without tabs, or at line 0; every line in between has tabs |
| Boundary.FwdBoundary | src/ElasticTabstops.cpp:121-151 | the forward walk stops at the start of the first line below without tabs, or at the end of the document; every line in between has tabs |
| Boundary.ChangeLine | src/ElasticTabstops.cpp:103-119 | going backwards fails exactly on line 0 and otherwise moves to the start of the line above; going forwards moves to the start of the line below, or to the end of the document from the last line |
| Boundary.CountLineTabs | src/ElasticTabstops.cpp:129-141 | the inner scan counts the line's tabs up to its end or its first NUL |
| Boundary.GetBlockBoundary | src/ElasticTabstops.cpp:121-151 | the position where the walk in either direction stops, and the largest tab count of every line it scanned |
| Boundary.WalkOn | src/ElasticTabstops.cpp:143-148 | one more line with tabs, or the starting line, extends the walk and its running maximum; the backward walk that reaches line 0 stops there |
| Boundary.WalkStop | src/ElasticTabstops.cpp:143-150 | a line without tabs, or the end of the document, ends the walk where the reference boundary says, with the running maximum over the lines walked |
| Boundary.BetweenLast | src/ElasticTabstops.cpp:175 | the last line the `current_pos < end` stop lets the scan reach: the end's line, or the line before it when the end sits at column 0 of a later line; no contract of its own, `GetNofTabsBetween` states its bounds |
| Boundary.GetNofTabsBetween | src/ElasticTabstops.cpp:153-178 | the largest tab count over the lines from the start line to the last line the edit touches |
| ElasticTabstops.Splice | src/ElasticTabstops.cpp:270-289 | the lists of the block's lines are replaced and every other line keeps its list |
| ElasticTabstops.Editor.ClearTabstops | src/ElasticTabstops.cpp:275 | that line's tabstop list becomes empty and no other list changes |
| ElasticTabstops.Editor.AddTabstop | src/ElasticTabstops.cpp:282 | the offset is added at the end of that line's list and no other list changes |
| ElasticTabstops.ScanLine | src/ElasticTabstops.cpp:192-236 | the line's cells are filled with its padded widths, marked as ending in a tab, and not yet pointed at a block; cells past the tab count stay empty; other lines are untouched; returns the tab count |
| ElasticTabstops.ScanBlock | src/ElasticTabstops.cpp:182-237 | a fresh grid of `maxTabs` columns whose line `k` holds the scanned cells of document line `blockStart + k`, plus each line's tab count |
| ElasticTabstops.OpenBlock | src/ElasticTabstops.cpp:245-260 | during the stretch walk, the open block starts at `first_line_in_block`, and `max_width` is the widest cell of the block so far |
| ElasticTabstops.StretchStepCell | src/ElasticTabstops.cpp:253-260 | a line with a cell joins the open block, or opens one, and the stretch invariant still holds |
| ElasticTabstops.StretchStepGap | src/ElasticTabstops.cpp:262-265 | a line without a cell closes the open block, and the invariant still holds |
| ElasticTabstops.StretchDone | src/ElasticTabstops.cpp:240-267 | after the last line, every cell of the column points at its block's first line, which holds the block's stretched width |
| ElasticTabstops.StretchColumn | src/ElasticTabstops.cpp:240-267 | after the walk over column `t`, every cell of it is stretched, and cells of other columns are untouched |
| ElasticTabstops.StretchGrid | src/ElasticTabstops.cpp:239-267 | after the stretch phase, every cell of the grid is stretched |
| ElasticTabstops.SetLineTabstops | src/ElasticTabstops.cpp:270-288 | the line's tabstop list becomes its reference tabstops, and no other line changes |
| ElasticTabstops.SetBlockTabstops | src/ElasticTabstops.cpp:269-289 | the lists of the block's lines become the block's reference layout, and every other line keeps its list |
| ElasticTabstops.SpliceStep | src/ElasticTabstops.cpp:270-289 | setting one more line's list extends the splice by that line |
| ElasticTabstops.BlockCoverage | src/ElasticTabstops.cpp:310-313 | the largest of the three scans bounds the tab count of every line of the block laid out |
| ElasticTabstops.BlockLayoutIsDocumentLayout | src/ElasticTabstops.cpp:310-325 | the block laid out around an edit contains the edited lines, and gives each of its lines the tabstops a layout of the whole document would give it |
| ElasticTabstops.TabBoundedLayout | src/ElasticTabstops.cpp:310-325 | lines bounded by lines without tabs, or by the ends of the document, are laid out as the whole document lays them out |
| ElasticTabstops.BlockRowsWindow | src/ElasticTabstops.cpp:192-236 | the cell widths of a block of lines are the corresponding part of those of the whole document |
| ElasticTabstops.TablessRow | src/ElasticTabstops.cpp:145 | a line without tabs has no cells |
| ElasticTabstops.FindBlock | src/ElasticTabstops.cpp:310-317 | the first line and the line count of the block to lay out, and a tab count bounding every line of it |
| ElasticTabstops.Engine.constructor | src/ElasticTabstops.cpp:72-73 | both widths start at 0 |
| ElasticTabstops.Engine.StretchTabstops | src/ElasticTabstops.cpp:180-292 | the block's lines get the block's reference layout under the current widths, and every other line keeps its tabstops |
| ElasticTabstops.Engine.OnModify | src/ElasticTabstops.cpp:294-326 | nothing changes when the buffer indents with spaces; otherwise the padding is the character width times `min_padding`, the minimum is the tab width in characters less the padding (at least 0), and the block around the edit is laid out |
| ElasticTabstops.Engine.SetWidths | src/ElasticTabstops.cpp:306-308 | the padding is the character width times the minimum padding, the minimum is the rest of a tab's width clamped at 0, and the two add up to a tab's width when the padding fits in it |
| ElasticTabstops.Engine.LayoutAround | src/ElasticTabstops.cpp:310-325 | the lines of the block found around the edit get that block's layout, and no other line changes |
| Config.SpaceEnd | src/Config.cpp:46-47 | skips exactly the `isspace` characters from the index on |
| Config.LineLength | src/Config.cpp:57 | the length before the first CR or LF, or the whole length |
| Config.DigitsEnd | src/Config.cpp:72 | the length of the leading run of decimal digits |
| Config.Saturate | src/Config.cpp:72 | `strtol` saturates at the range of a 32-bit `long` and keeps every value inside it |
| Config.SizeT | src/Config.cpp:72 | a `long` stored in `size_t` wraps modulo 2^64 and keeps every non-negative value |
| Config.ClampPadding | src/Config.cpp:75-76 | the padding ends in 1..256: unchanged inside, 256 above, 1 for 0 |
| Config.StrToL | src/Config.cpp:72 | `strtol` in base 10 after the skipped spaces; no contract of its own: `Config.DecimalRoundTrip` and `Config.NegDecimalRoundTrip` state what it reads back |
| Config.ApplyLine | src/Config.cpp:41-77 | one pass of the `ConfigLoad` loop on the settings; no contract of its own: the line lemmas below state what each kind of line does |
| Config.LoadLines | src/Config.cpp:37-78 | the loop over the file's lines as a fold of `ApplyLine`; no contract of its own: `Config.LoadLinesAppend` and `Config.LoadLinesLoadable` state its properties |
| Config.SavedLines | src/Config.cpp:83-109 | the lines `ConfigSave` writes; no contract of its own: `Config.SaveLoad` proves that loading them gives the settings back |
| Config.IgnoredLine | src/Config.cpp:41-77 | comment lines, blank lines and lines with an unknown key change nothing |
| Config.EnabledLine | src/Config.cpp:45-49 | an `enabled` line sets only the flag, true exactly when `true` follows the key after any spaces |
| Config.PaddingLine | src/Config.cpp:68-77 | a `padding` line sets only the padding, always to 1..256: the parsed value itself when in range, 256 above, 1 for 0 |
| Config.NegativePadding | src/Config.cpp:72-76 | every negative `padding -<n>` wraps to a huge `size_t` and loads as 256 |
| Config.NegativeClampedAnyWidth | src/Config.cpp:72-75 | a negative `long` stored in an unsigned `size_t` of 32 bits or more is above 256, so it is clamped to 256 |
| Config.NegDecimalRoundTrip | src/Config.cpp:72 | `strtol` reads a minus sign and the digits of `n` back as `-n`, saturated |
| Config.PaddingAbove | src/Config.cpp:75 | `padding 300` loads as 256 |
| Config.PaddingZero | src/Config.cpp:76 | `padding 0` loads as 1 |
| Config.PaddingOf | src/Config.cpp:68-77 | `padding <n>` loads as `n` saturated to a `long` and clamped |
| Config.ExtensionsLine | src/Config.cpp:50-67 | an `extensions` line sets only the list, whatever it was before; a set list is non-empty, starts with neither a space nor `*`, and holds no line terminator |
| Config.ExtensionsValue | src/Config.cpp:56-66 | with `k` the end of the white space after the key: no list when the line ends at `k` or its value starts with `*`, else exactly the text from `k` up to the first line terminator |
| Config.LastExtensionsLineWins | src/Config.cpp:37-78 | after loading, the list is the one the last `extensions` line gives |
| Config.DecimalRoundTrip | src/Config.cpp:72 | `strtol` reads back the decimal digits of `n`, saturated |
| Config.LoadLinesAppend | src/Config.cpp:37-78 | loading two runs of lines is loading the first, then the second |
| Config.LoadComments | src/Config.cpp:41 | a run of comment and blank lines changes nothing |
| Config.HeaderSkipped | src/Config.cpp:90-93 | the header lines `ConfigSave` writes are all skipped on loading |
| Config.ApplyLineLoadable | src/Config.cpp:41-77 | every line keeps the padding in 1..256 and the list writable |
| Config.LoadLinesLoadable | src/Config.cpp:29-81 | loading keeps the settings in that range, and the initial settings are in it |
| Config.SaveLoad | src/Config.cpp:83-109 | loading the lines `ConfigSave` writes gives back exactly the saved settings, whatever was loaded before |
| Config.EnabledStep | src/Config.cpp:94 | the `enabled` line written sets the flag it was written from |
| Config.ExtensionsStep | src/Config.cpp:100-102 | the `extensions` line written sets the list it was written from, `*` standing for no list |
| Config.PaddingStep | src/Config.cpp:106 | the `padding` line written sets the padding it was written from |
| Config.AsInt | src/Config.cpp:106 | `%d` reads the `size_t` as a 32-bit `int`, exact up to `INT_MAX` |
| Config.Configuration.constructor | src/Main.cpp:28 | the initial settings: enabled, no list, padding 1 |
| Config.Configuration.LoadLine | src/Config.cpp:40-77 | one pass of the loop changes the settings as the reference `ApplyLine` does |
| Config.Configuration.Load | src/Config.cpp:29-81 | nothing changes when the file cannot be opened; otherwise the settings become the fold of `ApplyLine` over its lines |
| Config.SkipSpaces | src/Config.cpp:47 | the loop stops where `SpaceEnd` says |
| Plugin.FindFrom | src/Main.cpp:68 | `wcsstr`: the first index at or after `from` where the extension occurs, or none when it occurs nowhere there |
| Plugin.ShouldProcessAsWritten | src/Main.cpp:55-80 | `shouldProcessCurrentFile` as written; no contract of its own: `Plugin.AsWrittenDiffers` and the two counterexample lemmas below relate it to the corrected check |
| Plugin.ShouldProcess | src/Main.cpp:55-80 | the corrected check; no contract of its own: `Plugin.ShouldProcessSpec` states what it decides |
| Plugin.FindEntryListed | src/Main.cpp:66-72 | the continued search finds an occurrence that is a whole space-separated entry exactly when one exists |
| Plugin.ShouldProcessSpec | src/Main.cpp:55-80 | a file is laid out exactly when the buffer indents with tabs and either no list is set or the file has an extension that is a whole entry of the list |
| Plugin.AsWrittenDiffers | src/Main.cpp:63-72 | the check as written and the corrected one differ only when the list is set, the file has an extension, and the first occurrence of it in the list is not a whole entry |
| Plugin.AsWrittenMissesLaterEntry | src/Main.cpp:68-72 | under the list `.cpp .c`, a `.c` file is rejected as written and accepted by the corrected check |
| Plugin.AsWrittenAcceptsSuffix | src/Main.cpp:68-72 | under the list `.tar.gz`, a `.gz` file is accepted as written and rejected by the corrected check |
| Plugin.PrefixEntryNotListed | src/Main.cpp:63-72 | under the list `.cpp`, a `.c` file is not laid out |
| Plugin.ModifiedRange | src/Main.cpp:120-140 | the `SCN_MODIFIED` filter; no contract of its own: `Plugin.ModifiedRangeSpec` states when it gives a range and which |
| Plugin.UndoRedoFlags | src/Main.cpp:130 | the undo-or-redo test on the combined mask is the test of either flag |
| Plugin.ModifiedRangeSpec | src/Main.cpp:120-140 | a pass runs exactly for inserts or deletes in an enabled file that are user actions or the last step of an undo or redo; it starts at the position and ends after the inserted text, or at the position of a deletion |
| Plugin.UserInsertRange | src/Main.cpp:123-138 | text typed by the user is laid out from its position to its end |
| Plugin.UndoStepSkipped | src/Main.cpp:133-135 | an intermediate step of a multi-step undo starts no pass |
| Plugin.PluginState.constructor | src/Main.cpp:28 | the initial settings, and the file flag set |
| Plugin.PluginState.OnModified | src/Main.cpp:114-142 | notifications from unknown windows start no pass; otherwise the range is the filter's |
| Plugin.PluginState.OnBufferActivated | src/Main.cpp:162-172 | nothing changes when the plugin is disabled; otherwise the file flag becomes the check as written, and the whole document is laid out exactly when it is set |
| Plugin.PluginState.ToggleEnabled | src/Main.cpp:198-214 | the flag is negated and the rest of the settings kept; the whole document is laid out exactly when the plugin is now on and the check as written accepts the file (tabstops untouched), and otherwise every line's tabstops are cleared |
| Plugin.PluginState.ConvertEtToSpaces | src/Main.cpp:216-224 | the conversion runs exactly when the plugin is on and the check as written accepts the file, and the settings end as they began |

## Left out

- Scintilla plumbing is not modelled: the direct function pointer, `SCI_*` messages as messages, `get_line_start` and `get_line_end` as position queries, and the flat character positions themselves. Positions are `(line, column)` pairs.
- Plugin.PluginState.OnModified: returns the edit range and does not call the layout pass. Mapping Scintilla's flat positions to lines (`SCI_LINEFROMPOSITION`) is not modelled. `ElasticTabstops.Engine.OnModify` takes the range as positions.
- Text measurement (`get_text_width`, `SCI_TEXTWIDTH`, styles) is the `measure` parameter. The width of `"A"` is the editor's `charWidth` field.
- The `_DEBUG` markers (src/ElasticTabstops.cpp:319-323) and `ElasticTabstops_OnReady` are debugging aids and are not modelled.
- `ElasticTabstops_ComputeEntireDoc`, `ElasticTabstops_SwitchToScintilla` and `ElasticTabstops_ConvertToSpaces` are not defined in the source files modelled here. The model returns the command `ComputeEntireDoc` where they would be called, and `ConvertEtToSpaces` reports that the conversion would run.
- The `SCN_ZOOM`, `NPPN_READY`, `NPPN_SHUTDOWN` and `NPPN_FILESAVED` cases of `beNotified`, the menu, the DLL exports and the about dialog are left out. They only reach the modelled operations through host calls.
- Plugin.PluginState.OnBufferActivated: the window check of `beNotified` (src/Main.cpp:114-117) is modelled only for `SCN_MODIFIED`. Buffer activations are taken to come from a known window.
- `GetIniFilePath` and file I/O are left out. The file's lines are given whole, each with its newline.
- Config.Configuration.Load: does not model `fgets` splitting a line longer than 255 bytes into several reads, or NUL bytes inside a line.
- Config.ExtensionsLine: the multibyte-to-wide conversions (`mbstowcs`, `wcstombs`) and their 256-character limits are left out. Characters are kept as they are.
- C `int` overflow of widths, positions and tabstop offsets is not modelled. Widths and offsets are unbounded naturals. They stay non-negative because the host's measurements are non-negative and the minimum is clamped at 0 (src/ElasticTabstops.cpp:308).
- ElasticTabstops.Editor.AddTabstop: appends the offset. Scintilla inserts it in order. The two agree when the offsets of a line increase strictly, which `Columns.TabstopsIncreasing` shows whenever minimum plus padding is positive.
- ElasticTabstops.ScanLine: at a line end the source clears `ends_in_tab` of the slot after the line's last cell (src/ElasticTabstops.cpp:207-211). When the line has `max_tabs` tabs, that slot is the first cell of the next line in the flat buffer. That cell is still false, and the next line's scan rewrites it. The last line of a block either has no tabs or ends the document, so the write never leaves the buffer. The model makes the same write only when the slot lies in the line's own row. Either way only a value that is false already is written.
- `stretch_tabstops` keeps its grid as a flat buffer with row pointers (src/ElasticTabstops.cpp:182-189). The model uses a two-dimensional array. The `widest_width_pix` pointer is the line number of the block's first cell in the same column.
- The Scintilla-specific fact used by `Boundary.ChangeLine` is modelled as `Boundary.DocEnd`: asking for the start of the line after the last gives the end of the document.

## Findings

The plugin's handlers (`Plugin.PluginState`) use the check as written, as
src/Main.cpp:165, 202 and 217 do. The corrected check `Plugin.ShouldProcess`
is a replacement for it. `Plugin.ShouldProcessSpec` proves what the
replacement decides, and `Plugin.AsWrittenDiffers` shows where the two differ.

| source | as written | input that shows it | evidently intended | confidence | as-written member | corrected member |
|---|---|---|---|---|---|---|
| src/Main.cpp:68-72 | only the first `wcsstr` occurrence of the extension is checked for a following space or end | list `.cpp .c`, file extension `.c`: the first hit is inside `.cpp`, followed by `p`, so the file is rejected | the file is accepted when some space-separated entry of the list is its extension | high; not executed | Plugin.AsWrittenMissesLaterEntry | Plugin.ShouldProcessSpec |
| src/Main.cpp:66-72 | the character before the occurrence is not checked, only the one after it | list `.tar.gz`, file extension `.gz`: the hit at index 4 is followed by the end, so the file is accepted | the file is accepted only when some space-separated entry of the list is its extension | medium (the comment at src/Main.cpp:66-67 names only the prefix case); not executed | Plugin.AsWrittenAcceptsSuffix | Plugin.ShouldProcessSpec |
