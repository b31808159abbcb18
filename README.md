# Graph-Plotting GUI: verified model of the loader and the session controller

The application loads a measurement table (CSV or Excel). The index column holds
the x axis and the other columns hold channels. It reads the axis units from the
headers, lets the user pick channels to plot, optionally crops the borders of
the index range, shows the mean and deviation of each plotted channel, and
saves the figure under a name that does not overwrite an earlier one.

This project models that logic in Dafny:

- `Failures.dfy` — the exceptions the program raises and does not catch.
  They are an `Error` datatype, carried by `Result` (for values) and
  `Outcome` (for state changes).
- `Strings.dfy` — the parts of Python's string handling the program relies on.
  These are `str.split`, `xs[-1]` and the decimal rendering of a counter.
- `Plotting.dfy` — `plotting.py`: `find_extension`, `load_data` (units, index
  label, dataset name, header clean-up), `cut_borders` and `plot_data`. All of
  them are pure functions, with lemmas about them.
- `App.dfy` — `app.py`: the class `App` with the session state and the methods
  that update it in place. `find_unique_name` is a `while` loop over a finite
  set of files that already exist.

A table is an index header, a sequence of channel headers, and a sequence of
rows. Each row has an integer index and one value per channel.

`load_data` renames its table's index and headers in place, but that table is
created inside the call. So the model returns the renamed table as a value.

The parser is not modelled. `LoadData` and `App.App.LoadFile` take the parsed
table as a parameter. The open-file dialog is also a parameter: the chosen
path, or `""` when the dialog was cancelled. Files on disk are a finite set of
paths.

How the model resolves some behaviour the code leaves implicit:

- **Unrecognised extension.** `load_data` returns a bare empty DataFrame, not
  a 4-tuple, and `app.py:104` cannot unpack it. So the model treats this as a
  failure, and `load_file` changes no state. The action is not a quiet no-op.
- **`DataFrame.empty`.** This holds when the table has no rows or no columns.
  `generate_channel_metadata` keeps the old channel list in both cases.
- **More than five columns.** The sixth column has no colour in the
  five-entry palette. The channel list then holds the first five entries, and
  the action stops there.
- **The header regex `\(.*\)`.** `.` does not match a line break, and the
  model keeps that rule. Its characterisation lemmas cover one-line headers.

## Model

| member | source | states |
|---|---|---|
| Strings.Split | plotting.py:8 | `s.split(sep)` gives at least one piece, and no piece contains `sep`. There are two or more pieces exactly when `sep` occurs in `s`; otherwise the only piece is `s` itself |
| Strings.JoinSplit | plotting.py:8 | Joining the pieces with the same separator rebuilds the string, so splitting loses nothing |
| Strings.SplitHead | plotting.py:23-24 | The first piece is the prefix up to the first separator. When there is a separator, the remaining pieces are the split of the text after it |
| Strings.SplitLast | plotting.py:8 | The last piece (`[-1]`) is the suffix after the last separator, or the whole string when there is none |
| Strings.Decimal | app.py:190 | `f"{n}"` is a non-empty run of decimal digits, with two or more digits exactly when n >= 10. It starts with '0' only for n = 0, so there is no leading zero |
| Strings.DecimalValue | app.py:190 | The digits of `f"{n}"` stand for n |
| Strings.DecimalInjective | app.py:190 | Different counters are rendered as different strings |
| Plotting.FindExtension | plotting.py:4-8 | The extension has no '.', is a suffix of the path, follows the path's last '.', and is the whole path when the path has no '.' |
| Plotting.DatasetName | plotting.py:27-28 | The dataset name contains no '/' and no '.', and is no longer than the path |
| Plotting.DatasetNameSpan | plotting.py:27-28 | The dataset name is the span of the path that starts after its last '/' and runs to the next '.' (or the end). The name contains no '.' |
| Plotting.PrefixBefore | plotting.py:24 | The renamed index header is the prefix before the first '('. When it is shorter than the header, a '(' follows it |
| Plotting.BeforeParen | plotting.py:24 | `split('(')[0]`, used for the renamed index header and for a file name's stem (app.py:189): it has no '(', is a prefix of the text, and is the whole text when that has no '(' |
| Plotting.UnitOf | plotting.py:23 | A unit contains no '(' or ')' and is shorter than its header |
| Plotting.HeaderParts | plotting.py:23-26 | A header with a '(' reads: label, '(', unit, then the end or the next '(' or ')'. The label has no '(' and the unit has no '(' or ')' |
| Plotting.UnitPrefix | plotting.py:23 | The unit is the text after the first '(', up to the next '(' or ')' or the end |
| Plotting.CloseOnLine | plotting.py:30 | Finds where the greedy `.*\)` ends: a ')' with no line break before it. On one line, it is the last ')', and there is none when it finds none |
| Plotting.LineEnd | plotting.py:30 | The first line of a string ends at its first line break, or at the end |
| Plotting.CloseOnLineFirstLine | plotting.py:30 | Whatever follows the first line break, the match ends at the last ')' of the first line. When that line has no ')', there is no match |
| Plotting.StripUnits | plotting.py:30 | The regex substitution never lengthens a header, and it leaves a header without '(' unchanged |
| Plotting.StripUnitsKeeps | plotting.py:30 | A one-line header in which no '(' is followed by a ')' is unchanged |
| Plotting.StripUnitsSpan | plotting.py:30 | A one-line header loses exactly the span from its first '(' to its last ')'. The text before and after that span is kept |
| Plotting.CloseOnLineLast | plotting.py:30 | On one line, the match ends at the last ')' |
| Plotting.LoadData | plotting.py:10-31 | Succeeds exactly when the extension is csv or xlsx, the index header has '(', there are at least two channels, and the second channel's header has '('. Each error case has its own failure. On success: index label, x unit from the index header, y unit only from `columns[1]`, dataset name, the same rows, and as many headers, each stripped of its units |
| Plotting.IsEmpty | plotting.py:58 | `DataFrame.empty`: the table has no rows or no columns |
| Plotting.MinIndex | plotting.py:61 | A lower bound of every index that some row attains |
| Plotting.MaxIndex | plotting.py:62 | An upper bound of every index that some row attains |
| Plotting.RowsWithin | plotting.py:64 | The boolean mask keeps only rows of the table whose index is inside the window |
| Plotting.RowsWithinExact | plotting.py:64 | The mask keeps, in order and with multiplicity, exactly the rows inside the window |
| Plotting.CutBorders | plotting.py:54-67 | Cropping keeps the index label and the columns, and keeps rows rectangular |
| Plotting.CutBordersWindow | plotting.py:58-64 | An empty table is returned unchanged. Otherwise the result is the in-order subsequence of rows with index in [min+t, max−t]; no row inside is dropped and no row outside is kept |
| Plotting.RowsWithinAll | plotting.py:64 | When every row is inside the window, all rows are kept |
| Plotting.RowsWithinNone | plotting.py:64 | An empty window keeps no rows |
| Plotting.CutBordersNoOffset | plotting.py:58-64 | With threshold 0 (or below), the whole table is returned |
| Plotting.CutBordersPastMiddle | plotting.py:64 | When min+t > max−t, no rows are left, but the columns are |
| Plotting.RowsWithinPrefix | plotting.py:64 | On sorted rows that all lie at or above the lower end, the window is a prefix |
| Plotting.RowsWithinAbove | plotting.py:64 | Rows all above the upper end are all dropped |
| Plotting.RowsWithinContiguous | plotting.py:64 | On rows sorted by index, the window is one contiguous run |
| Plotting.CutBordersContiguous | plotting.py:54-67 | On a table sorted by index, cropping keeps a contiguous run of rows |
| Plotting.CropThreeRows | plotting.py:58-64 | With index 0, 1, 2 and threshold 1, only the middle row is kept |
| Plotting.Selected | plotting.py:45-46 | The plotted channels are selected members of the list, and every selected channel of the list is plotted |
| Plotting.SelectedInOrder | plotting.py:45-46 | The plotted channels keep their list order |
| Plotting.SelectedCount | plotting.py:45-46 | Each selected channel is plotted as often as it occurs in the list, and no other channel is plotted |
| Plotting.SubsequenceExtend | plotting.py:45-46 | Appending an element keeps an in-order selection in order |
| Plotting.SelectedNone | plotting.py:45-46 | Nothing is plotted exactly when no channel is selected |
| Plotting.FirstMissing | plotting.py:45-47 | Finds the first selected channel, in list order, whose name is not a column. It finds none exactly when every selected channel is a column |
| Plotting.PlotData | plotting.py:33-52 | Succeeds exactly when every selected channel is a column. A failure names the first selected channel, in list order, whose lookup raises. On success, the returned data is exactly `cut_borders(data, threshold)`, and there is one series per selected channel, in list order, with its name and colour |
| Plotting.ColumnPosition | plotting.py:47 | `data[name]` reads the first column with that name |
| Plotting.ColumnOf | plotting.py:47 | `data[name]` has one value per row, taken from the first column with that header |
| App.FreshColoursDistinct | app.py:8 | Channels at different positions of a fresh list get different palette colours |
| App.FreshChannels | app.py:115-123 | One entry per column, in column order: named by the column, coloured `COLORS[i]`, not selected |
| App.FreshChannelsShowNothing | app.py:115-123 | A freshly generated channel list has nothing selected |
| App.FreshLoadShowsBarePlot | app.py:104-107 | After a load rebuilds the channel list, the plot has no series, shows the cropped table, and the metrics panel is empty |
| App.MetricsFor | app.py:161-183 | The metrics list has no more entries than the channel list. App.MetricsFollowSelection states which entries it holds |
| App.MetricsStep | app.py:163-183 | Each further channel adds its metrics entry when it is selected, and nothing otherwise |
| App.MetricsFollowSelection | app.py:161-165 | The metrics panel has one entry per selected channel, in list order, with that channel's name and column |
| App.MetricsMatchLegend | app.py:163-183 | After a successful plot, the metrics panel and the legend list the same channels in the same order |
| App.Toggled | app.py:88-92 | The new threshold is 0 or 1, and it is 0 exactly when the old one was non-zero |
| App.ToggleTwice | app.py:88-92 | Two toggles restore the threshold exactly when it was 0 or 1 |
| App.Flipped | app.py:143 | Only entry i's flag is negated. Its name and colour, and every other entry, are unchanged |
| App.FlipTwice | app.py:143 | Activating the same channel twice restores the list |
| App.FilePath | app.py:188 | `f"{path}/{name}.{extension}"` |
| App.FilePathParts | app.py:188 | A file path reads: the directory, '/', the name, '.', the extension |
| App.Numbered | app.py:190 | `f"{stem}({i})"` |
| App.NumberedParts | app.py:190 | A numbered name reads: the stem, '(', the counter's digits, ')' |
| App.NumberedPathsDistinct | app.py:188-190 | Different counters give different file paths |
| App.StemOfNumbered | app.py:189 | The stem of a numbered name is the stem it was numbered from |
| App.NotTriedYet | app.py:188-191 | No counter from n on has been tried before counter n |
| App.TriedCount | app.py:188-191 | Before counter n, n − 1 different files have been tried |
| App.TriedIncludes | app.py:188-191 | Every counter below n has been tried before counter n |
| App.SubsetSize | app.py:188 | A subset of the existing files is no larger than the whole set, which bounds the loop |
| App.TriedBound | app.py:188-191 | While every file tried so far exists, the counter is at most one past the number of existing files, so the loop terminates |
| App.FirstUntried | app.py:188-192 | When every file tried before counter n exists and n's file does not, n is the least free counter |
| App.UniqueNameDetermined | app.py:185-192 | The answer of find_unique_name is unique: the least free counter is determined |
| App.ThirdImageName | app.py:185-192 | With `X.png` and `X(1).png` present, the unique name is exactly `X(2)` |
| App.App.constructor | app.py:12-26 | The session starts empty: empty tables, empty units and name, no channels or metrics, no figure, threshold 0 |
| App.App.ToggleThreshold | app.py:88-95 | The threshold becomes the toggled value, and then the view is re-plotted |
| App.App.LoadFile | app.py:97-109 | With no path, nothing changes. When load_data fails, nothing changes and that error is returned. Otherwise the loaded values are stored, the channel list is regenerated and, unless that raised, the view is re-plotted. The threshold is untouched |
| App.App.Install | app.py:104-107 | Stores the loaded table, units and name. Then it regenerates the channel list and, unless that raised, re-plots |
| App.App.GenerateChannelMetadata | app.py:111-123 | An empty table leaves the channel list untouched. Otherwise there is one unselected entry per column, in order, coloured `COLORS[i]`. With more than five columns, the first five entries remain and the error is at position 5; it fails exactly in that case |
| App.App.ActivateChannel | app.py:142-144 | A bad index fails with no change. Otherwise only that channel's flag is negated, then the view is re-plotted |
| App.App.UpdatePlot | app.py:146-155 | On success, the figure, the cropped table and the metrics show the new plot. When plot_data raises, the view is unchanged |
| App.App.UpdateDataDisplay | app.py:157-183 | The metrics are exactly one entry per selected channel, in list order, named by that channel, holding its column of the cropped table |
| App.App.FindUniqueName | app.py:185-192 | The name is returned unchanged when its file is absent. Otherwise the result is the stem numbered with the least free counter ≥ 1. The result never collides, and the loop terminates for any finite set of files |
| App.App.SavePlot | app.py:194-202 | With a figure, the image name is unique among the .png files of `plots/<name>`, and the report name is unique among the .txt files |

## Left out

- Widgets, layout, checkboxes and the canvas (`setup_*`, `update_checkboxes`, the frames and labels in `update_data_display`): user interface only.
- The file dialog, `os.makedirs`, `savefig` and writing the report: I/O. The chosen path and the set of existing files are parameters.
- The matplotlib figure's size, title, axis labels and legend box: foreign library. A figure is reduced to its series (legend text and colour), in order.
- pandas `read_csv`/`read_excel`: foreign parser. The parsed table is a parameter. A missing index header is modelled as `""`, and read errors are not modelled.
- The mean and standard deviation in the metrics panel and the report: floating-point numerics. Each metrics entry keeps the channel's name and its series.
- `print` calls: debugging output.
- Index values are integers. pandas also allows floating-point indices, and the crop window arithmetic is the same for them.
- App.App.UpdateDataDisplay: requires every selected channel to be a column of the cropped table. Its only caller, `update_plot`, calls it right after `plot_data` has looked up each of those columns in that table.
- Plotting.StripUnits: its lemmas describe headers without a line break. For a header with line breaks, only the function itself says what happens.
- Plotting.ColumnPosition: with duplicate column names, pandas returns all matching columns; the model reads the first. Duplicates can arise from stripping units: "V(V)" and "V(mV)" both become "V".
- Plotting.PlotData: with duplicate column names, matplotlib draws one line per matching column; the model draws one series per selected channel.
- App.App.UpdateDataDisplay: with duplicate column names, the mean and deviation are per matching column; the model keeps one entry per selected channel, holding the first matching column.
