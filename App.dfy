/** app.py: the session controller. The App object owns the loaded table,
    the channel list, the crop threshold, the current figure and the
    metrics panel; each user action updates them in place. */
module App {
  import opened Failures
  import opened Strings
  import opened Plotting

  /** COLORS: the palette, handed out to channels by column position. */
  const Colors: seq<string> := ["#E7298A", "#D95F02", "#66A61E", "#7570B3", "#1B9E77"]

  /** One entry of the metrics panel: the channel's name and the series (its
      column of the cropped table) whose mean and standard deviation the
      panel shows. */
  datatype Metric = Metric(name: string, samples: seq<real>)

  // ---------------------------------------------------------------------
  // Specification functions for the controller's state changes

  /** The channel list generate_channel_metadata builds for these columns:
      one unselected entry per column, coloured by its position. */
  function FreshChannels(columns: seq<string>): (channels: seq<Channel>)
    requires |columns| <= |Colors|
    ensures |channels| == |columns|
    ensures forall i :: 0 <= i < |channels| ==>
      channels[i].name == columns[i] && channels[i].color == Colors[i] && !channels[i].selected
  {
    seq(|columns|, i requires 0 <= i < |columns| => Channel(columns[i], Colors[i], false))
  }

  /** Palette entries are pairwise different, so channels at different
      positions of a fresh list never share a colour. */
  lemma FreshColoursDistinct(columns: seq<string>, i: nat, j: nat)
    requires |columns| <= |Colors| && i < j < |columns|
    ensures FreshChannels(columns)[i].color != FreshChannels(columns)[j].color
  {
    assert Colors[i][1] != Colors[j][1] || Colors[i][2] != Colors[j][2];
  }

  /** A freshly generated channel list has nothing selected, so plotting it
      draws no series. */
  lemma FreshChannelsShowNothing(columns: seq<string>)
    requires |columns| <= |Colors|
    ensures Selected(FreshChannels(columns)) == []
  {
    SelectedNone(FreshChannels(columns));
  }

  /** Right after a load that rebuilt the channel list, the plot has no
      series and the metrics panel is empty; the cropped table is shown. */
  lemma FreshLoadShowsBarePlot(t: Table, threshold: int)
    requires WellFormed(t) && |t.columns| <= |Colors|
    ensures PlotData(t, FreshChannels(t.columns), threshold) == Success(Plot(Figure([]), CutBorders(t, threshold)))
    ensures MetricsFor(FreshChannels(t.columns), CutBorders(t, threshold)) == []
  {
    FreshChannelsShowNothing(t.columns);
    MetricsFollowSelection(FreshChannels(t.columns), CutBorders(t, threshold));
  }

  /** The metrics update_data_display lists for a channel list and the
      cropped table. */
  function MetricsFor(channels: seq<Channel>, t: Table): (ms: seq<Metric>)
    requires WellFormed(t)
    requires forall c :: c in channels && c.selected ==> c.name in t.columns
    ensures |ms| <= |channels|
  {
    if channels == [] then []
    else
      var init := channels[..|channels| - 1];
      var c := Last(channels);
      assert forall d :: d in init ==> d in channels;
      MetricsFor(init, t) + (if c.selected then [Metric(c.name, ColumnOf(t, c.name))] else [])
  }

  /** The metrics panel has exactly one entry per selected channel, in
      list order, named by that channel and holding its column. */
  lemma {:induction false} MetricsFollowSelection(channels: seq<Channel>, t: Table)
    requires WellFormed(t)
    requires forall c :: c in channels && c.selected ==> c.name in t.columns
    ensures var ms := MetricsFor(channels, t); var shown := Selected(channels);
      && |ms| == |shown|
      && forall k :: 0 <= k < |ms| ==> shown[k] in channels && ms[k] == Metric(shown[k].name, ColumnOf(t, shown[k].name))
  {
    if channels != [] {
      var init := channels[..|channels| - 1];
      assert forall d :: d in init ==> d in channels;
      MetricsFollowSelection(init, t);
    }
  }

  /** One more channel of the list adds its metrics entry when it is selected. */
  lemma MetricsStep(channels: seq<Channel>, k: nat, t: Table)
    requires WellFormed(t) && k < |channels|
    requires forall c :: c in channels && c.selected ==> c.name in t.columns
    ensures forall c :: c in channels[..k] && c.selected ==> c.name in t.columns
    ensures MetricsFor(channels[..k + 1], t) ==
      MetricsFor(channels[..k], t) + (if channels[k].selected then [Metric(channels[k].name, ColumnOf(t, channels[k].name))] else [])
  {
    var prefix := channels[..k + 1];
    assert prefix[..k] == channels[..k] && Last(prefix) == channels[k];
    assert forall d :: d in prefix ==> d in channels;
  }

  /** After a successful plot, the metrics panel and the legend list the
      same channels in the same order. */
  lemma MetricsMatchLegend(data: Table, channels: seq<Channel>, threshold: int)
    requires WellFormed(data) && PlotData(data, channels, threshold).Success?
    ensures var p := PlotData(data, channels, threshold).value;
      var ms := MetricsFor(channels, p.data);
      && |ms| == |p.fig.lines|
      && forall k :: 0 <= k < |ms| ==> ms[k].name == p.fig.lines[k].legend
  {
    var p := PlotData(data, channels, threshold).value;
    MetricsFollowSelection(channels, p.data);
  }

  /** The threshold after toggle_threshold: 0 becomes 1, anything else 0. */
  function Toggled(threshold: int): (t: int)
    ensures t == 0 || t == 1
    ensures t == 0 <==> threshold != 0
  {
    if threshold == 0 then 1 else 0
  }

  /** Two toggles restore the threshold exactly when it was 0 or 1. */
  lemma ToggleTwice(threshold: int)
    ensures Toggled(Toggled(threshold)) == threshold <==> threshold == 0 || threshold == 1
  {
  }

  /** The channel list after activate_channel(index): that channel's flag
      is negated and nothing else changes. */
  function Flipped(channels: seq<Channel>, index: nat): (r: seq<Channel>)
    requires index < |channels|
    ensures |r| == |channels|
    ensures r[index].name == channels[index].name && r[index].color == channels[index].color
    ensures r[index].selected == !channels[index].selected
    ensures forall j :: 0 <= j < |r| && j != index ==> r[j] == channels[j]
  {
    channels[index := channels[index].(selected := !channels[index].selected)]
  }

  /** Activating the same channel twice restores the list. */
  lemma FlipTwice(channels: seq<Channel>, index: nat)
    requires index < |channels|
    ensures Flipped(Flipped(channels, index), index) == channels
  {
  }

  // ---------------------------------------------------------------------
  // find_unique_name

  /** f"{path}/{name}.{extension}" */
  function FilePath(path: string, name: string, extension: string): string {
    path + "/" + name + "." + extension
  }

  /** A file path reads: the directory, '/', the name, '.', the extension. */
  lemma FilePathParts(path: string, name: string, extension: string)
    ensures var file := FilePath(path, name, extension);
      && |file| == |path| + |name| + |extension| + 2
      && file[..|path|] == path && file[|path|] == '/'
      && file[|path| + 1..|path| + 1 + |name|] == name && file[|path| + 1 + |name|] == '.'
      && file[|file| - |extension|..] == extension
  {
  }

  /** A numbered name reads: the stem, '(', the counter's digits, ')'. */
  lemma NumberedParts(stem: string, i: nat)
    ensures var name := Numbered(stem, i);
      && |name| == |stem| + |Decimal(i)| + 2
      && name[..|stem|] == stem && name[|stem|] == '('
      && name[|stem| + 1..|name| - 1] == Decimal(i) && name[|name| - 1] == ')'
  {
  }

  /** f"{stem}({i})" */
  function Numbered(stem: string, i: nat): string {
    stem + "(" + Decimal(i) + ")"
  }

  /** k is the least counter from 1 on whose numbered file is absent. */
  ghost predicate LeastFreeCounter(existing: set<string>, path: string, stem: string, extension: string, k: nat) {
    && 1 <= k
    && FilePath(path, Numbered(stem, k), extension) !in existing
    && forall j :: 1 <= j < k ==> FilePath(path, Numbered(stem, j), extension) in existing
  }

  /** What find_unique_name promises: the name itself when its file is
      absent, otherwise its stem numbered with the least free counter. */
  ghost predicate IsUniqueName(existing: set<string>, path: string, name: string, extension: string, unique: string) {
    if FilePath(path, name, extension) !in existing then unique == name
    else exists k :: LeastFreeCounter(existing, path, BeforeParen(name), extension, k) && unique == Numbered(BeforeParen(name), k)
  }

  /** The files of the numbered names tried before counter n. */
  ghost function Tried(path: string, stem: string, extension: string, n: nat): set<string> {
    if n <= 1 then {} else Tried(path, stem, extension, n - 1) + {FilePath(path, Numbered(stem, n - 1), extension)}
  }

  /** Different counters name different files. */
  lemma NumberedPathsDistinct(path: string, stem: string, extension: string, i: nat, j: nat)
    requires FilePath(path, Numbered(stem, i), extension) == FilePath(path, Numbered(stem, j), extension)
    ensures i == j
  {
    var front := path + "/" + stem + "(";
    var back := ")" + "." + extension;
    var di, dj := Decimal(i), Decimal(j);
    assert FilePath(path, Numbered(stem, i), extension) == front + di + back;
    assert FilePath(path, Numbered(stem, j), extension) == front + dj + back;
    assert |di| == |dj|;
    assert di == (front + di + back)[|front|..|front| + |di|];
    assert dj == (front + dj + back)[|front|..|front| + |dj|];
    DecimalInjective(i, j);
  }

  /** A name's stem, numbered, has that stem again. */
  lemma StemOfNumbered(stem: string, i: nat)
    requires '(' !in stem
    ensures BeforeParen(Numbered(stem, i)) == stem
  {
    var s := Numbered(stem, i);
    var p := BeforeParen(s);
    PrefixBefore(s, '(');
    assert s[|stem|] == '(';
    assert s[..|stem|] == stem;
  }

  /** No counter from n on has been tried before counter n. */
  lemma {:induction false} NotTriedYet(path: string, stem: string, extension: string, n: nat, m: nat)
    requires n <= m
    ensures FilePath(path, Numbered(stem, m), extension) !in Tried(path, stem, extension, n)
  {
    if n > 1 {
      NotTriedYet(path, stem, extension, n - 1, m);
      if FilePath(path, Numbered(stem, m), extension) == FilePath(path, Numbered(stem, n - 1), extension) {
        NumberedPathsDistinct(path, stem, extension, m, n - 1);
      }
    }
  }

  /** Before counter n, n - 1 different files have been tried. */
  lemma {:induction false} TriedCount(path: string, stem: string, extension: string, n: nat)
    requires n >= 1
    ensures |Tried(path, stem, extension, n)| == n - 1
  {
    if n > 1 {
      TriedCount(path, stem, extension, n - 1);
      NotTriedYet(path, stem, extension, n - 1, n - 1);
    }
  }

  /** Every counter below n has been tried before counter n. */
  lemma {:induction false} TriedIncludes(path: string, stem: string, extension: string, n: nat, j: nat)
    requires 1 <= j < n
    ensures FilePath(path, Numbered(stem, j), extension) in Tried(path, stem, extension, n)
  {
    if j < n - 1 {
      TriedIncludes(path, stem, extension, n - 1, j);
    }
  }

  /** While the files tried before counter n all exist, n is at most one
      past the number of existing files: the search cannot go on forever. */
  lemma TriedBound(existing: set<string>, path: string, stem: string, extension: string, n: nat)
    requires n >= 1 && Tried(path, stem, extension, n) <= existing
    ensures n <= |existing| + 1
  {
    TriedCount(path, stem, extension, n);
    SubsetSize(Tried(path, stem, extension, n), existing);
  }

  /** When every file tried before counter n exists and n's file does not,
      n is the least free counter. */
  lemma FirstUntried(existing: set<string>, path: string, stem: string, extension: string, n: nat)
    requires n >= 1 && Tried(path, stem, extension, n) <= existing
    requires FilePath(path, Numbered(stem, n), extension) !in existing
    ensures LeastFreeCounter(existing, path, stem, extension, n)
  {
    forall j | 1 <= j < n
      ensures FilePath(path, Numbered(stem, j), extension) in existing
    {
      TriedIncludes(path, stem, extension, n, j);
    }
  }

  /** A subset is no larger than its superset. */
  lemma {:induction false} SubsetSize(a: set<string>, b: set<string>)
    requires a <= b
    ensures |a| <= |b|
    decreases |a|
  {
    if a != {} {
      var x :| x in a;
      SubsetSize(a - {x}, b - {x});
    }
  }

  /** find_unique_name has one answer: the least free counter is unique. */
  lemma UniqueNameDetermined(existing: set<string>, path: string, name: string, extension: string, u: string, v: string)
    requires IsUniqueName(existing, path, name, extension, u)
    requires IsUniqueName(existing, path, name, extension, v)
    ensures u == v
  {
    if FilePath(path, name, extension) in existing {
      var stem := BeforeParen(name);
      var k: nat :| LeastFreeCounter(existing, path, stem, extension, k) && u == Numbered(stem, k);
      var l: nat :| LeastFreeCounter(existing, path, stem, extension, l) && v == Numbered(stem, l);
      assert k == l by {
        if k < l {
          assert false;
        } else if l < k {
          assert false;
        }
      }
    }
  }

  /** With X.png and X(1).png already saved, the next image is X(2). */
  lemma ThirdImageName(u: string)
    ensures IsUniqueName({"plots/X/X.png", "plots/X/X(1).png"}, "plots/X", "X", "png", u) <==> u == "X(2)"
  {
    var existing := {"plots/X/X.png", "plots/X/X(1).png"};
    assert BeforeParen("X") == "X" by { assert Split("X", '(') == ["X"]; }
    assert Numbered("X", 1) == "X(1)" && Numbered("X", 2) == "X(2)";
    assert FilePath("plots/X", "X", "png") == "plots/X/X.png";
    assert FilePath("plots/X", "X(1)", "png") == "plots/X/X(1).png";
    assert FilePath("plots/X", "X(2)", "png") == "plots/X/X(2).png";
    assert "plots/X/X(2).png" !in existing by {
      assert "plots/X/X(2).png"[9] != "plots/X/X.png"[9];
      assert "plots/X/X(2).png"[10] != "plots/X/X(1).png"[10];
    }
    assert LeastFreeCounter(existing, "plots/X", "X", "png", 2);
    if u == "X(2)" {
      assert IsUniqueName(existing, "plots/X", "X", "png", u);
    } else if IsUniqueName(existing, "plots/X", "X", "png", u) {
      UniqueNameDetermined(existing, "plots/X", "X", "png", u, "X(2)");
    }
  }

  // ---------------------------------------------------------------------
  // The session controller

  class App {
    /** the loaded table */
    var data: Table
    /** the cropped table last plotted */
    var currentData: Table
    var xUnit: string
    var yUnit: string
    var fileName: string
    var channelMetadata: seq<Channel>
    var dataMetrics: seq<Metric>
    /** the current figure; None before the first plot */
    var fig: Option<Figure>
    var threshold: int

    /** The controller's invariant: tables are rectangular, the threshold is
        off (0) or on (1), and each channel wears the palette colour of its
        position. */
    ghost predicate Valid()
      reads this
    {
      && WellFormed(data) && WellFormed(currentData)
      && (threshold == 0 || threshold == 1)
      && |channelMetadata| <= |Colors|
      && forall i :: 0 <= i < |channelMetadata| ==> channelMetadata[i].color == Colors[i]
    }

    /** The figure, the cropped table and the metrics panel show plot p of
        the current channel list. */
    ghost predicate Shows(p: Plot)
      reads this
    {
      && fig == Some(p.fig) && currentData == p.data
      && WellFormed(p.data)
      && (forall c :: c in channelMetadata && c.selected ==> c.name in p.data.columns)
      && dataMetrics == MetricsFor(channelMetadata, p.data)
    }

    /** update_plot has run on the current state: on success the view shows
        the new plot; when plot_data raised, the view is as it was. */
    ghost predicate Refreshed(oldFig: Option<Figure>, oldCurrent: Table, oldMetrics: seq<Metric>, outcome: Outcome)
      reads this
    {
      var plotted := PlotData(data, channelMetadata, threshold);
      if plotted.Success? then outcome == Pass && Shows(plotted.value)
      else outcome == Fail(plotted.error) && fig == oldFig && currentData == oldCurrent && dataMetrics == oldMetrics
    }

    /** __init__: an empty session. */
    constructor ()
      ensures Valid()
      ensures data == EmptyTable && currentData == EmptyTable
      ensures xUnit == "" && yUnit == "" && fileName == ""
      ensures channelMetadata == [] && dataMetrics == [] && fig == None && threshold == 0
    {
      data, currentData := EmptyTable, EmptyTable;
      xUnit, yUnit, fileName := "", "", "";
      channelMetadata, dataMetrics := [], [];
      fig, threshold := None, 0;
    }

    /** toggle_threshold: switch cropping on or off, then re-plot. */
    method ToggleThreshold() returns (outcome: Outcome)
      requires Valid()
      modifies this`threshold, this`fig, this`currentData, this`dataMetrics
      ensures Valid()
      ensures threshold == Toggled(old(threshold))
      ensures Refreshed(old(fig), old(currentData), old(dataMetrics), outcome)
    {
      if threshold == 0 {
        threshold := 1;
      } else {
        threshold := 0;
      }
      outcome := UpdatePlot();
    }

    /** The fields load_file assigns from load_data's result. */
    ghost predicate Holds(v: Loaded)
      reads this
    {
      data == v.data && xUnit == v.xUnit && yUnit == v.yUnit && fileName == v.fileName
    }

    /** generate_channel_metadata(t) has run, starting from the channel
        list oldChannels, with this outcome. */
    ghost predicate Regenerated(t: Table, oldChannels: seq<Channel>, outcome: Outcome)
      reads this
    {
      if IsEmpty(t) then outcome == Pass && channelMetadata == oldChannels
      else if |t.columns| <= |Colors| then outcome == Pass && channelMetadata == FreshChannels(t.columns)
      else outcome == Fail(PaletteExhausted(|Colors|)) && channelMetadata == FreshChannels(t.columns[..|Colors|])
    }

    /** The second half of load_file has run on loaded value v, from the
        channel list and view held before: v's fields are stored, the
        channel list is regenerated and, unless that raised, the view is
        re-plotted. */
    ghost predicate Installed(v: Loaded, oldChannels: seq<Channel>, oldFig: Option<Figure>, oldCurrent: Table,
                              oldMetrics: seq<Metric>, outcome: Outcome)
      reads this
    {
      && Holds(v)
      && if IsEmpty(data) || |data.columns| <= |Colors| then
           Regenerated(data, oldChannels, Pass) && Refreshed(oldFig, oldCurrent, oldMetrics, outcome)
         else
           Regenerated(data, oldChannels, outcome) && fig == oldFig && currentData == oldCurrent && dataMetrics == oldMetrics
    }

    /** load_file, given what the file dialog returned ("" when it was
        cancelled) and the table the parser read from that file: with a
        path, load it, rebuild the channel list and re-plot; a failure at
        any step ends the action there. */
    method LoadFile(filePath: string, parsed: Table) returns (outcome: Outcome)
      requires Valid() && WellFormed(parsed)
      modifies this`data, this`xUnit, this`yUnit, this`fileName, this`channelMetadata, this`fig, this`currentData, this`dataMetrics
      ensures Valid()
      ensures threshold == old(threshold)
      ensures filePath == [] ==> outcome == Pass && unchanged(this)
      ensures filePath != [] && LoadData(filePath, parsed).Failure? ==>
        outcome == Fail(LoadData(filePath, parsed).error) && unchanged(this)
      ensures filePath != [] && LoadData(filePath, parsed).Success? ==>
        Installed(LoadData(filePath, parsed).value, old(channelMetadata), old(fig), old(currentData), old(dataMetrics), outcome)
    {
      if filePath == [] {
        return Pass;
      }
      var loaded := LoadData(filePath, parsed);
      if loaded.Failure? {
        return Fail(loaded.error);
      }
      outcome := Install(loaded.value);
    }

    /** The part of load_file after load_data returned: store the loaded
        table, units and name, regenerate the channel list and, unless that
        raised, re-plot. */
    method Install(v: Loaded) returns (outcome: Outcome)
      requires Valid() && WellFormed(v.data)
      modifies this`data, this`xUnit, this`yUnit, this`fileName, this`channelMetadata, this`fig, this`currentData, this`dataMetrics
      ensures Valid()
      ensures Installed(v, old(channelMetadata), old(fig), old(currentData), old(dataMetrics), outcome)
    {
      ghost var channels0, fig0, current0, metrics0 := channelMetadata, fig, currentData, dataMetrics;
      data, xUnit, yUnit, fileName := v.data, v.xUnit, v.yUnit, v.fileName;
      outcome := GenerateChannelMetadata(data);
      if outcome.Fail? {
        assert Holds(v) && Regenerated(data, channels0, outcome);
        return;
      }
      ghost var channels1 := channelMetadata;
      assert Regenerated(data, channels0, Pass);
      outcome := UpdatePlot();
      assert channelMetadata == channels1 && Holds(v);
    }

    /** generate_channel_metadata(data): on a non-empty table, rebuild the
        channel list, one unselected entry per column coloured by position;
        a sixth column has no colour and raises, leaving the first five. */
    method GenerateChannelMetadata(t: Table) returns (outcome: Outcome)
      requires Valid()
      modifies this`channelMetadata
      ensures Valid()
      ensures Regenerated(t, old(channelMetadata), outcome)
      ensures outcome.Fail? <==> !IsEmpty(t) && |t.columns| > |Colors|
    {
      if IsEmpty(t) {
        return Pass;
      }
      channelMetadata := [];
      var i := 0;
      while i < |t.columns|
        invariant 0 <= i <= |t.columns| && i <= |Colors|
        invariant channelMetadata == FreshChannels(t.columns[..i])
      {
        if i == |Colors| {
          return Fail(PaletteExhausted(i));
        }
        channelMetadata := channelMetadata + [Channel(t.columns[i], Colors[i], false)];
        i := i + 1;
      }
      assert t.columns[..i] == t.columns;
      outcome := Pass;
    }

    /** activate_channel(index): negate one channel's flag, then re-plot. */
    method ActivateChannel(index: nat) returns (outcome: Outcome)
      requires Valid()
      modifies this`channelMetadata, this`fig, this`currentData, this`dataMetrics
      ensures Valid()
      ensures index >= |old(channelMetadata)| ==>
        outcome == Fail(NoSuchChannel(index)) && unchanged(this)
      ensures index < |old(channelMetadata)| ==>
        && channelMetadata == Flipped(old(channelMetadata), index)
        && Refreshed(old(fig), old(currentData), old(dataMetrics), outcome)
    {
      if index >= |channelMetadata| {
        return Fail(NoSuchChannel(index));
      }
      channelMetadata := Flipped(channelMetadata, index);
      outcome := UpdatePlot();
    }

    /** update_plot: plot the loaded table with the current channels and
        threshold, keep the figure and the cropped table, and rebuild the
        metrics panel from them. */
    method UpdatePlot() returns (outcome: Outcome)
      requires Valid()
      modifies this`fig, this`currentData, this`dataMetrics
      ensures Valid()
      ensures Refreshed(old(fig), old(currentData), old(dataMetrics), outcome)
    {
      var plotted := PlotData(data, channelMetadata, threshold);
      if plotted.Failure? {
        return Fail(plotted.error);
      }
      fig, currentData := Some(plotted.value.fig), plotted.value.data;
      UpdateDataDisplay();
      outcome := Pass;
    }

    /** update_data_display: one metrics entry per selected channel, in
        list order, from the cropped table. Its caller has just plotted
        every selected channel from that table, so each is a column. */
    method UpdateDataDisplay()
      requires WellFormed(currentData)
      requires forall c :: c in channelMetadata && c.selected ==> c.name in currentData.columns
      modifies this`dataMetrics
      ensures dataMetrics == MetricsFor(channelMetadata, currentData)
    {
      var channels, t := channelMetadata, currentData;
      dataMetrics := [];
      var k := 0;
      while k < |channels|
        invariant 0 <= k <= |channels|
        invariant forall c :: c in channels[..k] ==> c in channels
        invariant dataMetrics == MetricsFor(channels[..k], t)
      {
        var c := channels[k];
        MetricsStep(channels, k, t);
        if c.selected {
          dataMetrics := dataMetrics + [Metric(c.name, ColumnOf(t, c.name))];
        }
        k := k + 1;
      }
      assert channels[..k] == channels;
    }

    /** find_unique_name(name, path, extension), with the files already on
        disk given as a finite set of paths: try the name, then its stem
        numbered 1, 2, ... until a file is absent. */
    method FindUniqueName(existing: set<string>, name: string, path: string, extension: string) returns (unique: string)
      ensures FilePath(path, unique, extension) !in existing
      ensures IsUniqueName(existing, path, name, extension, unique)
    {
      var i := 1;
      unique := name;
      ghost var stem := BeforeParen(name);
      while FilePath(path, unique, extension) in existing
        invariant 1 <= i
        invariant i == 1 ==> unique == name
        invariant i > 1 ==> unique == Numbered(stem, i - 1) && FilePath(path, name, extension) in existing
        invariant Tried(path, stem, extension, i - 1) <= existing
        decreases |existing| + 2 - i
      {
        if i > 1 {
          StemOfNumbered(stem, i - 1);
        }
        assert Tried(path, stem, extension, i) <= existing;
        TriedBound(existing, path, stem, extension, i);
        unique := Numbered(BeforeParen(unique), i);
        i := i + 1;
      }
      if i > 1 {
        FirstUntried(existing, path, stem, extension, i - 1);
      }
    }

    /** The names save_plot writes under, when there is a figure: the image
        name is free among the .png files of plots/<dataset name>, and the
        report name among the .txt files once the image exists. The
        directory creation and the writing are not modelled. */
    method SavePlot(existing: set<string>) returns (saved: Option<(string, string)>)
      ensures fig.None? <==> saved.None?
      ensures saved.Some? ==>
        var destination := "plots/" + fileName;
        var (image, report) := saved.value;
        && IsUniqueName(existing, destination, fileName, "png", image)
        && IsUniqueName(existing + {FilePath(destination, image, "png")}, destination, fileName, "txt", report)
    {
      var destination := "plots/" + fileName;
      if fig.None? {
        return None;
      }
      var image := FindUniqueName(existing, fileName, destination, "png");
      var report := FindUniqueName(existing + {FilePath(destination, image, "png")}, fileName, destination, "txt");
      saved := Some((image, report));
    }
  }
}
