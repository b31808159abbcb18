/** plotting.py: loading a measurement table, reading the axis units off its
    headers, cropping it symmetrically by index, and choosing what to plot. */
module Plotting {
  import opened Failures
  import opened Strings

  /** One row of a table: its index value (the x axis) and one value per channel. */
  datatype Row = Row(index: int, values: seq<real>)

  /** A table as pandas holds it after read_csv(..., index_col=0): the index
      column's header, the channel headers in column order, and the rows. */
  datatype Table = Table(indexName: string, columns: seq<string>, rows: seq<Row>)

  /** Every row has one value per channel column. */
  predicate WellFormed(t: Table) {
    forall r :: r in t.rows ==> |r.values| == |t.columns|
  }

  /** DataFrame.empty: the table has no rows or no columns. */
  predicate IsEmpty(t: Table) {
    |t.rows| == 0 || |t.columns| == 0
  }

  /** pd.DataFrame(): no index name, no columns, no rows. */
  const EmptyTable := Table("", [], [])

  // ---------------------------------------------------------------------
  // find_extension and the names load_data derives from the path

  /** find_extension(path): the text after the last '.', or the whole path
      when it has no '.'. */
  function FindExtension(path: string): (ext: string)
    ensures '.' !in ext
    ensures |ext| <= |path| && path[|path| - |ext|..] == ext
    ensures '.' in path ==> |ext| < |path| && path[|path| - |ext| - 1] == '.'
    ensures '.' !in path ==> ext == path
  {
    SplitLast(path, '.');
    Last(Split(path, '.'))
  }

  /** file_path.split('/')[-1].split('.')[0]: the dataset's display name. */
  function DatasetName(path: string): (name: string)
    ensures '/' !in name && '.' !in name
    ensures |name| <= |path|
  {
    var base := Last(Split(path, '/'));
    SplitLast(path, '/');
    PrefixBefore(base, '.');
    assert forall i :: 0 <= i < |Split(path, '/')| ==> '/' !in Split(path, '/')[i];
    Split(base, '.')[0]
  }

  /** The dataset name is the file's base name (what follows the last '/')
      cut at its first '.': it starts where the last directory ends and
      runs to the first '.' after it, or to the end of the path. */
  lemma DatasetNameSpan(path: string) returns (start: nat)
    ensures var name := DatasetName(path);
      start + |name| <= |path| && path[start..start + |name|] == name &&
      (start == 0 || path[start - 1] == '/') && '/' !in path[start..] &&
      '.' !in name && (start + |name| == |path| || path[start + |name|] == '.')
  {
    var base := Last(Split(path, '/'));
    SplitLast(path, '/');
    SplitHead(base, '.');
    start := |path| - |base|;
    var name := DatasetName(path);
    assert path[start..] == base;
    assert path[start..start + |name|] == base[..|name|];
    if start + |name| < |path| {
      assert '.' in base;
      assert path[start + |name|] == base[|name|];
    }
  }

  // ---------------------------------------------------------------------
  // Units and header clean-up

  /** s.split('(')[0]: the text up to its first '('. load_data keeps it as
      the index label, and find_unique_name numbers it as a name's stem. */
  function BeforeParen(header: string): (prefix: string)
    ensures '(' !in prefix
    ensures |prefix| <= |header| && header[..|prefix|] == prefix
    ensures '(' !in header ==> prefix == header
  {
    PrefixBefore(header, '(');
    Split(header, '(')[0]
  }

  /** header.split('(')[1].split(')')[0]: the unit inside the header's first
      parentheses. */
  function UnitOf(header: string): (unit: string)
    requires '(' in header
    ensures '(' !in unit && ')' !in unit
    ensures |unit| < |header|
  {
    SplitHead(header, '(');
    var k := |Split(header, '(')[0]|;
    var inner := Split(header, '(')[1];
    assert inner == Split(header[k + 1..], '(')[0];
    PrefixBefore(header[k + 1..], '(');
    PrefixBefore(inner, ')');
    Split(Split(header, '(')[1], ')')[0]
  }

  /** The first piece of s.split(sep) is the prefix of s before its first
      sep, which is followed by sep unless it is all of s. */
  lemma PrefixBefore(s: string, sep: char)
    ensures var p := Split(s, sep)[0];
      |p| <= |s| && s[..|p|] == p && sep !in p && (|p| < |s| ==> s[|p|] == sep)
  {
    SplitHead(s, sep);
  }

  /** A header that has a '(' reads: its prefix (without '('), that '(',
      its unit (without '(' or ')'), and then either nothing or the next
      '(' or ')'. */
  lemma {:induction false} HeaderParts(header: string)
    requires '(' in header
    ensures var prefix := BeforeParen(header); var unit := UnitOf(header);
      var k := |prefix|; var e := k + 1 + |unit|;
      && e <= |header|
      && header[..k] == prefix && header[k] == '(' && header[k + 1..e] == unit
      && '(' !in prefix && '(' !in unit && ')' !in unit
      && (e == |header| || header[e] == '(' || header[e] == ')')
  {
    var parts := Split(header, '(');
    var prefix := parts[0];
    var k := |prefix|;
    SplitHead(header, '(');
    var after := header[k + 1..];
    assert parts[1..] == Split(after, '(');
    assert parts[1] == parts[1..][0];
    var unit := UnitOf(header);
    assert unit == Split(Split(after, '(')[0], ')')[0];
    UnitPrefix(after);
    assert header[k + 1..k + 1 + |unit|] == after[..|unit|];
    if k + 1 + |unit| < |header| {
      assert header[k + 1 + |unit|] == after[|unit|];
    }
  }

  /** The text a '(' opens runs up to the next '(' or ')', or to the end. */
  lemma UnitPrefix(after: string)
    ensures var unit := Split(Split(after, '(')[0], ')')[0];
      && |unit| <= |after| && after[..|unit|] == unit
      && '(' !in unit && ')' !in unit
      && (|unit| == |after| || after[|unit|] == '(' || after[|unit|] == ')')
  {
    var inner := Split(after, '(')[0];
    PrefixBefore(after, '(');
    PrefixBefore(inner, ')');
    var unit := Split(inner, ')')[0];
    if |unit| < |inner| {
      assert after[|unit|] == inner[|unit|];
    }
  }

  /** Where the first line of s ends: the position of its first line
      break, or the end of s. */
  function LineEnd(s: string): (e: nat)
    ensures e <= |s| && '\n' !in s[..e]
    ensures e < |s| ==> s[e] == '\n'
  {
    if s == [] || s[0] == '\n' then 0
    else
      assert s[..1 + LineEnd(s[1..])] == [s[0]] + s[1..][..LineEnd(s[1..])];
      1 + LineEnd(s[1..])
  }

  /** Where the greedy `.*\)` that starts right after a '(' ends: the last
      ')' of s before its first line break (`.` matches anything but a line
      break). */
  function CloseOnLine(s: string): (j: Option<nat>)
    ensures j.Some? ==> j.value < |s| && s[j.value] == ')' && '\n' !in s[..j.value]
    ensures '\n' !in s && j.None? ==> ')' !in s
    ensures '\n' !in s && j.Some? ==> ')' !in s[j.value + 1..]
  {
    if s == [] || s[0] == '\n' then None
    else
      assert s == [s[0]] + s[1..];
      match CloseOnLine(s[1..])
      case Some(k) =>
        assert s[k + 2..] == s[1..][k + 1..];
        Some(k + 1)
      case None => if s[0] == ')' then Some(0) else None
  }

  /** Whatever follows the first line break, the match ends at the last ')'
      of the first line, and there is none when no ')' is on that line. */
  lemma {:induction false} CloseOnLineFirstLine(s: string)
    ensures var j := CloseOnLine(s);
      && (j.None? ==> ')' !in s[..LineEnd(s)])
      && (j.Some? ==> j.value < LineEnd(s) && ')' !in s[j.value + 1..LineEnd(s)])
  {
    if s != [] && s[0] != '\n' {
      CloseOnLineFirstLine(s[1..]);
      var e := LineEnd(s[1..]);
      assert s[..e + 1] == [s[0]] + s[1..][..e];
      assert s[1..e + 1] == s[1..][..e];
      match CloseOnLine(s[1..])
      case Some(k) =>
        assert s[k + 2..e + 1] == s[1..][k + 1..e];
      case None =>
    }
  }

  /** re.sub(r'\(.*\)', '', header): scanning left to right, a '(' with a ')'
      after it on the same line starts a match that runs to the last such
      ')', and the match is dropped; the scan resumes after it. */
  function StripUnits(header: string): (r: string)
    ensures |r| <= |header|
    ensures '(' !in header ==> r == header
    decreases |header|
  {
    if header == [] then []
    else if header[0] == '(' then
      match CloseOnLine(header[1..])
      case Some(j) => StripUnits(header[j + 2..])
      case None => [header[0]] + StripUnits(header[1..])
    else
      assert header == [header[0]] + header[1..];
      [header[0]] + StripUnits(header[1..])
  }

  /** Some '(' of the header has a ')' after it. */
  predicate HasParenPair(header: string) {
    exists i, j :: 0 <= i < j < |header| && header[i] == '(' && header[j] == ')'
  }

  /** A one-line header in which no '(' is followed by a ')' keeps its text. */
  lemma {:induction false} StripUnitsKeeps(header: string)
    requires '\n' !in header && !HasParenPair(header)
    ensures StripUnits(header) == header
    decreases |header|
  {
    if header != [] {
      var tail := header[1..];
      assert !HasParenPair(tail) by {
        forall i, j | 0 <= i < j < |tail| && tail[i] == '(' ensures tail[j] != ')' {
          assert header[i + 1] == '(' && header[j + 1] == tail[j];
        }
      }
      StripUnitsKeeps(tail);
      if header[0] == '(' {
        assert ')' !in tail by {
          forall j | 0 <= j < |tail| ensures tail[j] != ')' {
            assert header[j + 1] == tail[j];
          }
        }
      }
      assert header == [header[0]] + tail;
    }
  }

  /** A one-line header loses exactly the span from its first '(' to its
      last ')', both included, when that ')' comes after the '(': what
      precedes the '(' and what follows the ')' are kept. */
  lemma {:induction false} StripUnitsSpan(header: string, i: nat, j: nat)
    requires '\n' !in header && i < j < |header|
    requires header[i] == '(' && '(' !in header[..i]
    requires header[j] == ')' && ')' !in header[j + 1..]
    ensures StripUnits(header) == header[..i] + header[j + 1..]
    decreases i
  {
    var tail := header[1..];
    if i == 0 {
      CloseOnLineLast(tail, j - 1);
      var rest := header[j + 1..];
      assert tail[j..] == rest;
      assert StripUnits(header) == StripUnits(rest);
      assert ')' !in rest;
      StripUnitsKeeps(rest);
      assert header[..i] == [];
    } else {
      assert header[0] != '(' by { assert header[0] == header[..i][0]; }
      assert tail[..i - 1] == header[1..i];
      assert tail[j..] == header[j + 1..];
      StripUnitsSpan(tail, i - 1, j - 1);
      assert StripUnits(header) == [header[0]] + StripUnits(tail);
      assert header[..i] == [header[0]] + header[1..i];
    }
  }

  /** On one line, CloseOnLine finds the last ')'. */
  lemma {:induction false} CloseOnLineLast(s: string, k: nat)
    requires '\n' !in s && k < |s| && s[k] == ')' && ')' !in s[k + 1..]
    ensures CloseOnLine(s) == Some(k)
  {
  }

  // ---------------------------------------------------------------------
  // load_data

  /** What load_data returns on success: the table with its index renamed
      and its headers stripped, the two axis units and the dataset name. */
  datatype Loaded = Loaded(data: Table, xUnit: string, yUnit: string, fileName: string)

  /** load_data(file_path), given the table the csv or xlsx parser produced
      from the file. Only "csv" and "xlsx" are read; any other extension
      yields the bare empty frame, which cannot be used as a result. The x
      unit comes from the index header, the y unit from the SECOND channel
      header only; both must hold a '('. */
  function LoadData(path: string, parsed: Table): (r: Result<Loaded>)
    ensures r.Success? <==>
      && (FindExtension(path) == "csv" || FindExtension(path) == "xlsx")
      && '(' in parsed.indexName
      && |parsed.columns| >= 2 && '(' in parsed.columns[1]
    ensures FindExtension(path) != "csv" && FindExtension(path) != "xlsx" ==>
      r == Failure(UnrecognisedExtension(FindExtension(path)))
    ensures (FindExtension(path) == "csv" || FindExtension(path) == "xlsx") && '(' !in parsed.indexName ==>
      r == Failure(MissingUnit(parsed.indexName))
    ensures (FindExtension(path) == "csv" || FindExtension(path) == "xlsx") && '(' in parsed.indexName ==>
      && (|parsed.columns| < 2 ==> r == Failure(MissingSecondColumn))
      && (|parsed.columns| >= 2 && '(' !in parsed.columns[1] ==> r == Failure(MissingUnit(parsed.columns[1])))
    ensures r.Success? ==>
      var v := r.value;
      && v.data.indexName == BeforeParen(parsed.indexName)
      && v.xUnit == UnitOf(parsed.indexName)
      && v.yUnit == UnitOf(parsed.columns[1])
      && v.fileName == DatasetName(path)
      && v.data.rows == parsed.rows
      && |v.data.columns| == |parsed.columns|
      && (forall k :: 0 <= k < |parsed.columns| ==> v.data.columns[k] == StripUnits(parsed.columns[k]))
      && (WellFormed(parsed) ==> WellFormed(v.data))
  {
    var extension := FindExtension(path);
    if extension != "csv" && extension != "xlsx" then Failure(UnrecognisedExtension(extension))
    else if '(' !in parsed.indexName then Failure(MissingUnit(parsed.indexName))
    else
      var xUnit := UnitOf(parsed.indexName);
      var indexName := BeforeParen(parsed.indexName);
      if |parsed.columns| < 2 then Failure(MissingSecondColumn)
      else if '(' !in parsed.columns[1] then Failure(MissingUnit(parsed.columns[1]))
      else
        var yUnit := UnitOf(parsed.columns[1]);
        var columns := seq(|parsed.columns|, k requires 0 <= k < |parsed.columns| => StripUnits(parsed.columns[k]));
        Success(Loaded(Table(indexName, columns, parsed.rows), xUnit, yUnit, DatasetName(path)))
  }

  // ---------------------------------------------------------------------
  // cut_borders

  /** data.index.min() */
  function MinIndex(rows: seq<Row>): (m: int)
    requires |rows| > 0
    ensures forall i :: 0 <= i < |rows| ==> m <= rows[i].index
    ensures exists i :: 0 <= i < |rows| && rows[i].index == m
  {
    if |rows| == 1 then rows[0].index
    else
      var rest := MinIndex(rows[1..]);
      assert forall i :: 1 <= i < |rows| ==> rows[i] == rows[1..][i - 1];
      if rows[0].index <= rest then rows[0].index else rest
  }

  /** data.index.max() */
  function MaxIndex(rows: seq<Row>): (m: int)
    requires |rows| > 0
    ensures forall i :: 0 <= i < |rows| ==> rows[i].index <= m
    ensures exists i :: 0 <= i < |rows| && rows[i].index == m
  {
    if |rows| == 1 then rows[0].index
    else
      var rest := MaxIndex(rows[1..]);
      assert forall i :: 1 <= i < |rows| ==> rows[i] == rows[1..][i - 1];
      if rows[0].index >= rest then rows[0].index else rest
  }

  /** data[(data.index >= lo) & (data.index <= hi)]: the rows whose index
      lies in [lo, hi], in their original order. */
  function RowsWithin(rows: seq<Row>, lo: int, hi: int): (kept: seq<Row>)
    ensures forall x :: x in kept ==> x in rows && lo <= x.index <= hi
  {
    if rows == [] then []
    else if lo <= rows[0].index <= hi then [rows[0]] + RowsWithin(rows[1..], lo, hi)
    else RowsWithin(rows[1..], lo, hi)
  }

  /** cut_borders(data, threshold): an empty table is returned as it is;
      otherwise the rows whose index lies within threshold of neither end
      of the index range. */
  function CutBorders(t: Table, threshold: int): (r: Table)
    ensures r.indexName == t.indexName && r.columns == t.columns
    ensures WellFormed(t) ==> WellFormed(r)
  {
    if IsEmpty(t) then t
    else t.(rows := RowsWithin(t.rows, MinIndex(t.rows) + threshold, MaxIndex(t.rows) - threshold))
  }

  /** The row x lies in the window that cut_borders keeps. */
  predicate InWindow(t: Table, threshold: int, x: Row)
    requires |t.rows| > 0
  {
    MinIndex(t.rows) + threshold <= x.index <= MaxIndex(t.rows) - threshold
  }

  /** xs is ys with some elements deleted, the rest in their order. */
  ghost predicate IsSubsequence<T>(xs: seq<T>, ys: seq<T>)
    decreases |ys|
  {
    if xs == [] then true
    else if ys == [] then false
    else (xs[0] == ys[0] && IsSubsequence(xs[1..], ys[1..])) || IsSubsequence(xs, ys[1..])
  }

  /** RowsWithin keeps the rows in [lo, hi], each as often as it occurs,
      in their order, and nothing else. */
  lemma {:induction false} RowsWithinExact(rows: seq<Row>, lo: int, hi: int)
    ensures IsSubsequence(RowsWithin(rows, lo, hi), rows)
    ensures forall x :: (multiset(RowsWithin(rows, lo, hi))[x] ==
                        if lo <= x.index <= hi then multiset(rows)[x] else 0)
  {
    if rows != [] {
      RowsWithinExact(rows[1..], lo, hi);
      assert rows == [rows[0]] + rows[1..];
      var kept := RowsWithin(rows, lo, hi);
      if lo <= rows[0].index <= hi {
        assert kept[1..] == RowsWithin(rows[1..], lo, hi);
      }
    }
  }

  /** cut_borders returns an empty table unchanged; otherwise it keeps, in
      order and with their multiplicity, exactly the rows whose index lies
      in [min + threshold, max - threshold]: no row in that window is
      dropped and no row outside it is kept. */
  lemma CutBordersWindow(t: Table, threshold: int)
    ensures IsEmpty(t) ==> CutBorders(t, threshold) == t
    ensures !IsEmpty(t) ==>
      var r := CutBorders(t, threshold);
      && r.indexName == t.indexName && r.columns == t.columns
      && IsSubsequence(r.rows, t.rows)
      && forall x :: multiset(r.rows)[x] == (if InWindow(t, threshold, x) then multiset(t.rows)[x] else 0)
  {
    if !IsEmpty(t) {
      var lo, hi := MinIndex(t.rows) + threshold, MaxIndex(t.rows) - threshold;
      var r := CutBorders(t, threshold);
      assert r.rows == RowsWithin(t.rows, lo, hi);
      RowsWithinExact(t.rows, lo, hi);
      forall x ensures multiset(r.rows)[x] == if InWindow(t, threshold, x) then multiset(t.rows)[x] else 0 {
        assert InWindow(t, threshold, x) == (lo <= x.index <= hi);
      }
    }
  }

  /** When every row lies in [lo, hi], all of them are kept. */
  lemma {:induction false} RowsWithinAll(rows: seq<Row>, lo: int, hi: int)
    requires forall i :: 0 <= i < |rows| ==> lo <= rows[i].index <= hi
    ensures RowsWithin(rows, lo, hi) == rows
  {
    if rows != [] {
      RowsWithinAll(rows[1..], lo, hi);
      assert rows == [rows[0]] + rows[1..];
    }
  }

  /** An empty window keeps nothing. */
  lemma {:induction false} RowsWithinNone(rows: seq<Row>, lo: int, hi: int)
    requires lo > hi
    ensures RowsWithin(rows, lo, hi) == []
  {
    if rows != [] {
      RowsWithinNone(rows[1..], lo, hi);
    }
  }

  /** With no offset (or a negative one) cut_borders returns the whole table. */
  lemma CutBordersNoOffset(t: Table, threshold: int)
    requires threshold <= 0
    ensures CutBorders(t, threshold) == t
  {
    if !IsEmpty(t) {
      var lo, hi := MinIndex(t.rows) + threshold, MaxIndex(t.rows) - threshold;
      forall i | 0 <= i < |t.rows|
        ensures lo <= t.rows[i].index <= hi
      {
      }
      RowsWithinAll(t.rows, lo, hi);
      assert CutBorders(t, threshold) == Table(t.indexName, t.columns, t.rows);
    }
  }

  /** An offset so large that the window's lower end passes its upper end
      leaves no rows (but the columns stay). */
  lemma CutBordersPastMiddle(t: Table, threshold: int)
    requires !IsEmpty(t)
    requires MinIndex(t.rows) + threshold > MaxIndex(t.rows) - threshold
    ensures CutBorders(t, threshold).rows == [] && CutBorders(t, threshold).columns == t.columns
  {
    RowsWithinNone(t.rows, MinIndex(t.rows) + threshold, MaxIndex(t.rows) - threshold);
  }

  /** With the index running 0, 1, 2 and the threshold on, only the
      middle row is kept. */
  lemma CropThreeRows(x: Row, y: Row, z: Row)
    requires x.index == 0 && y.index == 1 && z.index == 2
    ensures CutBorders(Table("t", ["A"], [x, y, z]), 1).rows == [y]
  {
    var rows := [x, y, z];
    assert MinIndex(rows) == 0 by {
      assert MinIndex(rows[1..]) == 1 by { assert rows[1..][1..] == [z]; }
    }
    assert MaxIndex(rows) == 2 by {
      assert MaxIndex(rows[1..]) == 2 by { assert rows[1..][1..] == [z]; }
    }
    assert RowsWithin([z], 1, 1) == [] by { assert [z][1..] == []; }
    assert RowsWithin([y, z], 1, 1) == [y] by { assert [y, z][1..] == [z]; }
    assert rows[1..] == [y, z];
  }

  /** The index does not decrease from one row to the next. */
  predicate IndexSorted(rows: seq<Row>) {
    forall i, j :: 0 <= i < j < |rows| ==> rows[i].index <= rows[j].index
  }

  /** On sorted rows that all lie at or above lo, the window is a prefix. */
  lemma {:induction false} RowsWithinPrefix(rows: seq<Row>, lo: int, hi: int) returns (b: nat)
    requires IndexSorted(rows)
    requires forall i :: 0 <= i < |rows| ==> lo <= rows[i].index
    ensures b <= |rows| && RowsWithin(rows, lo, hi) == rows[..b]
  {
    if rows == [] {
      b := 0;
    } else if rows[0].index <= hi {
      var b' := RowsWithinPrefix(rows[1..], lo, hi);
      b := b' + 1;
      assert rows[..b] == [rows[0]] + rows[1..][..b'];
    } else {
      RowsWithinNone(rows[1..], hi + 1, hi);
      RowsWithinAbove(rows[1..], lo, hi);
      b := 0;
    }
  }

  /** Rows all above hi are all dropped. */
  lemma {:induction false} RowsWithinAbove(rows: seq<Row>, lo: int, hi: int)
    requires forall i :: 0 <= i < |rows| ==> hi < rows[i].index
    ensures RowsWithin(rows, lo, hi) == []
  {
    if rows != [] {
      RowsWithinAbove(rows[1..], lo, hi);
    }
  }

  /** On rows sorted by index, the window is one contiguous run of rows. */
  lemma {:induction false} RowsWithinContiguous(rows: seq<Row>, lo: int, hi: int) returns (a: nat, b: nat)
    requires IndexSorted(rows)
    ensures a <= b <= |rows| && RowsWithin(rows, lo, hi) == rows[a..b]
  {
    if rows == [] {
      a, b := 0, 0;
    } else if rows[0].index < lo {
      var a', b' := RowsWithinContiguous(rows[1..], lo, hi);
      a, b := a' + 1, b' + 1;
      assert rows[1..][a'..b'] == rows[a..b];
    } else {
      a := 0;
      b := RowsWithinPrefix(rows, lo, hi);
    }
  }

  /** When the table is sorted by its index, cut_borders keeps a contiguous
      run of its rows. */
  lemma CutBordersContiguous(t: Table, threshold: int) returns (a: nat, b: nat)
    requires IndexSorted(t.rows)
    ensures a <= b <= |t.rows| && CutBorders(t, threshold).rows == t.rows[a..b]
  {
    if IsEmpty(t) {
      a, b := 0, |t.rows|;
    } else {
      a, b := RowsWithinContiguous(t.rows, MinIndex(t.rows) + threshold, MaxIndex(t.rows) - threshold);
    }
  }

  // ---------------------------------------------------------------------
  // plot_data

  /** One entry of the channel list: app.py keeps these as dicts with the
      keys column_name, column_color and selected. */
  datatype Channel = Channel(name: string, color: string, selected: bool)

  /** A plotted series: its legend entry and its colour. */
  datatype Line = Line(legend: string, color: string)

  /** The figure plot_data draws, reduced to the series it plots, in order. */
  datatype Figure = Figure(lines: seq<Line>)

  /** plot_data's result: the figure and the cropped table it plotted. */
  datatype Plot = Plot(fig: Figure, data: Table)

  /** The selected channels, in list order. */
  function Selected(channels: seq<Channel>): (s: seq<Channel>)
    ensures forall c :: c in s ==> c in channels && c.selected
    ensures forall i :: 0 <= i < |channels| && channels[i].selected ==> channels[i] in s
    ensures |s| <= |channels|
  {
    if channels == [] then []
    else
      var init := channels[..|channels| - 1];
      var last := Last(channels);
      assert forall c :: c in init ==> c in channels;
      assert forall i :: 0 <= i < |init| ==> channels[i] == init[i];
      Selected(init) + (if last.selected then [last] else [])
  }

  /** The plotted channels keep their list order. */
  lemma {:induction false} SelectedInOrder(channels: seq<Channel>)
    ensures IsSubsequence(Selected(channels), channels)
  {
    if channels != [] {
      var init := channels[..|channels| - 1];
      var last := Last(channels);
      assert channels == init + [last];
      SelectedInOrder(init);
      SubsequenceExtend(Selected(init), init, last);
      if last.selected {
        assert Selected(channels) == Selected(init) + [last];
      } else {
        assert Selected(channels) == Selected(init);
      }
    }
  }

  /** Each selected channel is plotted as often as it occurs in the list,
      and no other channel is plotted. */
  lemma {:induction false} SelectedCount(channels: seq<Channel>, c: Channel)
    ensures multiset(Selected(channels))[c] == if c.selected then multiset(channels)[c] else 0
  {
    if channels != [] {
      var init := channels[..|channels| - 1];
      var last := Last(channels);
      var tail := if last.selected then [last] else [];
      assert channels == init + [last];
      assert multiset(channels) == multiset(init) + multiset{last};
      assert multiset(Selected(channels)) == multiset(Selected(init)) + multiset(tail);
      SelectedCount(init, c);
    }
  }

  /** Appending the same element to both sides, or to the longer side
      only, keeps a subsequence a subsequence. */
  lemma {:induction false} SubsequenceExtend<T>(xs: seq<T>, ys: seq<T>, z: T)
    requires IsSubsequence(xs, ys)
    ensures IsSubsequence(xs + [z], ys + [z])
    ensures IsSubsequence(xs, ys + [z])
    decreases |ys|
  {
    if xs == [] {
      if ys != [] {
        SubsequenceExtend(xs, ys[1..], z);
        assert (ys + [z])[1..] == ys[1..] + [z];
      }
    } else if ys != [] {
      assert (ys + [z])[1..] == ys[1..] + [z];
      assert (xs + [z])[1..] == xs[1..] + [z];
      if xs[0] == ys[0] && IsSubsequence(xs[1..], ys[1..]) {
        SubsequenceExtend(xs[1..], ys[1..], z);
      } else {
        SubsequenceExtend(xs, ys[1..], z);
      }
    }
  }

  /** No channel of the list is selected exactly when none is plotted. */
  lemma {:induction false} SelectedNone(channels: seq<Channel>)
    ensures Selected(channels) == [] <==> forall i :: 0 <= i < |channels| ==> !channels[i].selected
  {
    if channels != [] {
      var init := channels[..|channels| - 1];
      SelectedNone(init);
      if Last(channels).selected {
        assert Selected(channels) != [];
      }
      assert forall i :: 0 <= i < |init| ==> init[i] == channels[i];
    }
  }

  /** The first selected channel, in list order, whose name is not among the
      columns: the one whose lookup raises. */
  function FirstMissing(channels: seq<Channel>, columns: seq<string>): (m: Option<string>)
    ensures m.None? <==> forall c :: c in channels && c.selected ==> c.name in columns
    ensures m.Some? ==> m.value !in columns
    ensures m.Some? ==> exists i :: 0 <= i < |channels| && FirstMissingAt(channels, columns, i) && channels[i].name == m.value
  {
    if channels == [] then None
    else if channels[0].selected && channels[0].name !in columns then Some(channels[0].name)
    else
      assert forall c :: c in channels ==> c == channels[0] || c in channels[1..];
      assert forall i :: 0 <= i < |channels| - 1 && FirstMissingAt(channels[1..], columns, i) ==>
        FirstMissingAt(channels, columns, i + 1) && channels[1..][i].name == channels[i + 1].name;
      FirstMissing(channels[1..], columns)
  }

  /** Position i holds a selected channel that is not a column, and every
      selected channel before it is one: its lookup is the first to raise. */
  predicate FirstMissingAt(channels: seq<Channel>, columns: seq<string>, i: nat)
    requires i < |channels|
  {
    && channels[i].selected && channels[i].name !in columns
    && forall j :: 0 <= j < i && channels[j].selected ==> channels[j].name in columns
  }

  /** plot_data(data, channels, threshold, ...): crops the table, draws one
      series per selected channel in list order with the channel's name and
      colour, and returns the figure with the cropped table. Looking up a
      selected channel that is not a column raises. */
  function PlotData(data: Table, channels: seq<Channel>, threshold: int): (r: Result<Plot>)
    ensures r.Success? <==> forall c :: c in channels && c.selected ==> c.name in data.columns
    ensures r.Failure? ==> r.error.MissingColumn? && r.error.name !in data.columns
    ensures r.Failure? ==> exists i :: 0 <= i < |channels| && FirstMissingAt(channels, data.columns, i) && channels[i].name == r.error.name
    ensures r.Success? ==> r.value.data == CutBorders(data, threshold)
    ensures r.Success? ==>
      var lines := r.value.fig.lines; var shown := Selected(channels);
      |lines| == |shown| &&
      forall k :: 0 <= k < |lines| ==> lines[k] == Line(shown[k].name, shown[k].color)
  {
    var cropped := CutBorders(data, threshold);
    match FirstMissing(channels, cropped.columns)
    case Some(name) => Failure(MissingColumn(name))
    case None =>
      var shown := Selected(channels);
      Success(Plot(Figure(seq(|shown|, k requires 0 <= k < |shown| => Line(shown[k].name, shown[k].color))), cropped))
  }

  // ---------------------------------------------------------------------
  // Column access

  /** The position of the first column with this name. */
  function ColumnPosition(columns: seq<string>, name: string): (k: nat)
    requires name in columns
    ensures k < |columns| && columns[k] == name && name !in columns[..k]
  {
    if columns[0] == name then 0
    else
      assert columns[1..][..ColumnPosition(columns[1..], name)] == columns[1..ColumnPosition(columns[1..], name) + 1];
      ColumnPosition(columns[1..], name) + 1
  }

  /** data[name]: the values of the named channel, row by row. */
  function ColumnOf(t: Table, name: string): (series: seq<real>)
    requires WellFormed(t) && name in t.columns
    ensures |series| == |t.rows|
    ensures forall i :: 0 <= i < |t.rows| ==> series[i] == t.rows[i].values[ColumnPosition(t.columns, name)]
  {
    var k := ColumnPosition(t.columns, name);
    seq(|t.rows|, i requires 0 <= i < |t.rows| => assert t.rows[i] in t.rows; t.rows[i].values[k])
  }
}
