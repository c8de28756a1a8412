/**
 * The join-and-filter pipeline of app/estimation.py: normalisation of the two
 * tables, the UBIGEO -> department map, the left join, the selector option
 * lists (`load_data`) and the band / department filter with the map join
 * (`filter_df`).
 */
module Estimation {
  import opened Wrappers
  import opened Seqs
  import opened StringOrder
  import opened Codes
  import opened Names

  /** The precomputed metric columns; the pipeline only carries them along. */
  datatype Metrics = Metrics(mean: real, p10: real, p90: real, std: real, min: real, max: real, frostShare: real)

  /** A row of the statistics CSV as read: `__UBIGEO__`, `__NOMBRE__`, `band_label` and the metrics. */
  datatype RawStatsRow = RawStatsRow(ubigeo: RawCode, nombre: Option<string>, band: Option<string>, metrics: Metrics)

  /** A statistics row after its code and name columns are overwritten with their normalised forms. */
  datatype StatsRow = StatsRow(code: string, name: Option<string>, band: Option<string>, metrics: Metrics)

  /** A statistics row after the department (`__DEP__`) is joined on. */
  datatype Row = Row(code: string, name: Option<string>, band: Option<string>, metrics: Metrics, dep: Option<string>)

  /** District boundaries are opaque payloads here. */
  type Geometry = seq<(real, real)>

  /** A shapefile record as read: `IDDIST`, `DEPARTAMEN` and `geometry`. */
  datatype RawGeoRow = RawGeoRow(iddist: RawCode, departamen: Option<string>, geometry: Geometry)

  /** A shapefile record renamed to `__UBIGEO__` / `__DEP__` and normalised. */
  datatype GeoRow = GeoRow(code: string, dep: Option<string>, geometry: Geometry)

  /** A row of the UBIGEO -> department map. */
  datatype DepEntry = DepEntry(code: string, dep: Option<string>)

  /** A row of the map table: a geometry row with the metrics of a matching statistics row. */
  datatype MapRow = MapRow(code: string, dep: Option<string>, geometry: Geometry, metrics: Metrics)

  /** Whether the two input files exist. */
  datatype Files = Files(csvExists: bool, shapeExists: bool)

  /** The two `FileNotFoundError`s `load_data` raises. */
  datatype LoadError = MissingCsv | MissingShape

  /** What `load_data` returns: the joined table, the shapefile as read, and the two option lists. */
  datatype Loaded = Loaded(df: seq<Row>, gdf: seq<RawGeoRow>, bands: seq<string>, deps: seq<string>)

  /** The department selector's "all departments" entry. */
  const AllDepartments: string := "TODOS"

  // ---------------------------------------------------------------------------
  // Normalisation (lines 28-29, 39-45, 66-72)

  /** Lines 28-29: the code padded, the name normalised, the band and metrics carried along. */
  function NormalizeStatsRow(raw: RawStatsRow): (r: StatsRow)
    ensures r.code == NormalizeCode(raw.ubigeo) && r.name == QuitarTildes(raw.nombre)
    ensures |r.code| >= CodeWidth
    ensures r.name.None? <==> raw.nombre.None?
    ensures r.name.Some? ==> IsNormalized(r.name.value)
    ensures r.band == raw.band && r.metrics == raw.metrics
  {
    StatsRow(NormalizeCode(raw.ubigeo), QuitarTildes(raw.nombre), raw.band, raw.metrics)
  }

  /** Lines 43-44 and 70-71: the code padded, the department normalised, the geometry carried along. */
  function NormalizeGeoRow(g: RawGeoRow): (r: GeoRow)
    ensures r.code == NormalizeCode(g.iddist) && r.dep == QuitarTildes(g.departamen)
    ensures |r.code| >= CodeWidth
    ensures r.dep.None? <==> g.departamen.None?
    ensures r.dep.Some? ==> IsNormalized(r.dep.value)
    ensures r.geometry == g.geometry
  {
    GeoRow(NormalizeCode(g.iddist), QuitarTildes(g.departamen), g.geometry)
  }

  /** The normalised shapefile: one record per record read, in order, each normalised on its own. */
  function NormalizeGeo(gdf: seq<RawGeoRow>): (r: seq<GeoRow>)
    ensures |r| == |gdf|
    ensures forall i :: 0 <= i < |gdf| ==> r[i] == NormalizeGeoRow(gdf[i]) && r[i].geometry == gdf[i].geometry
  {
    Map(NormalizeGeoRow, gdf)
  }

  /**
   * Both tables are keyed the same way: a CSV row whose code was read as the
   * integer n and a shapefile record whose code is a digit text of at most
   * six characters denoting n get the same six-character key.
   */
  lemma KeysAgree(raw: RawStatsRow, g: RawGeoRow)
    requires raw.ubigeo.Num? && g.iddist.Text? && AllDigits(g.iddist.s) && 1 <= |g.iddist.s| <= CodeWidth
    requires Value(g.iddist.s) == raw.ubigeo.n
    ensures NormalizeStatsRow(raw).code == NormalizeGeoRow(g).code && |NormalizeGeoRow(g).code| == CodeWidth
  {
    CodesAgree(raw.ubigeo.n, g.iddist.s);
  }

  function EntryOf(g: GeoRow): DepEntry { DepEntry(g.code, g.dep) }

  /** The `[__UBIGEO__, __DEP__]` projection of the normalised shapefile, before deduplication. */
  function DepEntries(gdf: seq<RawGeoRow>): seq<DepEntry>
  {
    Map(EntryOf, NormalizeGeo(gdf))
  }

  // ---------------------------------------------------------------------------
  // The department map: drop_duplicates(subset="__UBIGEO__") (line 46)

  predicate HasCode(s: seq<DepEntry>, c: string)
  {
    exists i :: 0 <= i < |s| && s[i].code == c
  }

  predicate UniqueCodes(s: seq<DepEntry>)
  {
    forall i, j :: 0 <= i < j < |s| ==> s[i].code != s[j].code
  }

  /** `e` is the first entry of `s` carrying its code. */
  predicate IsFirstOccurrence(s: seq<DepEntry>, e: DepEntry)
  {
    exists i :: 0 <= i < |s| && s[i] == e && forall j :: 0 <= j < i ==> s[j].code != e.code
  }

  /**
   * The department of the first entry of `s` with code `c`, or missing when
   * no entry has that code.
   */
  function DepFor(s: seq<DepEntry>, c: string): (d: Option<string>)
    ensures !HasCode(s, c) ==> d == None
    ensures forall i :: 0 <= i < |s| && s[i].code == c && (forall j :: 0 <= j < i ==> s[j].code != c) ==> d == s[i].dep
    decreases |s|
  {
    if s == [] then None
    else if s[0].code == c then s[0].dep
    else
      var d := DepFor(s[1..], c);
      assert HasCode(s[1..], c) ==> HasCode(s, c) by {
        if HasCode(s[1..], c) {
          var i :| 0 <= i < |s[1..]| && s[1..][i].code == c;
          assert s[i + 1].code == c;
        }
      }
      assert forall i :: 1 <= i < |s| ==> s[1..][i - 1] == s[i];
      d
  }

  /** Scans `s` front to back, keeping an entry only when its code has not been seen. */
  function DropDuplicatesFrom(s: seq<DepEntry>, seen: set<string>): (r: seq<DepEntry>)
    ensures UniqueCodes(r)
    ensures forall k :: 0 <= k < |r| ==> r[k].code !in seen
    ensures IsSubsequence(r, s)
    ensures forall c :: HasCode(r, c) <==> HasCode(s, c) && c !in seen
    ensures forall k :: 0 <= k < |r| ==> IsFirstOccurrence(s, r[k])
    decreases |s|
  {
    if s == [] then []
    else if s[0].code in seen then
      var r := DropDuplicatesFrom(s[1..], seen);
      ShiftFirstOccurrences(s, r, seen);
      HasCodeTail(s);
      r
    else
      var rest := DropDuplicatesFrom(s[1..], seen + {s[0].code});
      KeepHead(s, rest, seen);
      [s[0]] + rest
  }

  /** The step of `DropDuplicatesFrom` that keeps an unseen head in front of the deduplicated tail. */
  lemma KeepHead(s: seq<DepEntry>, rest: seq<DepEntry>, seen: set<string>)
    requires s != [] && s[0].code !in seen
    requires UniqueCodes(rest)
    requires forall k :: 0 <= k < |rest| ==> rest[k].code !in seen + {s[0].code}
    requires IsSubsequence(rest, s[1..])
    requires forall c :: HasCode(rest, c) <==> HasCode(s[1..], c) && c !in seen + {s[0].code}
    requires forall k :: 0 <= k < |rest| ==> IsFirstOccurrence(s[1..], rest[k])
    ensures UniqueCodes([s[0]] + rest)
    ensures forall k :: 0 <= k < |[s[0]] + rest| ==> ([s[0]] + rest)[k].code !in seen
    ensures IsSubsequence([s[0]] + rest, s)
    ensures forall c :: HasCode([s[0]] + rest, c) <==> HasCode(s, c) && c !in seen
    ensures forall k :: 0 <= k < |[s[0]] + rest| ==> IsFirstOccurrence(s, ([s[0]] + rest)[k])
  {
    var r := [s[0]] + rest;
    ShiftFirstOccurrences(s, rest, seen + {s[0].code});
    HasCodeTail(s);
    HasCodeTail(r);
    assert IsFirstOccurrence(s, s[0]);
    assert r[1..] == rest;
    assert forall k :: 1 <= k < |r| ==> r[k] == rest[k - 1];
  }

  /** A code occurs in `s` exactly when it is the head's or occurs in the tail. */
  lemma HasCodeTail(s: seq<DepEntry>)
    requires s != []
    ensures forall c :: HasCode(s, c) <==> s[0].code == c || HasCode(s[1..], c)
  {
    forall c ensures HasCode(s, c) <==> s[0].code == c || HasCode(s[1..], c) {
      if HasCode(s[1..], c) {
        var i :| 0 <= i < |s[1..]| && s[1..][i].code == c;
        assert s[i + 1].code == c;
      }
      if HasCode(s, c) && s[0].code != c {
        var i :| 0 <= i < |s| && s[i].code == c;
        assert s[1..][i - 1].code == c;
      }
    }
  }

  /** A first occurrence in the tail whose code differs from the head's is a first occurrence in the whole. */
  lemma ShiftFirstOccurrences(s: seq<DepEntry>, r: seq<DepEntry>, seen: set<string>)
    requires s != [] && s[0].code in seen
    requires forall k :: 0 <= k < |r| ==> r[k].code !in seen && IsFirstOccurrence(s[1..], r[k])
    ensures forall k :: 0 <= k < |r| ==> IsFirstOccurrence(s, r[k])
  {
    forall k | 0 <= k < |r| ensures IsFirstOccurrence(s, r[k]) {
      var i :| 0 <= i < |s[1..]| && s[1..][i] == r[k] && forall j :: 0 <= j < i ==> s[1..][j].code != r[k].code;
      assert s[i + 1] == r[k];
      forall j | 0 <= j < i + 1 ensures s[j].code != r[k].code {
        if j > 0 { assert s[j] == s[1..][j - 1]; }
      }
    }
  }

  /**
   * `drop_duplicates(subset="__UBIGEO__")`: keeps, in order, the first entry
   * for each code, so every code is kept exactly once.
   */
  function DropDuplicates(s: seq<DepEntry>): (r: seq<DepEntry>)
    ensures UniqueCodes(r)
    ensures IsSubsequence(r, s)
    ensures forall c :: HasCode(r, c) <==> HasCode(s, c)
    ensures forall k :: 0 <= k < |r| ==> IsFirstOccurrence(s, r[k])
  {
    DropDuplicatesFrom(s, {})
  }

  /** Looking a code up in the scan from `seen` finds what the first entry of `s` says, for unseen codes. */
  lemma {:induction false} DropDuplicatesFromLookup(s: seq<DepEntry>, seen: set<string>, c: string)
    ensures DepFor(DropDuplicatesFrom(s, seen), c) == if c in seen then None else DepFor(s, c)
    decreases |s|
  {
    if s != [] {
      if s[0].code in seen {
        DropDuplicatesFromLookup(s[1..], seen, c);
      } else {
        DropDuplicatesFromLookup(s[1..], seen + {s[0].code}, c);
      }
    }
  }

  /** Deduplication does not change the department any code maps to: the first entry wins. */
  lemma DropDuplicatesKeepsFirst(s: seq<DepEntry>, c: string)
    ensures DepFor(DropDuplicates(s), c) == DepFor(s, c)
  {
    DropDuplicatesFromLookup(s, {}, c);
  }

  // ---------------------------------------------------------------------------
  // df.merge(map_dep, on="__UBIGEO__", how="left") (line 49)

  function WithDep(l: StatsRow, dep: Option<string>): Row
  {
    Row(l.code, l.name, l.band, l.metrics, dep)
  }

  function Base(r: Row): StatsRow
  {
    StatsRow(r.code, r.name, r.band, r.metrics)
  }

  function EntryCodeIs(c: string): DepEntry -> bool
  {
    (e: DepEntry) => e.code == c
  }

  /** The entries of `right` whose code is `c`, in order. */
  function EntriesWithCode(right: seq<DepEntry>, c: string): seq<DepEntry>
  {
    Filter(right, EntryCodeIs(c))
  }

  function JoinTo(l: StatsRow): DepEntry -> Row
  {
    (e: DepEntry) => WithDep(l, e.dep)
  }

  /** The rows a left join makes of one left row: one per matching entry, or one with no department. */
  function JoinOne(l: StatsRow, right: seq<DepEntry>): (r: seq<Row>)
    ensures |r| >= 1
    ensures forall k :: 0 <= k < |r| ==> Base(r[k]) == l
  {
    var ms := EntriesWithCode(right, l.code);
    if ms == [] then [WithDep(l, None)] else Map(JoinTo(l), ms)
  }

  /**
   * A pandas left merge: every left row, in order, extended by each matching
   * right entry in turn, or by a missing department when nothing matches.
   */
  function LeftJoin(left: seq<StatsRow>, right: seq<DepEntry>): (r: seq<Row>)
    ensures |r| >= |left|
    ensures forall k :: 0 <= k < |r| ==> exists i :: 0 <= i < |left| && Base(r[k]) == left[i]
    decreases |left|
  {
    if left == [] then []
    else
      var one, rest := JoinOne(left[0], right), LeftJoin(left[1..], right);
      LeftJoinStep(left, one, rest);
      one + rest
  }

  /** The rows of the first left row followed by those of the others each extend some left row. */
  lemma LeftJoinStep(left: seq<StatsRow>, one: seq<Row>, rest: seq<Row>)
    requires left != []
    requires forall k :: 0 <= k < |one| ==> Base(one[k]) == left[0]
    requires forall k :: 0 <= k < |rest| ==> exists i :: 0 <= i < |left[1..]| && Base(rest[k]) == left[1..][i]
    ensures forall k :: 0 <= k < |one + rest| ==> exists i :: 0 <= i < |left| && Base((one + rest)[k]) == left[i]
  {
    var r := one + rest;
    forall k | 0 <= k < |r| ensures exists i :: 0 <= i < |left| && Base(r[k]) == left[i] {
      if k < |one| {
        assert Base(r[k]) == left[0];
      } else {
        assert r[k] == rest[k - |one|];
        var i :| 0 <= i < |left[1..]| && Base(rest[k - |one|]) == left[1..][i];
        assert left[1..][i] == left[i + 1];
      }
    }
  }

  /** With unique codes, at most the one entry found by `DepFor` matches. */
  lemma {:induction false} UniqueMatches(right: seq<DepEntry>, c: string)
    requires UniqueCodes(right)
    ensures EntriesWithCode(right, c) == if HasCode(right, c) then [DepEntry(c, DepFor(right, c))] else []
    decreases |right|
  {
    if right != [] {
      HasCodeTail(right);
      UniqueMatches(right[1..], c);
      if right[0].code == c {
        forall i | 0 <= i < |right[1..]| ensures right[1..][i].code != c {
          assert right[1..][i] == right[i + 1];
        }
      }
    }
  }

  /** Extends a statistics row by the department `DepFor` finds for its code. */
  function WithDepOf(right: seq<DepEntry>): StatsRow -> Row
  {
    (l: StatsRow) => WithDep(l, DepFor(right, l.code))
  }

  /** With unique codes a left row yields exactly one row, carrying the department `DepFor` finds. */
  lemma JoinOneUnique(l: StatsRow, right: seq<DepEntry>)
    requires UniqueCodes(right)
    ensures JoinOne(l, right) == [WithDep(l, DepFor(right, l.code))]
  {
    UniqueMatches(right, l.code);
  }

  /**
   * Because the department map has unique codes, the left join keeps every
   * statistics row, in order and once, with the department of its code or
   * none.
   */
  lemma {:induction false} LeftJoinUniqueKeys(left: seq<StatsRow>, right: seq<DepEntry>)
    requires UniqueCodes(right)
    ensures LeftJoin(left, right) == Map(WithDepOf(right), left)
    ensures |LeftJoin(left, right)| == |left|
    ensures forall i :: 0 <= i < |left| ==> LeftJoin(left, right)[i] == WithDep(left[i], DepFor(right, left[i].code))
    decreases |left|
  {
    if left != [] {
      LeftJoinUniqueKeys(left[1..], right);
      JoinOneUnique(left[0], right);
      assert Map(WithDepOf(right), left) == [WithDepOf(right)(left[0])] + Map(WithDepOf(right), left[1..]);
    }
  }


  // ---------------------------------------------------------------------------
  // Selector options: sorted(col.dropna().unique().tolist()) (lines 52-53)

  /** `dropna()`: the present values, in order. */
  function Present(vs: seq<Option<string>>): (r: seq<string>)
    ensures forall x :: x in r <==> Some(x) in vs
    decreases |vs|
  {
    if vs == [] then []
    else
      assert vs == [vs[0]] + vs[1..];
      (if vs[0].Some? then [vs[0].value] else []) + Present(vs[1..])
  }

  /** A selector's options: the distinct present values of a column, sorted. */
  function OptionList(vs: seq<Option<string>>): (r: seq<string>)
    ensures StrictlyIncreasing(r)
    ensures forall x :: x in r <==> Some(x) in vs
  {
    SortedDistinct(Present(vs))
  }

  function BandOf(r: Row): Option<string> { r.band }

  function DepOf(r: Row): Option<string> { r.dep }

  // ---------------------------------------------------------------------------
  // load_data (lines 19-55)

  /** The present values of the band and department columns are those of the rows. */
  lemma ColumnValues(df: seq<Row>)
    ensures forall b :: Some(b) in Map(BandOf, df) <==> exists i :: 0 <= i < |df| && df[i].band == Some(b)
    ensures forall d :: Some(d) in Map(DepOf, df) <==> exists i :: 0 <= i < |df| && df[i].dep == Some(d)
  {
    var bandCol, depCol := Map(BandOf, df), Map(DepOf, df);
    forall b ensures Some(b) in bandCol <==> exists i :: 0 <= i < |df| && df[i].band == Some(b) {
      if Some(b) in bandCol {
        var i :| 0 <= i < |bandCol| && bandCol[i] == Some(b);
        assert df[i].band == Some(b);
      }
    }
    forall d ensures Some(d) in depCol <==> exists i :: 0 <= i < |df| && df[i].dep == Some(d) {
      if Some(d) in depCol {
        var i :| 0 <= i < |depCol| && depCol[i] == Some(d);
        assert df[i].dep == Some(d);
      }
    }
  }

  /** The table `load_data` builds: the normalised CSV left-joined with the deduplicated department map. */
  function JoinedTable(csv: seq<RawStatsRow>, shape: seq<RawGeoRow>): seq<Row>
  {
    LeftJoin(Map(NormalizeStatsRow, csv), DropDuplicates(DepEntries(shape)))
  }

  /** One CSV row as `load_data` leaves it: code padded, name normalised, department of the first shapefile record with its code. */
  function LoadRow(shape: seq<RawGeoRow>): RawStatsRow -> Row
  {
    (raw: RawStatsRow) => Row(NormalizeCode(raw.ubigeo), QuitarTildes(raw.nombre), raw.band, raw.metrics,
                              DepFor(DepEntries(shape), NormalizeCode(raw.ubigeo)))
  }

  /** The joined table: one row per CSV row, normalised, with the first shapefile department of its code. */
  lemma JoinedRows(csv: seq<RawStatsRow>, shape: seq<RawGeoRow>)
    ensures var df := JoinedTable(csv, shape);
      |df| == |csv| &&
      forall i :: 0 <= i < |csv| ==>
        df[i] == Row(NormalizeCode(csv[i].ubigeo), QuitarTildes(csv[i].nombre), csv[i].band, csv[i].metrics,
                     DepFor(DepEntries(shape), NormalizeCode(csv[i].ubigeo)))
    ensures JoinedTable(csv, shape) == Map(LoadRow(shape), csv)
  {
    var df0 := Map(NormalizeStatsRow, csv);
    var mapDep := DropDuplicates(DepEntries(shape));
    LeftJoinUniqueKeys(df0, mapDep);
    forall i | 0 <= i < |csv|
      ensures DepFor(mapDep, df0[i].code) == DepFor(DepEntries(shape), df0[i].code)
    {
      DropDuplicatesKeepsFirst(DepEntries(shape), df0[i].code);
    }
  }

  /**
   * `load_data` on the contents of the two files: raises when a file is
   * missing (the CSV is checked first); otherwise every CSV row, in order,
   * with its code padded, its name normalised and the department of the
   * first shapefile record with that code; the shapefile as read; and the
   * sorted distinct bands and departments of the joined table.
   */
  method LoadData(files: Files, csv: seq<RawStatsRow>, shape: seq<RawGeoRow>) returns (r: Result<Loaded, LoadError>)
    ensures !files.csvExists ==> r == Err(MissingCsv)
    ensures files.csvExists && !files.shapeExists ==> r == Err(MissingShape)
    ensures files.csvExists && files.shapeExists ==> r.Ok?
    ensures r.Ok? ==> r.value.df == JoinedTable(csv, shape) && |r.value.df| == |csv| && r.value.gdf == shape
    ensures r.Ok? ==> forall i :: 0 <= i < |csv| ==>
      r.value.df[i] == Row(NormalizeCode(csv[i].ubigeo), QuitarTildes(csv[i].nombre), csv[i].band, csv[i].metrics,
                           DepFor(DepEntries(shape), NormalizeCode(csv[i].ubigeo)))
    ensures r.Ok? ==> StrictlyIncreasing(r.value.bands) && StrictlyIncreasing(r.value.deps)
    ensures r.Ok? ==> forall b :: b in r.value.bands <==> exists i :: 0 <= i < |r.value.df| && r.value.df[i].band == Some(b)
    ensures r.Ok? ==> forall d :: d in r.value.deps <==> exists i :: 0 <= i < |r.value.df| && r.value.df[i].dep == Some(d)
  {
    if !files.csvExists {
      return Err(MissingCsv);
    }
    if !files.shapeExists {
      return Err(MissingShape);
    }
    var df0 := Map(NormalizeStatsRow, csv);
    var mapDep := DropDuplicates(DepEntries(shape));
    var df := LeftJoin(df0, mapDep);
    JoinedRows(csv, shape);
    var bands := OptionList(Map(BandOf, df));
    var deps := OptionList(Map(DepOf, df));
    ColumnValues(df);
    r := Ok(Loaded(df, shape, bands, deps));
  }

  // ---------------------------------------------------------------------------
  // filter_df (lines 57-76)

  function BandIs(b: string): Row -> bool
  {
    (row: Row) => row.band == Some(b)
  }

  function DepIs(d: Option<string>): Row -> bool
  {
    (row: Row) => row.dep == d
  }

  /** `dep_sel and dep_sel != "TODOS"`: None, the empty string and the sentinel mean every department. */
  predicate DepFilterActive(depSel: Option<string>)
    ensures DepFilterActive(depSel) ==> depSel.Some?
    ensures depSel == None || depSel == Some("") || depSel == Some(AllDepartments) ==> !DepFilterActive(depSel)
  {
    depSel.Some? && depSel.value != "" && depSel.value != AllDepartments
  }

  /** The rows `filter_df` is meant to keep. */
  predicate Selected(row: Row, bandSel: string, depSel: Option<string>)
  {
    row.band == Some(bandSel) && (DepFilterActive(depSel) ==> row.dep == depSel)
  }

  function RowCodeIs(c: string): Row -> bool
  {
    (row: Row) => row.code == c
  }

  /** The statistics rows whose code is `c`, in order. */
  function RowsWithCode(right: seq<Row>, c: string): seq<Row>
  {
    Filter(right, RowCodeIs(c))
  }

  /** A map row: the geometry record's columns and the statistics row's metrics. */
  function Attach(g: GeoRow, row: Row): MapRow
  {
    MapRow(g.code, g.dep, g.geometry, row.metrics)
  }

  function AttachTo(g: GeoRow): Row -> MapRow
  {
    (row: Row) => Attach(g, row)
  }

  /** The map rows one geometry record yields: one per statistics row with its code. */
  function JoinGeo(g: GeoRow, right: seq<Row>): (r: seq<MapRow>)
    ensures forall k :: 0 <= k < |r| ==> exists j :: 0 <= j < |right| && g.code == right[j].code && r[k] == Attach(g, right[j])
    ensures forall j :: 0 <= j < |right| && g.code == right[j].code ==> Attach(g, right[j]) in r
  {
    var ms := RowsWithCode(right, g.code);
    FilterCounts(right, RowCodeIs(g.code));
    var r := Map(AttachTo(g), ms);
    forall k | 0 <= k < |r| ensures exists j :: 0 <= j < |right| && g.code == right[j].code && r[k] == Attach(g, right[j]) {
      assert ms[k] in multiset(ms);
      assert ms[k] in multiset(right);
      var j :| 0 <= j < |right| && right[j] == ms[k];
      assert r[k] == Attach(g, right[j]);
    }
    forall j | 0 <= j < |right| && g.code == right[j].code ensures Attach(g, right[j]) in r {
      assert right[j] in multiset(right);
      assert right[j] in multiset(ms);
      var k :| 0 <= k < |ms| && ms[k] == right[j];
      assert r[k] == Attach(g, right[j]);
    }
    r
  }

  /** `m` is the row an inner join yields for some geometry record and statistics row with equal codes. */
  predicate FromMatchingPair(left: seq<GeoRow>, right: seq<Row>, m: MapRow)
  {
    exists i, j :: 0 <= i < |left| && 0 <= j < |right| && left[i].code == right[j].code && m == Attach(left[i], right[j])
  }

  /** A row from a matching pair of a prefix of the geometry records comes from a matching pair of all of them. */
  lemma FromMatchingPairPrefix(front: seq<GeoRow>, left: seq<GeoRow>, right: seq<Row>, m: MapRow)
    requires |front| <= |left| && front == left[..|front|] && FromMatchingPair(front, right, m)
    ensures FromMatchingPair(left, right, m)
  {
    var i, j :| 0 <= i < |front| && 0 <= j < |right| && front[i].code == right[j].code && m == Attach(front[i], right[j]);
    assert left[i] == front[i];
  }

  /**
   * `gdf.merge(df_band, on="__UBIGEO__", how="inner")`: for each geometry
   * record in order, one row per statistics row with the same code.  Every
   * row comes from a matching pair, and every matching pair yields a row.
   */
  function InnerJoin(left: seq<GeoRow>, right: seq<Row>): (r: seq<MapRow>)
    ensures forall k :: 0 <= k < |r| ==> FromMatchingPair(left, right, r[k])
    ensures forall i, j :: 0 <= i < |left| && 0 <= j < |right| && left[i].code == right[j].code ==> Attach(left[i], right[j]) in r
    ensures right == [] ==> r == []
    decreases |left|
  {
    if left == [] then []
    else
      var n := |left| - 1;
      var front, g := left[..n], left[n];
      var rest, here := InnerJoin(front, right), JoinGeo(g, right);
      JoinStepSound(left, right, rest, here);
      JoinStepComplete(left, right, rest, here);
      rest + here
  }

  /** Appending the rows of the last geometry record keeps every row from a matching pair. */
  lemma JoinStepSound(left: seq<GeoRow>, right: seq<Row>, rest: seq<MapRow>, here: seq<MapRow>)
    requires left != [] && here == JoinGeo(left[|left| - 1], right)
    requires forall k :: 0 <= k < |rest| ==> FromMatchingPair(left[..|left| - 1], right, rest[k])
    ensures forall k :: 0 <= k < |rest + here| ==> FromMatchingPair(left, right, (rest + here)[k])
  {
    var n := |left| - 1;
    var r := rest + here;
    forall k | 0 <= k < |r|
      ensures FromMatchingPair(left, right, r[k])
    {
      if k < |rest| {
        assert r[k] == rest[k];
        FromMatchingPairPrefix(left[..n], left, right, r[k]);
      } else {
        assert r[k] == here[k - |rest|];
        var j :| 0 <= j < |right| && left[n].code == right[j].code && here[k - |rest|] == Attach(left[n], right[j]);
        assert 0 <= n < |left| && left[n].code == right[j].code && r[k] == Attach(left[n], right[j]);
      }
    }
  }

  /** Appending the rows of the last geometry record keeps every matching pair represented. */
  lemma JoinStepComplete(left: seq<GeoRow>, right: seq<Row>, rest: seq<MapRow>, here: seq<MapRow>)
    requires left != [] && here == JoinGeo(left[|left| - 1], right)
    requires var front := left[..|left| - 1];
      forall i, j :: 0 <= i < |front| && 0 <= j < |right| && front[i].code == right[j].code ==> Attach(front[i], right[j]) in rest
    ensures forall i, j :: 0 <= i < |left| && 0 <= j < |right| && left[i].code == right[j].code ==> Attach(left[i], right[j]) in rest + here
  {
    var n := |left| - 1;
    forall i, j | 0 <= i < |left| && 0 <= j < |right| && left[i].code == right[j].code
      ensures Attach(left[i], right[j]) in rest + here
    {
      if i < n {
        assert left[..n][i] == left[i];
      }
    }
  }

  /** The (geometry index, statistics index) pairs with equal codes. */
  function MatchingPairs(left: seq<GeoRow>, right: seq<Row>): set<(int, int)>
  {
    set i, j | 0 <= i < |left| && 0 <= j < |right| && left[i].code == right[j].code :: (i, j)
  }

  /** The pairs matching one geometry record, placed at index `n`. */
  function ColumnPairs(n: int, right: seq<Row>, c: string): set<(int, int)>
  {
    set j | 0 <= j < |right| && right[j].code == c :: (n, j)
  }

  lemma ColumnPairsSplit(n: int, front: seq<Row>, y: Row, c: string)
    ensures ColumnPairs(n, front + [y], c) == ColumnPairs(n, front, c) + (if y.code == c then {(n, |front|)} else {})
  {
    var right := front + [y];
    forall q | q in ColumnPairs(n, right, c)
      ensures q in ColumnPairs(n, front, c) || (y.code == c && q == (n, |front|))
    {
      var j :| 0 <= j < |right| && right[j].code == c && q == (n, j);
      if j < |front| { assert front[j] == right[j]; }
    }
    forall q | q in ColumnPairs(n, front, c) ensures q in ColumnPairs(n, right, c) {
      var j :| 0 <= j < |front| && front[j].code == c && q == (n, j);
      assert right[j] == front[j];
    }
    if y.code == c {
      assert right[|front|] == y;
    }
  }

  lemma {:induction false} ColumnPairsCount(n: int, right: seq<Row>, c: string)
    ensures |ColumnPairs(n, right, c)| == |RowsWithCode(right, c)|
    decreases |right|
  {
    if right != [] {
      var front, y := right[..|right| - 1], right[|right| - 1];
      assert right == front + [y];
      ColumnPairsCount(n, front, c);
      FilterAppend(front, y, RowCodeIs(c));
      var extra: set<(int, int)> := if y.code == c then {(n, |front|)} else {};
      var before := ColumnPairs(n, front, c);
      ColumnPairsSplit(n, front, y, c);
      assert (n, |front|) !in before;
      assert before * extra == {};
      assert |before + extra| == |before| + |extra|;
    }
  }

  /** Joining one more geometry record appends its rows. */
  lemma InnerJoinAppend(left: seq<GeoRow>, g: GeoRow, right: seq<Row>)
    ensures InnerJoin(left + [g], right) == InnerJoin(left, right) + JoinGeo(g, right)
  {
    var t := left + [g];
    assert t[..|t| - 1] == left && t[|t| - 1] == g;
  }


  lemma MatchingPairsSplit(front: seq<GeoRow>, g: GeoRow, right: seq<Row>)
    ensures MatchingPairs(front + [g], right) == MatchingPairs(front, right) + ColumnPairs(|front|, right, g.code)
  {
    var left := front + [g];
    forall q | q in MatchingPairs(left, right)
      ensures q in MatchingPairs(front, right) || q in ColumnPairs(|front|, right, g.code)
    {
      var i, j :| 0 <= i < |left| && 0 <= j < |right| && left[i].code == right[j].code && q == (i, j);
      if i < |front| { assert front[i] == left[i]; } else { assert left[i] == g; }
    }
    forall q | q in MatchingPairs(front, right) ensures q in MatchingPairs(left, right) {
      var i, j :| 0 <= i < |front| && 0 <= j < |right| && front[i].code == right[j].code && q == (i, j);
      assert left[i] == front[i];
    }
    forall q | q in ColumnPairs(|front|, right, g.code) ensures q in MatchingPairs(left, right) {
      var j :| 0 <= j < |right| && right[j].code == g.code && q == (|front|, j);
      assert left[|front|] == g;
    }
  }

  /** The map table has exactly one row per matching pair of geometry and statistics rows. */
  lemma {:induction false} InnerJoinCount(left: seq<GeoRow>, right: seq<Row>)
    ensures |InnerJoin(left, right)| == |MatchingPairs(left, right)|
    decreases |left|
  {
    if left != [] {
      var front, g := left[..|left| - 1], left[|left| - 1];
      assert left == front + [g];
      InnerJoinCount(front, right);
      InnerJoinAppend(front, g, right);
      ColumnPairsCount(|front|, right, g.code);
      MatchingPairsSplit(front, g, right);
      ColumnDisjoint(front, right, g.code);
    }
  }

  /** The pairs of a new last geometry record are disjoint from the earlier ones, so their counts add. */
  lemma ColumnDisjoint(front: seq<GeoRow>, right: seq<Row>, c: string)
    ensures |MatchingPairs(front, right) + ColumnPairs(|front|, right, c)|
      == |MatchingPairs(front, right)| + |ColumnPairs(|front|, right, c)|
  {
    var before, col := MatchingPairs(front, right), ColumnPairs(|front|, right, c);
    assert before * col == {} by {
      forall q | q in col ensures q !in before {
        assert q.0 == |front|;
      }
    }
  }

  /**
   * The `df_band` half of `filter_df`: the rows of the requested band,
   * further restricted to the requested department unless it is None, empty
   * or "TODOS"; kept in order, and none that qualifies dropped.
   */
  function SelectRows(df: seq<Row>, bandSel: string, depSel: Option<string>): (r: seq<Row>)
    ensures forall i :: 0 <= i < |r| ==> Selected(r[i], bandSel, depSel)
    ensures IsSubsequence(r, df)
    ensures forall x :: multiset(r)[x] == if Selected(x, bandSel, depSel) then multiset(df)[x] else 0
    ensures !DepFilterActive(depSel) ==> r == Filter(df, BandIs(bandSel))
    ensures depSel.Some? && depSel.value != "" && depSel.value != AllDepartments ==>
      forall i :: 0 <= i < |r| ==> r[i].dep == depSel
  {
    var dfBand := Filter(df, BandIs(bandSel));
    if DepFilterActive(depSel) then
      FilterThenFilter(df, BandIs(bandSel), DepIs(depSel));
      Filter(dfBand, DepIs(depSel))
    else
      FilterCounts(df, BandIs(bandSel));
      dfBand
  }

  /**
   * `filter_df`: the selected rows, and the map table pairing every
   * normalised shapefile record with every selected row of the same code;
   * a code missing from either side yields no map row.
   */
  function FilterDf(df: seq<Row>, gdf: seq<RawGeoRow>, bandSel: string, depSel: Option<string>): (r: (seq<Row>, seq<MapRow>))
    ensures forall i :: 0 <= i < |r.0| ==> Selected(r.0[i], bandSel, depSel)
    ensures IsSubsequence(r.0, df)
    ensures forall x :: multiset(r.0)[x] == if Selected(x, bandSel, depSel) then multiset(df)[x] else 0
    ensures !DepFilterActive(depSel) ==> r.0 == Filter(df, BandIs(bandSel))
    ensures r.0 == [] ==> r.1 == []
    ensures forall k :: 0 <= k < |r.1| ==> FromMatchingPair(NormalizeGeo(gdf), r.0, r.1[k])
    ensures var geo := NormalizeGeo(gdf);
      forall i, j :: 0 <= i < |geo| && 0 <= j < |r.0| && geo[i].code == r.0[j].code ==> Attach(geo[i], r.0[j]) in r.1
  {
    var dfBand := SelectRows(df, bandSel, depSel);
    (dfBand, InnerJoin(NormalizeGeo(gdf), dfBand))
  }

  /** A band that no row has gives two empty tables, not an error. */
  lemma UnknownBandIsEmpty(df: seq<Row>, gdf: seq<RawGeoRow>, bandSel: string, depSel: Option<string>)
    requires forall i :: 0 <= i < |df| ==> df[i].band != Some(bandSel)
    ensures FilterDf(df, gdf, bandSel, depSel).0 == [] && FilterDf(df, gdf, bandSel, depSel).1 == []
  {
    var r := FilterDf(df, gdf, bandSel, depSel);
    forall x ensures multiset(r.0)[x] == 0 {
      if Selected(x, bandSel, depSel) {
        assert x !in df;
      }
    }
    assert multiset(r.0) == multiset{};
  }

  /** The "TODOS" entry selects the same rows as no department at all. */
  lemma AllDepartmentsIsNoFilter(df: seq<Row>, gdf: seq<RawGeoRow>, bandSel: string)
    ensures FilterDf(df, gdf, bandSel, Some(AllDepartments)) == FilterDf(df, gdf, bandSel, None)
    ensures FilterDf(df, gdf, bandSel, Some("")) == FilterDf(df, gdf, bandSel, None)
  {
  }

  // ---------------------------------------------------------------------------
  // Worked examples

  /**
   * Two shapefile records for district 010101, its code read once as an
   * integer and once as text, under two different departments: after
   * normalisation both carry the key "010101", and only the first record's
   * department is kept.
   */
  lemma DuplicateCodeScenario(g1: Geometry, g2: Geometry)
    ensures DropDuplicates(DepEntries([RawGeoRow(Num(10101), Some("Apurímac"), g1), RawGeoRow(Text("010101"), Some("Cusco"), g2)]))
      == [DepEntry("010101", Some("APURIMAC"))]
  {
    DuplicateEntries(g1, g2);
    FirstWins(DepEntry("010101", Some("APURIMAC")), DepEntry("010101", Some("CUSCO")));
  }

  /** Of two entries with the same code, deduplication keeps only the first. */
  lemma FirstWins(a: DepEntry, b: DepEntry)
    requires a.code == b.code
    ensures DropDuplicates([a, b]) == [a]
  {
    assert [a, b][1..] == [b];
    assert DropDuplicatesFrom([b], {a.code}) == [];
  }

  /** With two distinct codes, the lookup finds each entry's own department. */
  lemma DepForPair(a: DepEntry, b: DepEntry)
    requires a.code != b.code
    ensures DepFor([a, b], a.code) == a.dep && DepFor([a, b], b.code) == b.dep
  {
    assert [a, b][1..] == [b];
  }

  lemma DuplicateEntries(g1: Geometry, g2: Geometry)
    ensures DepEntries([RawGeoRow(Num(10101), Some("Apurímac"), g1), RawGeoRow(Text("010101"), Some("Cusco"), g2)])
      == [DepEntry("010101", Some("APURIMAC")), DepEntry("010101", Some("CUSCO"))]
  {
    ExampleCodes();
    ExampleNames();
    EntriesOfPair(RawGeoRow(Num(10101), Some("Apurímac"), g1), RawGeoRow(Text("010101"), Some("Cusco"), g2));
  }

  /** The department entries of a two-record shapefile. */
  lemma EntriesOfPair(r1: RawGeoRow, r2: RawGeoRow)
    ensures DepEntries([r1, r2]) == [EntryOf(NormalizeGeoRow(r1)), EntryOf(NormalizeGeoRow(r2))]
  {
    MapPair(NormalizeGeoRow, r1, r2);
    MapPair(EntryOf, NormalizeGeoRow(r1), NormalizeGeoRow(r2));
  }

  /** The statistics CSV of the CUSCO example as read: integer codes, names in lower case. */
  function ExampleCsv(m1: Metrics, m2: Metrics, m3: Metrics, m4: Metrics): seq<RawStatsRow>
  {
    [RawStatsRow(Num(10101), Some("á"), Some("1991-2020"), m1),
     RawStatsRow(Num(10101), Some("á"), Some("2024"), m2),
     RawStatsRow(Num(10102), Some("b"), Some("1991-2020"), m3),
     RawStatsRow(Num(10102), Some("b"), Some("2024"), m4)]
  }

  /** The shapefile of the CUSCO example as read: text codes, departments in mixed case with accents. */
  function ExampleShape(g1: Geometry, g2: Geometry): seq<RawGeoRow>
  {
    [RawGeoRow(Text("010101"), Some("Apurímac"), g1), RawGeoRow(Text("010102"), Some("Cusco"), g2)]
  }

  /** The joined table of the CUSCO example: districts 010101 (APURIMAC) and 010102 (CUSCO) over two bands. */
  function ExampleRows(m1: Metrics, m2: Metrics, m3: Metrics, m4: Metrics): seq<Row>
  {
    [Row("010101", Some("A"), Some("1991-2020"), m1, Some("APURIMAC")),
     Row("010101", Some("A"), Some("2024"), m2, Some("APURIMAC")),
     Row("010102", Some("B"), Some("1991-2020"), m3, Some("CUSCO")),
     Row("010102", Some("B"), Some("2024"), m4, Some("CUSCO"))]
  }

  /** The normalised example shapefile. */
  lemma ExampleGeometry(g1: Geometry, g2: Geometry)
    ensures NormalizeGeo(ExampleShape(g1, g2)) == [GeoRow("010101", Some("APURIMAC"), g1), GeoRow("010102", Some("CUSCO"), g2)]
  {
    ExampleCodes();
    ExampleNames();
    MapPair(NormalizeGeoRow, RawGeoRow(Text("010101"), Some("Apurímac"), g1), RawGeoRow(Text("010102"), Some("Cusco"), g2));
  }

  /** The department lookups of the example shapefile. */
  lemma ExampleDepartments(g1: Geometry, g2: Geometry)
    ensures DepFor(DepEntries(ExampleShape(g1, g2)), "010101") == Some("APURIMAC")
    ensures DepFor(DepEntries(ExampleShape(g1, g2)), "010102") == Some("CUSCO")
  {
    ExampleNames();
    EntriesOfPair(RawGeoRow(Text("010101"), Some("Apurímac"), g1), RawGeoRow(Text("010102"), Some("Cusco"), g2));
    DepForPair(DepEntry("010101", Some("APURIMAC")), DepEntry("010102", Some("CUSCO")));
  }

  /** A CSV row loads as the row of its key, normalised name and looked-up department. */
  lemma LoadedRow(shape: seq<RawGeoRow>, code: RawCode, key: string, name: string, upper: string, band: string, m: Metrics)
    requires NormalizeCode(code) == key && QuitarTildes(Some(name)) == Some(upper)
    ensures LoadRow(shape)(RawStatsRow(code, Some(name), Some(band), m)) == Row(key, Some(upper), Some(band), m, DepFor(DepEntries(shape), key))
  {
  }

  /** Loading the example CSV and shapefile gives `ExampleRows`: padded codes, upper-case names, joined departments. */
  lemma ExampleLoad(m1: Metrics, m2: Metrics, m3: Metrics, m4: Metrics, g1: Geometry, g2: Geometry)
    ensures JoinedTable(ExampleCsv(m1, m2, m3, m4), ExampleShape(g1, g2)) == ExampleRows(m1, m2, m3, m4)
  {
    var csv, shape := ExampleCsv(m1, m2, m3, m4), ExampleShape(g1, g2);
    JoinedRows(csv, shape);
    MapQuad(LoadRow(shape), csv[0], csv[1], csv[2], csv[3]);
    Code10101();
    Code10102();
    LetterNames();
    ExampleDepartments(g1, g2);
    LoadedRow(shape, Num(10101), "010101", "á", "A", "1991-2020", m1);
    LoadedRow(shape, Num(10101), "010101", "á", "A", "2024", m2);
    LoadedRow(shape, Num(10102), "010102", "b", "B", "1991-2020", m3);
    LoadedRow(shape, Num(10102), "010102", "b", "B", "2024", m4);
  }

  lemma ExampleSelection(m1: Metrics, m2: Metrics, m3: Metrics, m4: Metrics)
    ensures SelectRows(ExampleRows(m1, m2, m3, m4), "2024", Some("CUSCO")) == [ExampleRows(m1, m2, m3, m4)[3]]
  {
    var df := ExampleRows(m1, m2, m3, m4);
    ExampleBandFilter(m1, m2, m3, m4);
    ExampleDepartmentFilter(df[1], df[3]);
  }

  /** Band "2024" keeps the second and fourth rows of the example. */
  lemma ExampleBandFilter(m1: Metrics, m2: Metrics, m3: Metrics, m4: Metrics)
    ensures var df := ExampleRows(m1, m2, m3, m4); Filter(df, BandIs("2024")) == [df[1], df[3]]
  {
    var df := ExampleRows(m1, m2, m3, m4);
    var r1, r2, r3, r4 := df[0], df[1], df[2], df[3];
    var inBand := BandIs("2024");
    assert df == [r1, r2, r3, r4];
    assert [r4][1..] == [] && [r3, r4][1..] == [r4] && [r2, r3, r4][1..] == [r3, r4] && [r1, r2, r3, r4][1..] == [r2, r3, r4];
    assert Filter([r4], inBand) == [r4];
    assert Filter([r3, r4], inBand) == [r4];
    assert Filter([r2, r3, r4], inBand) == [r2, r4];
  }

  /** Department "CUSCO" keeps only the second of an APURIMAC row and a CUSCO row. */
  lemma ExampleDepartmentFilter(a: Row, c: Row)
    requires a.dep == Some("APURIMAC") && c.dep == Some("CUSCO")
    ensures Filter([a, c], DepIs(Some("CUSCO"))) == [c]
  {
    assert [a, c][1..] == [c] && [c][1..] == [];
  }

  lemma ExampleMap(g1: Geometry, g2: Geometry, r4: Row)
    requires r4.code == "010102"
    ensures InnerJoin([GeoRow("010101", Some("APURIMAC"), g1), GeoRow("010102", Some("CUSCO"), g2)], [r4])
      == [MapRow("010102", Some("CUSCO"), g2, r4.metrics)]
  {
    var geo1, geo2 := GeoRow("010101", Some("APURIMAC"), g1), GeoRow("010102", Some("CUSCO"), g2);
    JoinOneRow(geo1, r4);
    JoinOneRow(geo2, r4);
    InnerJoinAppend([], geo1, [r4]);
    assert [] + [geo1] == [geo1] && [geo1] + [geo2] == [geo1, geo2];
    InnerJoinAppend([geo1], geo2, [r4]);
  }

  /** Joining a geometry record with a single statistics row. */
  lemma JoinOneRow(g: GeoRow, row: Row)
    ensures JoinGeo(g, [row]) == if g.code == row.code then [Attach(g, row)] else []
  {
    assert [row][1..] == [];
    assert Filter([row], RowCodeIs(g.code)) == if g.code == row.code then [row] else [];
  }

  /**
   * Two districts over two bands, the first in APURIMAC and the second in
   * CUSCO, loaded from the raw CSV and shapefile: band "2024" and department
   * "CUSCO" select exactly the row of district 010102 for 2024, and the map
   * shows only that district.
   */
  lemma CuscoScenario(m1: Metrics, m2: Metrics, m3: Metrics, m4: Metrics, g1: Geometry, g2: Geometry)
    ensures FilterDf(JoinedTable(ExampleCsv(m1, m2, m3, m4), ExampleShape(g1, g2)), ExampleShape(g1, g2), "2024", Some("CUSCO"))
      == ([Row("010102", Some("B"), Some("2024"), m4, Some("CUSCO"))], [MapRow("010102", Some("CUSCO"), g2, m4)])
  {
    ExampleLoad(m1, m2, m3, m4, g1, g2);
    ExampleSelection(m1, m2, m3, m4);
    ExampleGeometry(g1, g2);
    ExampleMap(g1, g2, ExampleRows(m1, m2, m3, m4)[3]);
  }
}
