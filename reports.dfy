/**
 * The report decoders that turn a fetched frame into a table: the day-ahead
 * hourly prices (get_dam_lmp, get_dam_spp), the real-time 15-minute
 * settlement point prices (load zones, hubs, resource nodes) and the SCED
 * reports (system lambda, shadow prices). Dates arrive as day numbers,
 * prices stay an opaque `V`, and `None` stands for a raised exception.
 */
module Reports {
  import opened Wrappers
  import opened Grid
  import opened Sorting
  import opened Decoders
  import opened Normalizer
  import Fetch

  // ------------------------------------------------------ day-ahead hourly

  /**
   * A row of a day-ahead hourly report: delivery day, hour-ending text such
   * as "13:00", bus or settlement point, price. The DST flag is dropped.
   */
  datatype DamRow<V> = DamRow(day: int, hourEnding: string, unit: string, price: V)

  /** `[int(x[:-3]) for x in column]`; `None` when one of the texts does not parse. */
  function HourEndings<V>(raw: seq<DamRow<V>>): (r: Option<seq<nat>>)
    ensures r.Some? <==> forall i | 0 <= i < |raw| :: ParseHourEnding(raw[i].hourEnding).Some?
    ensures r.Some? ==> |r.value| == |raw|
    ensures r.Some? ==> forall i | 0 <= i < |raw| :: ParseHourEnding(raw[i].hourEnding) == Some(r.value[i])
  {
    if raw == [] then Some([])
    else
      var rest := HourEndings(raw[1..]);
      assert forall i | 1 <= i < |raw| :: raw[1..][i - 1] == raw[i];
      match ParseHourEnding(raw[0].hourEnding)
      case None => None
      case Some(h) => if rest.None? then None else Some([h] + rest.value)
  }

  /** The records handed to the normalizer: each price at (day, hour, minute 0). */
  function DamRecords<V>(raw: seq<DamRow<V>>, hours: seq<int>): seq<Record<string, V>>
    requires |hours| == |raw|
  {
    seq(|raw|, i requires 0 <= i < |raw| => Record(raw[i].unit, Key(raw[i].day, hours[i], 0), raw[i].price))
  }

  /** `int(x[:-3])` succeeds on every hour-ending of the frame. */
  predicate HourEndingsParse<V>(raw: seq<DamRow<V>>)
  {
    forall i | 0 <= i < |raw| :: ParseHourEnding(raw[i].hourEnding).Some?
  }

  /** The hour each row lands on: its hour-ending, shifted from 1-24 to 0-23. */
  function DamHours<V>(raw: seq<DamRow<V>>): (hours: seq<int>)
    requires HourEndingsParse(raw)
    ensures |hours| == |raw|
  {
    seq(|raw|, i requires 0 <= i < |raw| => ShiftHourEnding(ParseHourEnding(raw[i].hourEnding).value))
  }

  /**
   * The table a day-ahead hourly report returns for a fetched frame. An
   * empty frame has no column 4 to drop (KeyError), an hour-ending that is
   * not a number raises ValueError, a missing date raises in `strptime`.
   */
  function DamTable<V(==)>(raw: seq<DamRow<V>>, from: Option<int>, to: Option<int>): Option<Table<string, V>>
  {
    if raw == [] || !HourEndingsParse(raw) || from.None? || to.None? then None
    else Some(ExpectedTable(DamRecords(raw, DamHours(raw)), Hourly, from.value, to.value))
  }

  /** What a day-ahead table that exists is made of. */
  lemma DamTableUnfold<V>(raw: seq<DamRow<V>>, from: Option<int>, to: Option<int>, t: Table<string, V>)
    requires DamTable(raw, from, to) == Some(t)
    ensures HourEndingsParse(raw) && from.Some? && to.Some?
    ensures t == ExpectedTable(DamRecords(raw, DamHours(raw)), Hourly, from.value, to.value)
  {
  }

  /**
   * get_dam_lmp and get_dam_spp after the fetch: parse the hour-ending,
   * shift it with the replace loop, then normalize onto the hourly grid.
   */
  method DecodeDamHourly<V(==)>(raw: seq<DamRow<V>>, from: Option<int>, to: Option<int>)
    returns (r: Option<Table<string, V>>)
    ensures r == DamTable(raw, from, to)
  {
    if raw == [] {
      return None;
    }
    var parsed := HourEndings(raw);
    if parsed.None? {
      return None;
    }
    var hs := parsed.value;
    var col := new int[|hs|](i requires 0 <= i < |hs| => hs[i]);
    RemapHourEnding(col);
    if from.None? || to.None? {
      return None;
    }
    var hours := col[..];
    assert hours == DamHours(raw);
    var t := Normalize(DamRecords(raw, hours), Hourly, from.value, to.value);
    r := Some(t);
  }

  /** The raw row a DAM cell is read from: same unit and day, hour-ending naming the slot's hour. */
  predicate DamMatch<V>(row: DamRow<V>, u: string, k: Key)
  {
    && row.unit == u && row.day == k.day && k.minute == 0
    && ParseHourEnding(row.hourEnding).Some?
    && ShiftHourEnding(ParseHourEnding(row.hourEnding).value) == k.hour
  }

  /**
   * A day-ahead table has one row per (day, hour 0-23) of the date range,
   * in order, whatever rows arrived.
   */
  lemma DamTableIndex<V>(raw: seq<DamRow<V>>, from: Option<int>, to: Option<int>, t: Table<string, V>)
    requires DamTable(raw, from, to) == Some(t)
    ensures |t.index| == Days(from.value, to.value) * 24
    ensures Ascending(t.index)
    ensures forall k :: k in t.index <==> InGrid(Hourly, from.value, to.value, k)
  {
    DamTableUnfold(raw, from, to, t);
    assert |Minutes(Hourly)| == 1;
    TableIndex(DamRecords(raw, DamHours(raw)), Hourly, from.value, to.value);
  }


  /** The row is a price of unit `u`. */
  predicate DamOf<V>(row: DamRow<V>, u: string)
  {
    row.unit == u
  }

  /**
   * A day-ahead table has one full-length column per unit of the frame, each
   * unit once, and no column for a unit the frame lacks.
   */
  lemma DamTableColumns<V>(raw: seq<DamRow<V>>, from: Option<int>, to: Option<int>, t: Table<string, V>)
    requires DamTable(raw, from, to) == Some(t)
    ensures forall c | c in t.columns :: |c.cells| == |t.index|
    ensures forall i | 0 <= i < |raw| :: exists c | c in t.columns :: c.unit == raw[i].unit
    ensures forall j, l | 0 <= j < l < |t.columns| :: t.columns[j].unit != t.columns[l].unit
    ensures forall j | 0 <= j < |t.columns| :: exists i | 0 <= i < |raw| :: DamOf(raw[i], t.columns[j].unit)
  {
    DamTableUnfold(raw, from, to, t);
    var recs := DamRecords(raw, DamHours(raw));
    TableShape(recs, Hourly, from.value, to.value);
    forall i | 0 <= i < |raw| ensures exists c | c in t.columns :: c.unit == raw[i].unit {
      assert recs[i].unit == raw[i].unit;
    }
    forall j | 0 <= j < |t.columns| ensures exists i | 0 <= i < |raw| :: DamOf(raw[i], t.columns[j].unit) {
      DamColumnFirst(raw, from, to, t, j);
    }
  }

  /**
   * The columns of a day-ahead table come in the order their units first
   * appear: every row of a later column's unit comes after some row of an
   * earlier column's unit.
   */
  lemma DamColumnOrder<V>(raw: seq<DamRow<V>>, from: Option<int>, to: Option<int>, t: Table<string, V>)
    requires DamTable(raw, from, to) == Some(t)
    ensures forall j, l, m | 0 <= j < l < |t.columns| && 0 <= m < |raw| && DamOf(raw[m], t.columns[l].unit) ::
      exists p | 0 <= p < m :: DamOf(raw[p], t.columns[j].unit)
  {
    forall j, l, m | 0 <= j < l < |t.columns| && 0 <= m < |raw| && DamOf(raw[m], t.columns[l].unit)
      ensures exists p | 0 <= p < m :: DamOf(raw[p], t.columns[j].unit)
    {
      DamColumnFirst(raw, from, to, t, j);
    }
  }

  /**
   * Column `j` of a day-ahead table is headed by the unit of some row `p`,
   * and no row before `p` has it; later columns' units first appear later.
   */
  lemma DamColumnFirst<V>(raw: seq<DamRow<V>>, from: Option<int>, to: Option<int>, t: Table<string, V>, j: nat)
    requires DamTable(raw, from, to) == Some(t) && j < |t.columns|
    ensures exists p | 0 <= p < |raw| :: (DamOf(raw[p], t.columns[j].unit)
      && (forall l, m | j < l < |t.columns| && 0 <= m < |raw| && DamOf(raw[m], t.columns[l].unit) :: p < m))
  {
    DamTableUnfold(raw, from, to, t);
    var recs := DamRecords(raw, DamHours(raw));
    TableUnits(recs, Hourly, from.value, to.value);
    var us := Units(recs);
    UnitsInOrder(recs);
    var p := FirstIdx(recs, us[j]);
    forall l, m | j < l < |t.columns| && 0 <= m < |raw| && DamOf(raw[m], t.columns[l].unit) ensures p < m {
      assert recs[m].unit == us[l];
      assert FirstIdx(recs, us[l]) <= m;
    }
    assert recs[p].unit == raw[p].unit;
    assert DamOf(raw[p], t.columns[j].unit);
  }

  /** Row `m` of the frame is the first one for the unit and slot. */
  predicate DamFirst<V>(raw: seq<DamRow<V>>, u: string, k: Key, m: int)
  {
    0 <= m < |raw| && DamMatch(raw[m], u, k) && forall l | 0 <= l < m :: !DamMatch(raw[l], u, k)
  }

  /**
   * Each cell of a day-ahead table holds the price of the first row of the
   * frame with the column's unit, the slot's day, and an hour-ending that
   * shifts to the slot's hour; with no such row the cell is NaN.
   */
  lemma DamCell<V>(raw: seq<DamRow<V>>, from: Option<int>, to: Option<int>, t: Table<string, V>, j: nat, i: nat)
    requires DamTable(raw, from, to) == Some(t)
    requires j < |t.columns| && i < |t.index|
    ensures i < |t.columns[j].cells|
    ensures forall m | DamFirst(raw, t.columns[j].unit, t.index[i], m) :: t.columns[j].cells[i] == Some(raw[m].price)
    ensures (forall m | 0 <= m < |raw| :: !DamMatch(raw[m], t.columns[j].unit, t.index[i])) ==> t.columns[j].cells[i] == None
  {
    DamTableUnfold(raw, from, to, t);
    var recs := DamRecords(raw, DamHours(raw));
    var u := t.columns[j].unit;
    var k := t.index[i];
    TableCell(recs, Hourly, from.value, to.value, j, i);
    DamRecordsMatch(raw, u, k);
    forall m | DamFirst(raw, u, k, m) ensures t.columns[j].cells[i] == Some(raw[m].price) {
      FirstRecordWins(recs, u, k, m);
    }
    if forall m | 0 <= m < |raw| :: !DamMatch(raw[m], u, k) {
      MissingSlotIsNaN(recs, u, k);
    }
  }

  /** A decoded record is at a unit and slot exactly when its row matches them. */
  lemma DamRecordsMatch<V>(raw: seq<DamRow<V>>, u: string, k: Key)
    requires HourEndingsParse(raw)
    ensures forall m | 0 <= m < |raw| ::
      (DamRecords(raw, DamHours(raw))[m].unit == u && DamRecords(raw, DamHours(raw))[m].key == k) <==> DamMatch(raw[m], u, k)
  {
  }

  // --------------------------------------------------- real-time 15-minute

  /**
   * A row of the real-time settlement point price report: delivery day,
   * delivery hour (1-24), interval code (1-4), settlement point, its type
   * ("LZ", "HU", "RN", ...), price. The DST flag is dropped.
   */
  datatype RtmRow<V> = RtmRow(day: int, hourEnding: int, interval: int, unit: string, kind: string, price: V)

  const LoadZone: string := "LZ"
  const Hub: string := "HU"
  const ResourceNode: string := "RN"

  /** `raw_data.loc[raw_data[4] == kind]`: the rows of one settlement point type, in order. */
  function OfKind<V>(raw: seq<RtmRow<V>>, kind: string): (r: seq<RtmRow<V>>)
    ensures |r| <= |raw|
    ensures forall i | 0 <= i < |r| :: r[i].kind == kind
    ensures forall i | 0 <= i < |raw| && raw[i].kind == kind :: raw[i] in r
  {
    if raw == [] then []
    else (if raw[0].kind == kind then [raw[0]] else []) + OfKind(raw[1..], kind)
  }

  /** The record of one row: hour-ending moved to 0-23 and the interval code to its minute. */
  function RtmRecord<V>(row: RtmRow<V>): Record<string, V>
  {
    Record(row.unit, Key(row.day, ShiftHourEnding(row.hourEnding), IntervalMinutes(row.interval)), row.price)
  }

  function RtmRecords<V>(rows: seq<RtmRow<V>>): seq<Record<string, V>>
  {
    seq(|rows|, i requires 0 <= i < |rows| => RtmRecord(rows[i]))
  }

  /**
   * The table a real-time report returns for a fetched frame and a type.
   * An empty frame has no column 4 to filter on (KeyError); a missing date
   * raises in `strptime`.
   */
  function RtmTable<V(==)>(raw: seq<RtmRow<V>>, kind: string, from: Option<int>, to: Option<int>)
    : Option<Table<string, V>>
  {
    if raw == [] || from.None? || to.None? then None
    else Some(ExpectedTable(RtmRecords(OfKind(raw, kind)), QuarterHourly, from.value, to.value))
  }

  /** What a real-time table that exists is made of. */
  lemma RtmTableUnfold<V>(raw: seq<RtmRow<V>>, kind: string, from: Option<int>, to: Option<int>, t: Table<string, V>)
    requires RtmTable(raw, kind, from, to) == Some(t)
    ensures from.Some? && to.Some?
    ensures t == ExpectedTable(RtmRecords(OfKind(raw, kind)), QuarterHourly, from.value, to.value)
  {
  }

  /**
   * The shared body of get_rtm_spp_lz, get_rtm_spp_hub and get_rtm_spp_rn:
   * filter by type, remap hour-ending and interval columns with the replace
   * calls, then normalize onto the 15-minute grid.
   */
  method DecodeRtm<V(==)>(raw: seq<RtmRow<V>>, kind: string, from: Option<int>, to: Option<int>)
    returns (r: Option<Table<string, V>>)
    ensures r == RtmTable(raw, kind, from, to)
  {
    if raw == [] {
      return None;
    }
    var rows := OfKind(raw, kind);
    var he := new int[|rows|](i requires 0 <= i < |rows| => rows[i].hourEnding);
    var iv := new int[|rows|](i requires 0 <= i < |rows| => rows[i].interval);
    RemapHourEnding(he);
    RemapIntervals(iv);
    if from.None? || to.None? {
      return None;
    }
    var hours, minutes := he[..], iv[..];
    var recs := seq(|rows|, i requires 0 <= i < |rows| => Record(rows[i].unit, Key(rows[i].day, hours[i], minutes[i]), rows[i].price));
    assert forall i | 0 <= i < |rows| :: recs[i] == RtmRecord(rows[i]);
    assert recs == RtmRecords(rows);
    var t := Normalize(recs, QuarterHourly, from.value, to.value);
    r := Some(t);
  }

  method GetRtmSppLz<V(==)>(raw: seq<RtmRow<V>>, from: Option<int>, to: Option<int>) returns (r: Option<Table<string, V>>)
    ensures r == RtmTable(raw, LoadZone, from, to)
  {
    r := DecodeRtm(raw, LoadZone, from, to);
  }

  method GetRtmSppHub<V(==)>(raw: seq<RtmRow<V>>, from: Option<int>, to: Option<int>) returns (r: Option<Table<string, V>>)
    ensures r == RtmTable(raw, Hub, from, to)
  {
    r := DecodeRtm(raw, Hub, from, to);
  }

  method GetRtmSppRn<V(==)>(raw: seq<RtmRow<V>>, from: Option<int>, to: Option<int>) returns (r: Option<Table<string, V>>)
    ensures r == RtmTable(raw, ResourceNode, from, to)
  {
    r := DecodeRtm(raw, ResourceNode, from, to);
  }

  /** The raw row a 15-minute cell is read from. */
  predicate RtmMatch<V>(row: RtmRow<V>, kind: string, u: string, k: Key)
  {
    row.kind == kind && row.unit == u && RtmRecord(row).key == k
  }

  /** Filtering keeps the first matching row first. */
  lemma {:induction false} OfKindFirst<V>(raw: seq<RtmRow<V>>, kind: string, u: string, k: Key, m: nat)
    requires m < |raw| && RtmMatch(raw[m], kind, u, k)
    requires forall l | 0 <= l < m :: !RtmMatch(raw[l], kind, u, k)
    ensures FirstValue(RtmRecords(OfKind(raw, kind)), u, k) == Some(raw[m].price)
  {
    var recs := RtmRecords(OfKind(raw, kind));
    var rest := RtmRecords(OfKind(raw[1..], kind));
    if m == 0 {
      assert recs[0] == RtmRecord(raw[0]);
    } else {
      OfKindFirst(raw[1..], kind, u, k, m - 1);
      if raw[0].kind == kind {
        assert recs == [RtmRecord(raw[0])] + rest;
        assert recs[1..] == rest;
      } else {
        assert recs == rest;
      }
    }
  }

  /** With no matching row in the frame the filtered records have none either. */
  lemma {:induction false} OfKindMissing<V>(raw: seq<RtmRow<V>>, kind: string, u: string, k: Key)
    requires forall l | 0 <= l < |raw| :: !RtmMatch(raw[l], kind, u, k)
    ensures FirstValue(RtmRecords(OfKind(raw, kind)), u, k) == None
  {
    if raw != [] {
      var recs := RtmRecords(OfKind(raw, kind));
      var rest := RtmRecords(OfKind(raw[1..], kind));
      OfKindMissing(raw[1..], kind, u, k);
      if raw[0].kind == kind {
        assert recs == [RtmRecord(raw[0])] + rest;
        assert recs[1..] == rest;
      } else {
        assert recs == rest;
      }
    }
  }

  /**
   * Each cell of a real-time table holds the price of the first row of the
   * frame with the requested type, the column's unit and the cell's slot
   * (hour-ending shifted to 0-23, interval code turned into minutes), or NaN.
   */
  lemma RtmCell<V>(raw: seq<RtmRow<V>>, kind: string, from: Option<int>, to: Option<int>, t: Table<string, V>, j: nat, i: nat)
    requires RtmTable(raw, kind, from, to) == Some(t)
    requires j < |t.columns| && i < |t.index|
    ensures i < |t.columns[j].cells|
    ensures forall m | 0 <= m < |raw| && RtmMatch(raw[m], kind, t.columns[j].unit, t.index[i])
        && (forall l | 0 <= l < m :: !RtmMatch(raw[l], kind, t.columns[j].unit, t.index[i])) ::
      t.columns[j].cells[i] == Some(raw[m].price)
    ensures (forall m | 0 <= m < |raw| :: !RtmMatch(raw[m], kind, t.columns[j].unit, t.index[i])) ==>
      t.columns[j].cells[i] == None
  {
    RtmTableUnfold(raw, kind, from, to, t);
    var recs := RtmRecords(OfKind(raw, kind));
    var u := t.columns[j].unit;
    var k := t.index[i];
    TableCell(recs, QuarterHourly, from.value, to.value, j, i);
    forall m | 0 <= m < |raw| && RtmMatch(raw[m], kind, u, k) && (forall l | 0 <= l < m :: !RtmMatch(raw[l], kind, u, k))
      ensures t.columns[j].cells[i] == Some(raw[m].price)
    {
      OfKindFirst(raw, kind, u, k, m);
    }
    if forall m | 0 <= m < |raw| :: !RtmMatch(raw[m], kind, u, k) {
      OfKindMissing(raw, kind, u, k);
    }
  }

  /**
   * A real-time table has one row per (day, hour, quarter) of the date
   * range, in order, whatever rows arrived.
   */
  lemma RtmTableIndex<V>(raw: seq<RtmRow<V>>, kind: string, from: Option<int>, to: Option<int>, t: Table<string, V>)
    requires RtmTable(raw, kind, from, to) == Some(t)
    ensures |t.index| == Days(from.value, to.value) * 24 * 4
    ensures Ascending(t.index)
    ensures forall k :: k in t.index <==> InGrid(QuarterHourly, from.value, to.value, k)
  {
    RtmTableUnfold(raw, kind, from, to, t);
    assert |Minutes(QuarterHourly)| == 4;
    TableIndex(RtmRecords(OfKind(raw, kind)), QuarterHourly, from.value, to.value);
  }


  /**
   * A real-time table has one full-length column per settlement point of the
   * requested type, each once.
   */
  lemma RtmTableColumns<V>(raw: seq<RtmRow<V>>, kind: string, from: Option<int>, to: Option<int>, t: Table<string, V>)
    requires RtmTable(raw, kind, from, to) == Some(t)
    ensures forall c | c in t.columns :: |c.cells| == |t.index|
    ensures forall i | 0 <= i < |raw| && raw[i].kind == kind :: exists c | c in t.columns :: c.unit == raw[i].unit
    ensures forall j, l | 0 <= j < l < |t.columns| :: t.columns[j].unit != t.columns[l].unit
  {
    var rows := OfKind(raw, kind);
    var recs := RtmRecords(rows);
    RtmTableUnfold(raw, kind, from, to, t);
    TableShape(recs, QuarterHourly, from.value, to.value);
    forall i | 0 <= i < |raw| && raw[i].kind == kind ensures exists c | c in t.columns :: c.unit == raw[i].unit {
      var n :| 0 <= n < |rows| && rows[n] == raw[i];
      assert recs[n].unit == raw[i].unit;
    }
  }

  /**
   * The columns of a real-time table come in the order their points first
   * appear among the rows of the type: every filtered row of a later
   * column's point comes after some filtered row of an earlier column's.
   */
  lemma RtmColumnOrder<V>(raw: seq<RtmRow<V>>, kind: string, from: Option<int>, to: Option<int>, t: Table<string, V>)
    requires RtmTable(raw, kind, from, to) == Some(t)
    ensures forall j, l, m | 0 <= j < l < |t.columns| && 0 <= m < |OfKind(raw, kind)|
        && OfPoint(OfKind(raw, kind)[m], kind, t.columns[l].unit) ::
      exists p | 0 <= p < m :: OfPoint(OfKind(raw, kind)[p], kind, t.columns[j].unit)
  {
    var rows := OfKind(raw, kind);
    forall j, l, m | 0 <= j < l < |t.columns| && 0 <= m < |rows| && OfPoint(rows[m], kind, t.columns[l].unit)
      ensures exists p | 0 <= p < m :: OfPoint(rows[p], kind, t.columns[j].unit)
    {
      RtmColumnFirst(raw, kind, from, to, t, j);
    }
  }

  /**
   * Column `j` of a real-time table is headed by the point of some filtered
   * row `p`, and later columns' points first appear after `p`.
   */
  lemma RtmColumnFirst<V>(raw: seq<RtmRow<V>>, kind: string, from: Option<int>, to: Option<int>, t: Table<string, V>, j: nat)
    requires RtmTable(raw, kind, from, to) == Some(t) && j < |t.columns|
    ensures exists p | 0 <= p < |OfKind(raw, kind)| :: (OfPoint(OfKind(raw, kind)[p], kind, t.columns[j].unit)
      && (forall l, m | j < l < |t.columns| && 0 <= m < |OfKind(raw, kind)|
            && OfPoint(OfKind(raw, kind)[m], kind, t.columns[l].unit) :: p < m))
  {
    var rows := OfKind(raw, kind);
    var recs := RtmRecords(rows);
    RtmTableUnfold(raw, kind, from, to, t);
    TableUnits(recs, QuarterHourly, from.value, to.value);
    var us := Units(recs);
    UnitsInOrder(recs);
    var p := FirstIdx(recs, us[j]);
    forall l, m | j < l < |t.columns| && 0 <= m < |rows| && OfPoint(rows[m], kind, t.columns[l].unit) ensures p < m {
      assert recs[m].unit == us[l];
      assert FirstIdx(recs, us[l]) <= m;
    }
    assert recs[p].unit == rows[p].unit;
    assert OfPoint(rows[p], kind, t.columns[j].unit);
  }

  /** The row is a price of settlement point `u` of the given type. */
  predicate OfPoint<V>(row: RtmRow<V>, kind: string, u: string)
  {
    row.kind == kind && row.unit == u
  }

  /** No column of a real-time table belongs to a settlement point of another type. */
  lemma RtmColumnsOfKind<V>(raw: seq<RtmRow<V>>, kind: string, from: Option<int>, to: Option<int>, t: Table<string, V>)
    requires RtmTable(raw, kind, from, to) == Some(t)
    ensures forall j | 0 <= j < |t.columns| :: exists i | 0 <= i < |raw| :: OfPoint(raw[i], kind, t.columns[j].unit)
  {
    forall j | 0 <= j < |t.columns| ensures exists i | 0 <= i < |raw| :: OfPoint(raw[i], kind, t.columns[j].unit) {
      RtmColumnOfKind(raw, kind, from, to, t, j);
    }
  }

  lemma RtmColumnOfKind<V>(raw: seq<RtmRow<V>>, kind: string, from: Option<int>, to: Option<int>, t: Table<string, V>, j: nat)
    requires RtmTable(raw, kind, from, to) == Some(t) && j < |t.columns|
    ensures exists i | 0 <= i < |raw| :: OfPoint(raw[i], kind, t.columns[j].unit)
  {
    var rows := OfKind(raw, kind);
    var recs := RtmRecords(rows);
    var us := Units(recs);
    RtmTableUnfold(raw, kind, from, to, t);
    assert t.columns[j].unit == us[j];
    var n :| 0 <= n < |recs| && recs[n].unit == us[j];
    OfKindFrom(raw, kind, n);
    var i :| 0 <= i < |raw| && raw[i] == rows[n];
    assert OfPoint(raw[i], kind, t.columns[j].unit);
  }

  /** Every row the filter keeps is a row of the frame. */
  lemma {:induction false} OfKindFrom<V>(raw: seq<RtmRow<V>>, kind: string, n: nat)
    requires n < |OfKind(raw, kind)|
    ensures exists i | 0 <= i < |raw| :: raw[i] == OfKind(raw, kind)[n]
  {
    var rest := OfKind(raw[1..], kind);
    if raw[0].kind == kind && n == 0 {
      assert raw[0] == OfKind(raw, kind)[0];
    } else {
      var m := if raw[0].kind == kind then n - 1 else n;
      assert OfKind(raw, kind)[n] == rest[m];
      OfKindFrom(raw[1..], kind, m);
      var i :| 0 <= i < |raw[1..]| && raw[1..][i] == rest[m];
      assert raw[i + 1] == rest[m];
    }
  }

  // -------------------------------------------------- the fill's branches

  /** The offsets of `ms` that are not yet present, in order. */
  function MissingOf(present: set<int>, ms: seq<int>): (r: seq<int>)
    ensures forall x | x in r :: x in ms && x !in present
  {
    if ms == [] then [] else (if ms[0] in present then [] else [ms[0]]) + MissingOf(present, ms[1..])
  }

  /**
   * The slots the source's fill adds to one block, branch by branch: a
   * block with no rows at all gets every slot, a block whose row count is
   * not the block size gets the slots it lacks, a full block gets nothing.
   */
  function SourceFill(count: nat, size: nat, present: set<int>, ms: seq<int>): seq<int>
  {
    if count == 0 then ms else if count != size then MissingOf(present, ms) else []
  }

  /** The single rule the model's gap filler applies to a block. */
  function BlockFill(count: nat, size: nat, present: set<int>, ms: seq<int>): seq<int>
  {
    if count != size then MissingOf(present, ms) else []
  }

  lemma {:induction false} NothingPresentMissesAll(ms: seq<int>)
    ensures MissingOf({}, ms) == ms
  {
    if ms != [] {
      NothingPresentMissesAll(ms[1..]);
    }
  }

  /**
   * For a block with no rows the source's "add every slot" branch adds what
   * the per-slot check adds, so all its branches are the one rule. This
   * documents the branch structure on its own terms: the model's filler
   * (`Normalizer.FillGaps`, `Normalizer.FillBlock`) applies the `BlockFill`
   * rule, as its contract states: a block is filled only when its count is
   * not the block size, and then with exactly the slots it lacks.
   */
  lemma FillBranchesAgree(count: nat, size: nat, present: set<int>, ms: seq<int>)
    requires size > 0
    requires count == 0 ==> present == {}
    ensures SourceFill(count, size, present, ms) == BlockFill(count, size, present, ms)
  {
    if count == 0 {
      NothingPresentMissesAll(ms);
    }
  }

  // ------------------------------------------------------------------ SCED

  /** A row of a SCED report: the timestamp as `str` prints it, and the rest of the row. */
  datatype ScedRow<V> = ScedRow(timestamp: string, payload: V)

  /** A decoded SCED row: day number of the date, hour, minute, and the rest of the row. */
  datatype ScedEntry<V> = ScedEntry(day: int, hour: nat, minute: nat, payload: V)

  function EntryKey<V>(e: ScedEntry<V>): Key
  {
    Key(e.day, e.hour, e.minute)
  }

  /**
   * The date, hour and interval columns of every row, `dayOf` standing for
   * `pd.to_datetime` of the date text; `None` when one timestamp does not
   * slice to numbers.
   */
  function ScedEntries<V>(raw: seq<ScedRow<V>>, dayOf: string -> int): (r: Option<seq<ScedEntry<V>>>)
    ensures r.Some? <==> forall i | 0 <= i < |raw| :: ScedFields(raw[i].timestamp).Some?
    ensures r.Some? ==> |r.value| == |raw|
    ensures r.Some? ==> forall i | 0 <= i < |raw| ::
      var f := ScedFields(raw[i].timestamp).value;
      r.value[i] == ScedEntry(dayOf(f.date), f.hour, f.minute, raw[i].payload)
  {
    if raw == [] then Some([])
    else
      var rest := ScedEntries(raw[1..], dayOf);
      assert forall i | 1 <= i < |raw| :: raw[1..][i - 1] == raw[i];
      match ScedFields(raw[0].timestamp)
      case None => None
      case Some(f) =>
        if rest.None? then None else Some([ScedEntry(dayOf(f.date), f.hour, f.minute, raw[0].payload)] + rest.value)
  }

  /**
   * get_rtm_sced_lambda and get_rtm_sced_shadow after the fetch: slice the
   * timestamps, then sort by (date, hour, interval). An empty frame has no
   * column 0 (KeyError). A `sort_values` on several columns is stable, so
   * rows of the same (date, hour, interval) keep their order in the report.
   */
  method DecodeSced<V>(raw: seq<ScedRow<V>>, dayOf: string -> int) returns (r: Option<seq<ScedEntry<V>>>)
    ensures r.Some? <==> raw != [] && ScedEntries(raw, dayOf).Some?
    ensures r.Some? ==> SortedBy(r.value, EntryKey)
    ensures r.Some? ==> multiset(r.value) == multiset(ScedEntries(raw, dayOf).value)
    ensures r.Some? ==> forall k :: WithKey(r.value, EntryKey, k) == WithKey(ScedEntries(raw, dayOf).value, EntryKey, k)
  {
    if raw == [] {
      return None;
    }
    var entries := ScedEntries(raw, dayOf);
    if entries.None? {
      return None;
    }
    SortBySorted(entries.value, EntryKey);
    forall k ensures WithKey(SortBy(entries.value, EntryKey), EntryKey, k) == WithKey(entries.value, EntryKey, k) {
      SortByStable(entries.value, EntryKey, k);
    }
    r := Some(SortBy(entries.value, EntryKey));
  }

  /**
   * A well-formed SCED report keeps every timestamp's date, hour and minute:
   * a row stamped `date HH:MM:SS` is found in the result at (dayOf(date), HH, MM).
   */
  lemma ScedKeepsTimes<V>(raw: seq<ScedRow<V>>, dayOf: string -> int, i: nat, date: string, hour: nat, minute: nat, second: nat)
    requires i < |raw|
    requires |date| == 10 && hour < 24 && minute < 60 && second < 60
    requires raw[i].timestamp == TimestampText(date, hour, minute, second)
    requires ScedEntries(raw, dayOf).Some?
    ensures ScedEntry(dayOf(date), hour, minute, raw[i].payload) in ScedEntries(raw, dayOf).value
  {
    ScedFieldsRoundTrip(date, hour, minute, second);
    assert ScedEntries(raw, dayOf).value[i] == ScedEntry(dayOf(date), hour, minute, raw[i].payload);
  }

  // ------------------------------------------------------------ composed

  /**
   * A day-ahead report end to end: the paged fetch from scratch, then the
   * decoder. A fetch that never settles or overflows the stack yields no
   * table; whatever failures a completed fetch met, the table is the one of
   * the whole report.
   */
  method DamReport<V(==)>(s: Fetch.Server<DamRow<V>>, outs: seq<bool>, depth: nat, from: Option<int>, to: Option<int>)
    returns (r: Option<Table<string, V>>)
    ensures !Fetch.Fetch(s, outs, [], 1, 0, depth).Done? ==> r.None?
    ensures Fetch.Fetch(s, outs, [], 1, 0, depth).Done? ==> r == DamTable(Fetch.ReverseFlatten(s.pages), from, to)
  {
    var got := Fetch.GetData(s, outs, [], 1, 0, depth);
    if !got.Done? {
      return None;
    }
    Fetch.FetchIsFailureTransparent(s, outs, depth, got.rows);
    r := DecodeDamHourly(got.rows, from, to);
  }

  /** A real-time report of one type end to end. */
  method RtmReport<V(==)>(s: Fetch.Server<RtmRow<V>>, outs: seq<bool>, depth: nat, kind: string, from: Option<int>, to: Option<int>)
    returns (r: Option<Table<string, V>>)
    ensures !Fetch.Fetch(s, outs, [], 1, 0, depth).Done? ==> r.None?
    ensures Fetch.Fetch(s, outs, [], 1, 0, depth).Done? ==> r == RtmTable(Fetch.ReverseFlatten(s.pages), kind, from, to)
  {
    var got := Fetch.GetData(s, outs, [], 1, 0, depth);
    if !got.Done? {
      return None;
    }
    Fetch.FetchIsFailureTransparent(s, outs, depth, got.rows);
    r := DecodeRtm(got.rows, kind, from, to);
  }

  /** A SCED report end to end. */
  method ScedReport<V>(s: Fetch.Server<ScedRow<V>>, outs: seq<bool>, depth: nat, dayOf: string -> int)
    returns (r: Option<seq<ScedEntry<V>>>)
    ensures !Fetch.Fetch(s, outs, [], 1, 0, depth).Done? ==> r.None?
    ensures Fetch.Fetch(s, outs, [], 1, 0, depth).Done? ==>
      var rows := Fetch.ReverseFlatten(s.pages);
      && (r.Some? <==> rows != [] && ScedEntries(rows, dayOf).Some?)
      && (r.Some? ==> SortedBy(r.value, EntryKey) && multiset(r.value) == multiset(ScedEntries(rows, dayOf).value))
      && (r.Some? ==> forall k :: WithKey(r.value, EntryKey, k) == WithKey(ScedEntries(rows, dayOf).value, EntryKey, k))
  {
    var got := Fetch.GetData(s, outs, [], 1, 0, depth);
    if !got.Done? {
      return None;
    }
    Fetch.FetchIsFailureTransparent(s, outs, depth, got.rows);
    r := DecodeSced(got.rows, dayOf);
  }
}
