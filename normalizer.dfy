/**
 * The grid normalizer shared by the DAM hourly reports and the RTM 15-minute
 * reports. For each distinct unit, in order of first appearance: its rows are
 * taken from the raw records, gaps are filled with NaN (`None`), later
 * duplicates of a slot are dropped, the rows are sorted by key, and the
 * unit's column is left-joined onto the canonical grid.
 *
 * The reference `ExpectedTable` states the result directly: one row per grid
 * slot, one column per unit, and in each cell the value of the first raw
 * record of that unit and slot, or NaN when there is none.
 */
module Normalizer {
  import opened Wrappers
  import opened Grid
  import opened Sorting

  /** One raw report row after decoding: the unit, the time key and the value. */
  datatype Record<U, V> = Record(unit: U, key: Key, value: V)

  /** One row of a unit's frame; `None` is NaN. */
  datatype Row<V> = Row(key: Key, cell: Option<V>)

  datatype Column<U, V> = Column(unit: U, cells: seq<Option<V>>)

  datatype Table<U, V> = Table(index: seq<Key>, columns: seq<Column<U, V>>)

  // ---------------------------------------------------------------- reference

  /** The value of the first record of unit `u` at slot `k`, or NaN. */
  function FirstValue<U(==), V(==)>(recs: seq<Record<U, V>>, u: U, k: Key): Option<V>
  {
    if recs == [] then None
    else if recs[0].unit == u && recs[0].key == k then Some(recs[0].value)
    else FirstValue(recs[1..], u, k)
  }

  /** The position of the first record of unit `u`, or `|recs|` when it has none. */
  function FirstIdx<U(==), V>(recs: seq<Record<U, V>>, u: U): (n: nat)
    ensures n <= |recs|
    ensures n < |recs| ==> recs[n].unit == u
    ensures forall i | 0 <= i < n :: recs[i].unit != u
  {
    if recs == [] then 0
    else if recs[0].unit == u then 0
    else
      assert forall i | 1 <= i < |recs| :: recs[1..][i - 1] == recs[i];
      1 + FirstIdx(recs[1..], u)
  }

  /** `unique()` of the unit column: each unit once, in order of first appearance. */
  function Units<U(==), V(==)>(recs: seq<Record<U, V>>): (us: seq<U>)
    ensures forall i | 0 <= i < |recs| :: recs[i].unit in us
    ensures forall j | 0 <= j < |us| :: exists i | 0 <= i < |recs| :: recs[i].unit == us[j]
    ensures forall i, j | 0 <= i < j < |us| :: us[i] != us[j]
  {
    if recs == [] then []
    else
      var us := Units(recs[..|recs| - 1]);
      var u := recs[|recs| - 1].unit;
      assert forall i | 0 <= i < |recs| - 1 :: recs[..|recs| - 1][i] == recs[i];
      if u in us then us else us + [u]
  }

  /** The units come in the order of their first records. */
  lemma {:induction false} UnitsInOrder<U, V>(recs: seq<Record<U, V>>)
    ensures forall j | 0 <= j < |Units(recs)| :: FirstIdx(recs, Units(recs)[j]) < |recs|
    ensures forall i, j | 0 <= i < j < |Units(recs)| :: FirstIdx(recs, Units(recs)[i]) < FirstIdx(recs, Units(recs)[j])
  {
    if recs != [] {
      var init, last := recs[..|recs| - 1], recs[|recs| - 1];
      var us := Units(init);
      UnitsInOrder(init);
      assert recs == init + [last];
      forall j | 0 <= j < |us| ensures FirstIdx(recs, us[j]) == FirstIdx(init, us[j]) {
        FirstIdxSnoc(init, last, us[j]);
      }
      if last.unit !in us {
        FirstIdxSnoc(init, last, last.unit);
      }
    }
  }

  /** Appending a record moves no unit's first position; a new unit first appears at the end. */
  lemma FirstIdxSnoc<U, V>(init: seq<Record<U, V>>, last: Record<U, V>, u: U)
    ensures FirstIdx(init, u) < |init| ==> FirstIdx(init + [last], u) == FirstIdx(init, u)
    ensures FirstIdx(init, u) == |init| && last.unit == u ==> FirstIdx(init + [last], u) == |init|
  {
    var s := init + [last];
    assert forall i | 0 <= i < |init| :: s[i] == init[i];
    if FirstIdx(init, u) < |init| {
      FirstIdxUnique(s, u, FirstIdx(init, u));
    } else if last.unit == u {
      FirstIdxUnique(s, u, |init|);
    }
  }

  /** `FirstIdx` is the only position with its defining property. */
  lemma FirstIdxUnique<U, V>(recs: seq<Record<U, V>>, u: U, n: nat)
    requires n <= |recs|
    requires n < |recs| ==> recs[n].unit == u
    requires forall i | 0 <= i < n :: recs[i].unit != u
    ensures FirstIdx(recs, u) == n
  {
  }

  function ExpectedColumn<U(==), V(==)>(recs: seq<Record<U, V>>, u: U, grid: seq<Key>): Column<U, V>
  {
    Column(u, seq(|grid|, i requires 0 <= i < |grid| => FirstValue(recs, u, grid[i])))
  }

  /** The normalized table the reports promise. */
  function ExpectedTable<U(==), V(==)>(recs: seq<Record<U, V>>, shape: Shape, from: int, to: int): Table<U, V>
  {
    var grid := CanonicalGrid(shape, from, to);
    var us := Units(recs);
    Table(grid, seq(|us|, j requires 0 <= j < |us| => ExpectedColumn(recs, us[j], grid)))
  }

  // ----------------------------------------------------------- frame helpers

  function KeysOf<V(==)>(rows: seq<Row<V>>): set<Key>
  {
    set i | 0 <= i < |rows| :: rows[i].key
  }

  /** The cell of the first row with key `k`; a key with no row reads as NaN. */
  function Lookup<V(==)>(rows: seq<Row<V>>, k: Key): Option<V>
  {
    if rows == [] then None else if rows[0].key == k then rows[0].cell else Lookup(rows[1..], k)
  }

  /** `raw_data.loc[raw_data["Unit"] == unit]`: the unit's rows in raw order. */
  function Project<U(==), V(==)>(recs: seq<Record<U, V>>, u: U): seq<Row<V>>
  {
    if recs == [] then []
    else (if recs[0].unit == u then [Row(recs[0].key, Some(recs[0].value))] else []) + Project(recs[1..], u)
  }

  /** Rows of the frame counted with `k` by the gap filler (same day, or same day and hour). */
  function CountBlock<V(==)>(shape: Shape, rows: seq<Row<V>>, k: Key): nat
  {
    if rows == [] then 0
    else (if SameBlock(shape, rows[0].key, k) then 1 else 0) + CountBlock(shape, rows[1..], k)
  }

  /** `drop_duplicates(keep="first")` on the key columns. */
  function Dedup<V(==)>(rows: seq<Row<V>>): (d: seq<Row<V>>)
    ensures KeysOf(d) == KeysOf(rows)
    ensures DistinctBy(d, (r: Row<V>) => r.key)
    ensures forall r | r in d :: r in rows
  {
    if rows == [] then []
    else
      var init := rows[..|rows| - 1];
      var last := rows[|rows| - 1];
      var d := Dedup(init);
      KeysOfSnoc(init, last);
      assert rows == init + [last];
      if last.key in KeysOf(d) then d
      else
        KeysOfSnoc(d, last);
        d + [last]
  }

  /** `sort_values` on the key columns. */
  function SortByKey<V(==)>(rows: seq<Row<V>>): seq<Row<V>>
  {
    SortBy(rows, (r: Row<V>) => r.key)
  }

  /**
   * `pd.merge(..., how="left")` of one unit's frame onto the grid. A left merge
   * emits one row per matching frame row, so it keeps one row per grid slot
   * only on a frame whose keys are distinct; the keep-first dedup is what
   * gives the source that.
   */
  function LeftJoin<V(==)>(grid: seq<Key>, frame: seq<Row<V>>): (r: seq<Option<V>>)
    requires DistinctBy(frame, (x: Row<V>) => x.key)
    ensures |r| == |grid|
    ensures forall i, j | 0 <= i < |grid| && 0 <= j < |frame| && frame[j].key == grid[i] :: r[i] == frame[j].cell
    ensures forall i | 0 <= i < |grid| && grid[i] !in KeysOf(frame) :: r[i].None?
  {
    LookupFinds(frame);
    seq(|grid|, i requires 0 <= i < |grid| => Lookup(frame, grid[i]))
  }

  // ------------------------------------------------------------------ lemmas

  lemma KeysOfSnoc<V>(rows: seq<Row<V>>, r: Row<V>)
    ensures KeysOf(rows + [r]) == KeysOf(rows) + {r.key}
  {
    var s := rows + [r];
    forall k | k in KeysOf(s) ensures k in KeysOf(rows) + {r.key} {
      var i :| 0 <= i < |s| && s[i].key == k;
      if i < |rows| { assert rows[i] == s[i]; }
    }
    forall k | k in KeysOf(rows) + {r.key} ensures k in KeysOf(s) {
      if k in KeysOf(rows) {
        var i :| 0 <= i < |rows| && rows[i].key == k;
        assert s[i] == rows[i];
      } else {
        assert s[|rows|] == r;
      }
    }
  }

  lemma {:induction false} KeysOfMember<V>(rows: seq<Row<V>>, k: Key)
    ensures k in KeysOf(rows) <==> rows != [] && (rows[0].key == k || k in KeysOf(rows[1..]))
  {
    if rows != [] {
      if k in KeysOf(rows) {
        var i :| 0 <= i < |rows| && rows[i].key == k;
        if i > 0 { assert rows[1..][i - 1] == rows[i]; }
      }
      if k in KeysOf(rows[1..]) {
        var i :| 0 <= i < |rows[1..]| && rows[1..][i].key == k;
        assert rows[i + 1] == rows[1..][i];
      }
    }
  }

  /** Looking up in a concatenation: the first part wins when it holds the key. */
  lemma {:induction false} LookupAppend<V>(a: seq<Row<V>>, b: seq<Row<V>>, k: Key)
    ensures Lookup(a + b, k) == if k in KeysOf(a) then Lookup(a, k) else Lookup(b, k)
  {
    KeysOfMember(a, k);
    if a != [] {
      assert (a + b)[1..] == a[1..] + b;
      LookupAppend(a[1..], b, k);
    } else {
      assert a + b == b;
    }
  }

  lemma {:induction false} LookupAbsent<V>(rows: seq<Row<V>>, k: Key)
    requires k !in KeysOf(rows)
    ensures Lookup(rows, k) == None
  {
    KeysOfMember(rows, k);
    if rows != [] {
      LookupAbsent(rows[1..], k);
    }
  }

  lemma {:induction false} LookupAllNaN<V>(rows: seq<Row<V>>, k: Key)
    requires forall j | 0 <= j < |rows| :: rows[j].cell.None?
    ensures Lookup(rows, k) == None
  {
    if rows != [] {
      LookupAllNaN(rows[1..], k);
    }
  }

  /** In a frame with distinct keys, the lookup finds the one row with that key. */
  lemma {:induction false} LookupDistinct<V>(rows: seq<Row<V>>, r: Row<V>)
    requires DistinctBy(rows, (x: Row<V>) => x.key)
    requires r in rows
    ensures Lookup(rows, r.key) == r.cell
  {
    if rows[0] != r {
      assert r in rows[1..];
      assert DistinctBy(rows[1..], (x: Row<V>) => x.key) by {
        forall i, j | 0 <= i < j < |rows[1..]| ensures rows[1..][i].key != rows[1..][j].key {
          assert rows[1..][i] == rows[i + 1] && rows[1..][j] == rows[j + 1];
        }
      }
      var i :| 0 <= i < |rows[1..]| && rows[1..][i] == r;
      assert rows[i + 1] == r;
      assert rows[0].key != r.key;
      LookupDistinct(rows[1..], r);
    }
  }

  /** In a frame with distinct keys every row is the one found at its key, and a missing key reads as NaN. */
  lemma LookupFinds<V>(frame: seq<Row<V>>)
    requires DistinctBy(frame, (x: Row<V>) => x.key)
    ensures forall j | 0 <= j < |frame| :: Lookup(frame, frame[j].key) == frame[j].cell
    ensures forall k | k !in KeysOf(frame) :: Lookup(frame, k) == None
  {
    forall j | 0 <= j < |frame| ensures Lookup(frame, frame[j].key) == frame[j].cell {
      LookupDistinct(frame, frame[j]);
    }
    forall k | k !in KeysOf(frame) ensures Lookup(frame, k) == None {
      LookupAbsent(frame, k);
    }
  }

  /** A unit's projected frame finds, at each slot, the first record of that unit and slot. */
  lemma {:induction false} ProjectLookup<U, V>(recs: seq<Record<U, V>>, u: U, k: Key)
    ensures Lookup(Project(recs, u), k) == FirstValue(recs, u, k)
  {
    if recs != [] {
      ProjectLookup(recs[1..], u, k);
      var head := if recs[0].unit == u then [Row(recs[0].key, Some(recs[0].value))] else [];
      LookupAppend(head, Project(recs[1..], u), k);
      if recs[0].unit == u {
        KeysOfMember(head, k);
        assert head[1..] == [];
      } else {
        assert KeysOf(head) == {};
      }
    }
  }

  /** Dropping duplicates keeps, for each slot, the first row's cell. */
  lemma {:induction false} DedupLookup<V>(rows: seq<Row<V>>, k: Key)
    ensures Lookup(Dedup(rows), k) == Lookup(rows, k)
  {
    if rows != [] {
      var init := rows[..|rows| - 1];
      var last := rows[|rows| - 1];
      assert rows == init + [last];
      DedupLookup(init, k);
      LookupAppend(init, [last], k);
      var d := Dedup(init);
      assert KeysOf(d) == KeysOf(init);
      if last.key !in KeysOf(d) {
        LookupAppend(d, [last], k);
      } else if k !in KeysOf(init) {
        assert last.key != k;
        LookupAbsent(init, k);
        assert Lookup([last], k) == Lookup([last][1..], k);
        assert [last][1..] == [];
      }
    }
  }

  /** Sorting a frame with distinct keys leaves every lookup unchanged. */
  lemma SortLookup<V>(rows: seq<Row<V>>, k: Key)
    requires DistinctBy(rows, (r: Row<V>) => r.key)
    ensures Lookup(SortByKey(rows), k) == Lookup(rows, k)
  {
    var key := (r: Row<V>) => r.key;
    var s := SortByKey(rows);
    SortByDistinct(rows, key);
    assert forall r :: r in s <==> r in rows by {
      assert multiset(s) == multiset(rows);
      forall r ensures r in s <==> r in rows {
        assert r in s <==> r in multiset(s);
        assert r in rows <==> r in multiset(rows);
      }
    }
    if i :| 0 <= i < |rows| && rows[i].key == k {
      LookupDistinct(rows, rows[i]);
      LookupDistinct(s, rows[i]);
    } else {
      assert k !in KeysOf(rows);
      forall j | 0 <= j < |s| ensures s[j].key != k {
        assert s[j] in multiset(s);
        assert s[j] in multiset(rows);
      }
      LookupAbsent(rows, k);
      LookupAbsent(s, k);
    }
  }

  // ---------------------------------------------------------------- gap fill

  lemma {:induction false} CountBlockAppend<V>(shape: Shape, a: seq<Row<V>>, b: seq<Row<V>>, k: Key)
    ensures CountBlock(shape, a + b, k) == CountBlock(shape, a, k) + CountBlock(shape, b, k)
  {
    if a == [] {
      assert a + b == b;
    } else {
      assert (a + b)[1..] == a[1..] + b;
      CountBlockAppend(shape, a[1..], b, k);
    }
  }

  lemma {:induction false} CountBlockNone<V>(shape: Shape, rows: seq<Row<V>>, k: Key)
    requires forall j | 0 <= j < |rows| :: !SameBlock(shape, rows[j].key, k)
    ensures CountBlock(shape, rows, k) == 0
  {
    if rows != [] {
      CountBlockNone(shape, rows[1..], k);
    }
  }

  lemma {:induction false} CountBlockSame<V>(shape: Shape, rows: seq<Row<V>>, k: Key, l: Key)
    requires SameBlock(shape, k, l)
    ensures CountBlock(shape, rows, k) == CountBlock(shape, rows, l)
  {
    if rows != [] {
      CountBlockSame(shape, rows[1..], k, l);
    }
  }

  /** What the filler promises of the rows it appended (those from `n` on). */
  ghost predicate FillsOk<V>(shape: Shape, from: int, to: int, rows: seq<Row<V>>, filled: seq<Row<V>>, bound: int)
  {
    && |filled| >= |rows| && filled[..|rows|] == rows
    && forall j | |rows| <= j < |filled| ::
         && filled[j].cell.None?
         && InGrid(shape, from, to, filled[j].key)
         && filled[j].key !in KeysOf(filled[..j])
         && BlockIndex(shape, from, filled[j].key) < bound
         && CountBlock(shape, rows, filled[j].key) != BlockSize(shape)
  }

  /** Appending one more NaN row for a slot the frame lacks keeps the fill promises. */
  lemma FillsOkSnoc<V>(shape: Shape, from: int, to: int, rows: seq<Row<V>>, filled: seq<Row<V>>, bound: int, slot: Key)
    requires FillsOk(shape, from, to, rows, filled, bound)
    requires slot !in KeysOf(filled) && InGrid(shape, from, to, slot)
    requires BlockIndex(shape, from, slot) < bound && CountBlock(shape, rows, slot) != BlockSize(shape)
    ensures FillsOk(shape, from, to, rows, filled + [Row(slot, None)], bound)
    ensures KeysOf(filled + [Row(slot, None)]) == KeysOf(filled) + {slot}
  {
    var f := filled + [Row(slot, None)];
    KeysOfSnoc(filled, Row(slot, None));
    assert f[..|filled|] == filled;
    assert f[..|rows|] == filled[..|rows|];
    forall j | |rows| <= j < |f| ensures
      && f[j].cell.None?
      && InGrid(shape, from, to, f[j].key)
      && f[j].key !in KeysOf(f[..j])
      && BlockIndex(shape, from, f[j].key) < bound
      && CountBlock(shape, rows, f[j].key) != BlockSize(shape)
    {
      if j < |filled| {
        assert f[..j] == filled[..j] && f[j] == filled[j];
      }
    }
  }

  /** Rows appended for earlier blocks do not change the count of block `a`. */
  lemma CountIgnoresEarlierFills<V>(shape: Shape, from: int, to: int, rows: seq<Row<V>>, filled: seq<Row<V>>, a: nat)
    requires FillsOk(shape, from, to, rows, filled, a)
    requires a < Days(from, to) * BlocksPerDay(shape)
    ensures CountBlock(shape, filled, SlotKey(shape, from, a, 0)) == CountBlock(shape, rows, SlotKey(shape, from, a, 0))
  {
    var head := SlotKey(shape, from, a, 0);
    SlotInBlock(shape, from, to, a, 0);
    var extra := filled[|rows|..];
    assert filled == rows + extra;
    CountBlockAppend(shape, rows, extra, head);
    forall j | 0 <= j < |extra| ensures !SameBlock(shape, extra[j].key, head) {
      assert extra[j] == filled[|rows| + j];
      if SameBlock(shape, extra[j].key, head) {
        SameBlockIndex(shape, from, extra[j].key, head);
      }
    }
    CountBlockNone(shape, extra, head);
  }

  /** Appending a slot of block `a` to a frame that extends `filled` with block-`a` rows keeps both facts. */
  lemma ExtendBlock<V>(shape: Shape, from: int, filled: seq<Row<V>>, out: seq<Row<V>>, a: nat, slot: Key)
    requires |out| >= |filled| && out[..|filled|] == filled
    requires forall j | |filled| <= j < |out| :: BlockIndex(shape, from, out[j].key) == a
    requires BlockIndex(shape, from, slot) == a
    ensures (out + [Row(slot, None)])[..|filled|] == filled
    ensures forall j | |filled| <= j < |out| + 1 :: BlockIndex(shape, from, (out + [Row(slot, None)])[j].key) == a
  {
    var o := out + [Row(slot, None)];
    assert o[..|filled|] == out[..|filled|];
    forall j | |filled| <= j < |o| ensures BlockIndex(shape, from, o[j].key) == a {
      if j < |out| { assert o[j] == out[j]; }
    }
  }

  /** One step of the inner loops: appending a missing slot of block `a` keeps what the loop promises. */
  lemma FillStep<V>(shape: Shape, from: int, to: int, rows: seq<Row<V>>, filled: seq<Row<V>>, out: seq<Row<V>>, a: nat, i: nat)
    requires a < Days(from, to) * BlocksPerDay(shape) && i < BlockSize(shape)
    requires CountBlock(shape, rows, SlotKey(shape, from, a, 0)) != BlockSize(shape)
    requires FillsOk(shape, from, to, rows, out, a + 1)
    requires |out| >= |filled| && out[..|filled|] == filled
    requires forall j | |filled| <= j < |out| :: BlockIndex(shape, from, out[j].key) == a
    requires SlotKey(shape, from, a, i) !in KeysOf(out)
    ensures FillsOk(shape, from, to, rows, out + [Row(SlotKey(shape, from, a, i), None)], a + 1)
    ensures (out + [Row(SlotKey(shape, from, a, i), None)])[..|filled|] == filled
    ensures forall j | |filled| <= j < |out| + 1 :: BlockIndex(shape, from, (out + [Row(SlotKey(shape, from, a, i), None)])[j].key) == a
    ensures KeysOf(out + [Row(SlotKey(shape, from, a, i), None)]) == KeysOf(out) + {SlotKey(shape, from, a, i)}
  {
    var slot := SlotKey(shape, from, a, i);
    SlotInBlock(shape, from, to, a, i);
    CountBlockSame(shape, rows, slot, SlotKey(shape, from, a, 0));
    FillsOkSnoc(shape, from, to, rows, out, a + 1, slot);
    ExtendBlock(shape, from, filled, out, a, slot);
  }

  /** The inner loops for one block: append NaN for each of its slots the frame lacks. */
  method FillBlock<V(==)>(shape: Shape, from: int, to: int, rows: seq<Row<V>>, filled: seq<Row<V>>, a: nat)
    returns (out: seq<Row<V>>)
    requires a < Days(from, to) * BlocksPerDay(shape)
    requires FillsOk(shape, from, to, rows, filled, a + 1)
    requires CountBlock(shape, rows, SlotKey(shape, from, a, 0)) != BlockSize(shape)
    ensures FillsOk(shape, from, to, rows, out, a + 1)
    ensures |out| >= |filled| && out[..|filled|] == filled
    ensures forall j | |filled| <= j < |out| :: BlockIndex(shape, from, out[j].key) == a
    ensures KeysOf(filled) <= KeysOf(out)
    ensures forall i | 0 <= i < BlockSize(shape) :: SlotKey(shape, from, a, i) in KeysOf(out)
  {
    out := filled;
    var block := Block(shape, from, a);
    for i := 0 to BlockSize(shape)
      invariant FillsOk(shape, from, to, rows, out, a + 1)
      invariant |out| >= |filled| && out[..|filled|] == filled
      invariant forall j | |filled| <= j < |out| :: BlockIndex(shape, from, out[j].key) == a
      invariant KeysOf(filled) <= KeysOf(out)
      invariant forall i' | 0 <= i' < i :: SlotKey(shape, from, a, i') in KeysOf(out)
    {
      var slot := block[i];
      if slot !in KeysOf(out) {
        FillStep(shape, from, to, rows, filled, out, a, i);
        out := out + [Row(slot, None)];
      }
    }
  }

  /**
   * The gap filler of the source: for each block of the grid (a day for the
   * hourly reports, an hour of a day for the 15-minute ones), when the frame
   * does not hold exactly a block's worth of rows for it, every slot of the
   * block that the frame lacks is appended with NaN, in grid order.
   */
  method FillGaps<V(==)>(shape: Shape, from: int, to: int, rows: seq<Row<V>>) returns (filled: seq<Row<V>>)
    ensures |filled| >= |rows| && filled[..|rows|] == rows
    ensures forall j | |rows| <= j < |filled| ::
      && filled[j].cell.None?
      && InGrid(shape, from, to, filled[j].key)
      && filled[j].key !in KeysOf(filled[..j])
      && CountBlock(shape, rows, filled[j].key) != BlockSize(shape)
    ensures forall a, i | 0 <= a < Days(from, to) * BlocksPerDay(shape) && 0 <= i < BlockSize(shape) ::
      CountBlock(shape, rows, SlotKey(shape, from, a, 0)) != BlockSize(shape)
      ==> SlotKey(shape, from, a, i) in KeysOf(filled)
  {
    filled := rows;
    assert filled[..|rows|] == rows;
    var blocks := Blocks(shape, from, to);
    for a := 0 to |blocks|
      invariant FillsOk(shape, from, to, rows, filled, a)
      invariant forall b, i | 0 <= b < a && 0 <= i < BlockSize(shape) ::
        CountBlock(shape, rows, SlotKey(shape, from, b, 0)) != BlockSize(shape)
        ==> SlotKey(shape, from, b, i) in KeysOf(filled)
    {
      CountIgnoresEarlierFills(shape, from, to, rows, filled, a);
      if CountBlock(shape, filled, blocks[a][0]) != BlockSize(shape) {
        filled := FillBlock(shape, from, to, rows, filled, a);
      }
    }
  }

  // ------------------------------------------------------------- normalizer

  /**
   * A unit's column: after the fill, the keep-first dedup and the sort, the
   * left join reads at each grid slot the first raw value of the unit there,
   * or NaN.
   */
  lemma ColumnIsFirstValue<U, V>(recs: seq<Record<U, V>>, u: U, filled: seq<Row<V>>, grid: seq<Key>)
    requires |filled| >= |Project(recs, u)| && filled[..|Project(recs, u)|] == Project(recs, u)
    requires forall j | |Project(recs, u)| <= j < |filled| :: filled[j].cell.None?
    ensures DistinctBy(SortByKey(Dedup(filled)), (r: Row<V>) => r.key)
    ensures LeftJoin(grid, SortByKey(Dedup(filled))) == ExpectedColumn(recs, u, grid).cells
  {
    SortByDistinct(Dedup(filled), (r: Row<V>) => r.key);
    forall i | 0 <= i < |grid|
      ensures Lookup(SortByKey(Dedup(filled)), grid[i]) == FirstValue(recs, u, grid[i])
    {
      SlotIsFirstValue(recs, u, filled, grid[i]);
    }
  }

  /** One slot of `ColumnIsFirstValue`: the cleaned frame reads the first raw value there. */
  lemma SlotIsFirstValue<U, V>(recs: seq<Record<U, V>>, u: U, filled: seq<Row<V>>, k: Key)
    requires |filled| >= |Project(recs, u)| && filled[..|Project(recs, u)|] == Project(recs, u)
    requires forall j | |Project(recs, u)| <= j < |filled| :: filled[j].cell.None?
    ensures Lookup(SortByKey(Dedup(filled)), k) == FirstValue(recs, u, k)
  {
    var rows := Project(recs, u);
    var fills := filled[|rows|..];
    assert filled == rows + fills;
    SortByDistinct(Dedup(filled), (r: Row<V>) => r.key);
    SortLookup(Dedup(filled), k);
    DedupLookup(filled, k);
    LookupAppend(rows, fills, k);
    LookupAllNaN(fills, k);
    ProjectLookup(recs, u, k);
    if k !in KeysOf(rows) {
      LookupAbsent(rows, k);
    }
  }

  /**
   * The normalizer as the source runs it: start from the grid and, unit by
   * unit, merge the unit's cleaned column onto the table.
   */
  method Normalize<U(==), V(==)>(recs: seq<Record<U, V>>, shape: Shape, from: int, to: int) returns (t: Table<U, V>)
    ensures t == ExpectedTable(recs, shape, from, to)
  {
    var grid := CanonicalGrid(shape, from, to);
    var units := Units(recs);
    t := Table(grid, []);
    for c := 0 to |units|
      invariant t.index == grid && |t.columns| == c
      invariant forall j | 0 <= j < c :: t.columns[j] == ExpectedColumn(recs, units[j], grid)
    {
      var column := UnitColumn(recs, units[c], shape, from, to);
      t := Table(t.index, t.columns + [column]);
    }
  }

  /**
   * The body of the normalizer's unit loop: the unit's rows, the gap fill,
   * the keep-first dedup, the sort and the left join onto the grid give the
   * unit's expected column.
   */
  method UnitColumn<U(==), V(==)>(recs: seq<Record<U, V>>, u: U, shape: Shape, from: int, to: int)
    returns (column: Column<U, V>)
    ensures column == ExpectedColumn(recs, u, CanonicalGrid(shape, from, to))
  {
    var grid := CanonicalGrid(shape, from, to);
    var frame := Project(recs, u);
    var filled := FillGaps(shape, from, to, frame);
    var deduped := Dedup(filled);
    var sorted := SortByKey(deduped);
    ColumnIsFirstValue(recs, u, filled, grid);
    column := Column(u, LeftJoin(grid, sorted));
  }

  // ---------------------------------------------------------- table properties

  /**
   * The table has one row per grid slot, `days x 24` (x 4) of them, one column
   * per unit of the raw data in order of first appearance, and every column
   * has one cell per row.
   */
  lemma TableShape<U, V>(recs: seq<Record<U, V>>, shape: Shape, from: int, to: int)
    ensures |ExpectedTable(recs, shape, from, to).index| == Days(from, to) * 24 * |Minutes(shape)|
    ensures Ascending(ExpectedTable(recs, shape, from, to).index)
    ensures forall c | c in ExpectedTable(recs, shape, from, to).columns ::
      |c.cells| == |ExpectedTable(recs, shape, from, to).index|
    ensures forall i | 0 <= i < |recs| ::
      exists c | c in ExpectedTable(recs, shape, from, to).columns :: c.unit == recs[i].unit
    ensures forall j, l | 0 <= j < l < |ExpectedTable(recs, shape, from, to).columns| ::
      ExpectedTable(recs, shape, from, to).columns[j].unit != ExpectedTable(recs, shape, from, to).columns[l].unit
    ensures forall j | 0 <= j < |ExpectedTable(recs, shape, from, to).columns| ::
      FirstIdx(recs, ExpectedTable(recs, shape, from, to).columns[j].unit) < |recs|
    ensures forall j, l | 0 <= j < l < |ExpectedTable(recs, shape, from, to).columns| ::
      FirstIdx(recs, ExpectedTable(recs, shape, from, to).columns[j].unit)
        < FirstIdx(recs, ExpectedTable(recs, shape, from, to).columns[l].unit)
  {
    TableIndex(recs, shape, from, to);
    TableColumns(recs, shape, from, to, ExpectedTable(recs, shape, from, to));
  }

  /** The columns of the expected table, stated on the table `t`. */
  lemma TableColumns<U, V>(recs: seq<Record<U, V>>, shape: Shape, from: int, to: int, t: Table<U, V>)
    requires t == ExpectedTable(recs, shape, from, to)
    ensures forall c | c in t.columns :: |c.cells| == |t.index|
    ensures forall i | 0 <= i < |recs| :: exists c | c in t.columns :: c.unit == recs[i].unit
    ensures forall j, l | 0 <= j < l < |t.columns| :: t.columns[j].unit != t.columns[l].unit
    ensures forall j | 0 <= j < |t.columns| :: FirstIdx(recs, t.columns[j].unit) < |recs|
    ensures forall j, l | 0 <= j < l < |t.columns| :: FirstIdx(recs, t.columns[j].unit) < FirstIdx(recs, t.columns[l].unit)
  {
    UnitsInOrder(recs);
    TableUnits(recs, shape, from, to);
  }

  /** The expected table's columns are headed by `Units`, one each. */
  lemma TableUnits<U, V>(recs: seq<Record<U, V>>, shape: Shape, from: int, to: int)
    ensures |ExpectedTable(recs, shape, from, to).columns| == |Units(recs)|
    ensures forall j | 0 <= j < |Units(recs)| :: ExpectedTable(recs, shape, from, to).columns[j].unit == Units(recs)[j]
  {
  }

  /** The expected table's rows are the grid: its size, its order and exactly its slots. */
  lemma TableIndex<U, V>(recs: seq<Record<U, V>>, shape: Shape, from: int, to: int)
    ensures |ExpectedTable(recs, shape, from, to).index| == Days(from, to) * 24 * |Minutes(shape)|
    ensures Ascending(ExpectedTable(recs, shape, from, to).index)
    ensures forall k :: k in ExpectedTable(recs, shape, from, to).index <==> InGrid(shape, from, to, k)
  {
    var grid := CanonicalGrid(shape, from, to);
    assert ExpectedTable(recs, shape, from, to).index == grid;
    GridSize(shape, from, to);
    GridAscending(shape, from, to);
    forall k ensures k in grid <==> InGrid(shape, from, to, k) {
      GridMembership(shape, from, to, k);
    }
  }

  /** Cell `i` of column `j` of the expected table is the unit's first value at the row's slot. */
  lemma TableCell<U, V>(recs: seq<Record<U, V>>, shape: Shape, from: int, to: int, j: nat, i: nat)
    requires j < |ExpectedTable(recs, shape, from, to).columns|
    requires i < |ExpectedTable(recs, shape, from, to).index|
    ensures i < |ExpectedTable(recs, shape, from, to).columns[j].cells|
    ensures ExpectedTable(recs, shape, from, to).columns[j].cells[i]
         == FirstValue(recs, ExpectedTable(recs, shape, from, to).columns[j].unit, ExpectedTable(recs, shape, from, to).index[i])
  {
  }

  /** A slot with a record of the unit holds the first such record's value. */
  lemma {:induction false} FirstRecordWins<U, V>(recs: seq<Record<U, V>>, u: U, k: Key, i: nat)
    requires i < |recs| && recs[i].unit == u && recs[i].key == k
    requires forall j | 0 <= j < i :: !(recs[j].unit == u && recs[j].key == k)
    ensures FirstValue(recs, u, k) == Some(recs[i].value)
  {
    if i > 0 {
      FirstRecordWins(recs[1..], u, k, i - 1);
    }
  }

  /** A slot with no record of the unit holds NaN. */
  lemma {:induction false} MissingSlotIsNaN<U, V>(recs: seq<Record<U, V>>, u: U, k: Key)
    requires forall j | 0 <= j < |recs| :: !(recs[j].unit == u && recs[j].key == k)
    ensures FirstValue(recs, u, k) == None
  {
    if recs != [] {
      MissingSlotIsNaN(recs[1..], u, k);
    }
  }
}
