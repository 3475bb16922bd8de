/**
 * The canonical time grid of the normalized reports: every day of the
 * requested range (days are ordered indices, `from..to` inclusive) times the
 * 24 hours 0-23 (after the hour-ending remap), times the minute offsets
 * 0/15/30/45 for the 15-minute reports. Hourly keys carry minute 0.
 *
 * The grid is cut into blocks, the unit the gap filler works on: a whole day
 * for the hourly reports, one hour of one day for the 15-minute reports.
 */
module Grid {

  datatype Key = Key(day: int, hour: int, minute: int)

  datatype Shape = Hourly | QuarterHourly

  /** Lexicographic order on (day, hour, minute), the order of `sort_values`. */
  predicate KeyLess(a: Key, b: Key)
  {
    a.day < b.day || (a.day == b.day && (a.hour < b.hour || (a.hour == b.hour && a.minute < b.minute)))
  }

  predicate Ascending(ks: seq<Key>)
  {
    forall i, j | 0 <= i < j < |ks| :: KeyLess(ks[i], ks[j])
  }

  function Minutes(shape: Shape): seq<int>
  {
    match shape
    case Hourly => [0]
    case QuarterHourly => [0, 15, 30, 45]
  }

  /** Number of days in `from..to`; an inverted range is empty. */
  function Days(from: int, to: int): nat
  {
    if from > to then 0 else to - from + 1
  }

  function BlockSize(shape: Shape): nat
  {
    match shape
    case Hourly => 24
    case QuarterHourly => 4
  }

  function BlocksPerDay(shape: Shape): nat
  {
    match shape
    case Hourly => 1
    case QuarterHourly => 24
  }

  /** The `j`-th slot of block `a`. */
  function SlotKey(shape: Shape, from: int, a: nat, j: nat): Key
  {
    match shape
    case Hourly => Key(from + a, j, 0)
    case QuarterHourly => Key(from + a / 24, a % 24, 15 * j)
  }

  function Block(shape: Shape, from: int, a: nat): (b: seq<Key>)
    ensures |b| == BlockSize(shape)
  {
    seq(BlockSize(shape), j requires 0 <= j < BlockSize(shape) => SlotKey(shape, from, a, j))
  }

  function Blocks(shape: Shape, from: int, to: int): (bs: seq<seq<Key>>)
    ensures |bs| == Days(from, to) * BlocksPerDay(shape)
  {
    seq(Days(from, to) * BlocksPerDay(shape), a requires 0 <= a < Days(from, to) * BlocksPerDay(shape) => Block(shape, from, a))
  }

  function Flatten<T>(bs: seq<seq<T>>): seq<T>
  {
    if bs == [] then [] else bs[0] + Flatten(bs[1..])
  }

  /** The cross product date range x hours (x minute offsets), in this order. */
  function CanonicalGrid(shape: Shape, from: int, to: int): seq<Key>
  {
    Flatten(Blocks(shape, from, to))
  }

  /** The slots a grid of this shape and range holds. */
  predicate InGrid(shape: Shape, from: int, to: int, k: Key)
  {
    from <= k.day <= to && 0 <= k.hour < 24 && k.minute in Minutes(shape)
  }

  /** Two keys the gap filler counts together: same day, and same hour for 15-minute data. */
  predicate SameBlock(shape: Shape, k: Key, l: Key)
  {
    match shape
    case Hourly => k.day == l.day
    case QuarterHourly => k.day == l.day && k.hour == l.hour
  }

  /** The block a key belongs to. */
  function BlockIndex(shape: Shape, from: int, k: Key): int
  {
    match shape
    case Hourly => k.day - from
    case QuarterHourly => (k.day - from) * 24 + k.hour
  }

  lemma SameBlockIndex(shape: Shape, from: int, k: Key, l: Key)
    requires SameBlock(shape, k, l)
    ensures BlockIndex(shape, from, k) == BlockIndex(shape, from, l)
  {
  }

  /** Every slot of block `a` lies in the grid, belongs to block `a` and shares its first slot's block. */
  lemma SlotInBlock(shape: Shape, from: int, to: int, a: nat, j: nat)
    requires a < Days(from, to) * BlocksPerDay(shape) && j < BlockSize(shape)
    ensures InGrid(shape, from, to, SlotKey(shape, from, a, j))
    ensures BlockIndex(shape, from, SlotKey(shape, from, a, j)) == a
    ensures SameBlock(shape, SlotKey(shape, from, a, j), SlotKey(shape, from, a, 0))
  {
    if shape.QuarterHourly? {
      assert a / 24 < Days(from, to);
      assert 15 * j in Minutes(shape) by {
        assert Minutes(shape)[j] == 15 * j;
      }
    }
  }

  /** The slot of a grid key within its block. */
  function SlotOf(shape: Shape, k: Key): int
  {
    match shape
    case Hourly => k.hour
    case QuarterHourly => k.minute / 15
  }

  /** Each grid key is the slot `SlotOf` of the block `BlockIndex`. */
  lemma KeyIsSlot(shape: Shape, from: int, to: int, k: Key)
    requires InGrid(shape, from, to, k)
    ensures 0 <= BlockIndex(shape, from, k) < Days(from, to) * BlocksPerDay(shape)
    ensures 0 <= SlotOf(shape, k) < BlockSize(shape)
    ensures SlotKey(shape, from, BlockIndex(shape, from, k), SlotOf(shape, k)) == k
  {
    if shape.QuarterHourly? {
      var a := (k.day - from) * 24 + k.hour;
      assert a / 24 == k.day - from && a % 24 == k.hour;
      assert (k.day - from) * 24 + k.hour < (to - from + 1) * 24;
    }
  }

  lemma {:induction false} FlattenMember<T>(bs: seq<seq<T>>, x: T)
    ensures x in Flatten(bs) <==> exists a | 0 <= a < |bs| :: x in bs[a]
  {
    if bs != [] {
      FlattenMember(bs[1..], x);
      if x in Flatten(bs[1..]) {
        var a :| 0 <= a < |bs[1..]| && x in bs[1..][a];
        assert x in bs[a + 1];
      }
      if exists a | 0 <= a < |bs| :: x in bs[a] {
        var a :| 0 <= a < |bs| && x in bs[a];
        if a > 0 {
          assert x in bs[1..][a - 1];
        }
      }
    }
  }

  lemma {:induction false} FlattenUniformSize<T>(bs: seq<seq<T>>, n: nat)
    requires forall a | 0 <= a < |bs| :: |bs[a]| == n
    ensures |Flatten(bs)| == |bs| * n
  {
    if bs != [] {
      FlattenUniformSize(bs[1..], n);
    }
  }

  /** The grid holds exactly the keys of the range, the hours and the shape's minutes. */
  lemma GridMembership(shape: Shape, from: int, to: int, k: Key)
    ensures k in CanonicalGrid(shape, from, to) <==> InGrid(shape, from, to, k)
  {
    var bs := Blocks(shape, from, to);
    FlattenMember(bs, k);
    if k in CanonicalGrid(shape, from, to) {
      var a :| 0 <= a < |bs| && k in bs[a];
      var j :| 0 <= j < BlockSize(shape) && bs[a][j] == k;
      SlotInBlock(shape, from, to, a, j);
    }
    if InGrid(shape, from, to, k) {
      KeyIsSlot(shape, from, to, k);
      var a := BlockIndex(shape, from, k);
      assert bs[a][SlotOf(shape, k)] == k;
    }
  }

  /** The grid has `days x 24` rows, times 4 for the 15-minute reports, whatever data arrived. */
  lemma GridSize(shape: Shape, from: int, to: int)
    ensures |CanonicalGrid(shape, from, to)| == Days(from, to) * 24 * |Minutes(shape)|
  {
    FlattenUniformSize(Blocks(shape, from, to), BlockSize(shape));
  }

  /** Keys of a lower block come before keys of a higher block. */
  lemma BlockOrder(shape: Shape, from: int, to: int, k: Key, l: Key)
    requires InGrid(shape, from, to, k) && InGrid(shape, from, to, l)
    requires BlockIndex(shape, from, k) < BlockIndex(shape, from, l)
    ensures KeyLess(k, l)
  {
  }

  lemma BlockAscending(shape: Shape, from: int, to: int, a: nat)
    requires a < Days(from, to) * BlocksPerDay(shape)
    ensures Ascending(Block(shape, from, a))
  {
  }

  lemma {:induction false} AscendingConcat(xs: seq<Key>, ys: seq<Key>)
    requires Ascending(xs) && Ascending(ys)
    requires forall x, y | x in xs && y in ys :: KeyLess(x, y)
    ensures Ascending(xs + ys)
  {
    var zs := xs + ys;
    forall i, j | 0 <= i < j < |zs| ensures KeyLess(zs[i], zs[j]) {
      if j < |xs| {
        assert zs[i] == xs[i] && zs[j] == xs[j];
      } else if i >= |xs| {
        assert zs[i] == ys[i - |xs|] && zs[j] == ys[j - |xs|];
      } else {
        assert zs[i] in xs && zs[j] in ys;
      }
    }
  }

  /** Blocks `lo..` of the grid, flattened, are in ascending key order. */
  lemma {:induction false} GridSuffixAscending(shape: Shape, from: int, to: int, lo: nat)
    requires lo <= Days(from, to) * BlocksPerDay(shape)
    ensures Ascending(Flatten(Blocks(shape, from, to)[lo..]))
    decreases Days(from, to) * BlocksPerDay(shape) - lo
  {
    var bs := Blocks(shape, from, to);
    if lo < |bs| {
      GridSuffixAscending(shape, from, to, lo + 1);
      assert bs[lo..][1..] == bs[lo + 1..];
      BlockAscending(shape, from, to, lo);
      forall x, y | x in bs[lo] && y in Flatten(bs[lo + 1..]) ensures KeyLess(x, y) {
        LaterBlockAbove(shape, from, to, lo, x, y);
      }
      AscendingConcat(bs[lo], Flatten(bs[lo + 1..]));
    } else {
      assert bs[lo..] == [];
    }
  }

  /** Every slot of a later block is above every slot of block `lo`. */
  lemma LaterBlockAbove(shape: Shape, from: int, to: int, lo: nat, x: Key, y: Key)
    requires lo < Days(from, to) * BlocksPerDay(shape)
    requires x in Blocks(shape, from, to)[lo] && y in Flatten(Blocks(shape, from, to)[lo + 1..])
    ensures KeyLess(x, y)
  {
    var bs := Blocks(shape, from, to);
    FlattenMember(bs[lo + 1..], y);
    var b :| 0 <= b < |bs[lo + 1..]| && y in bs[lo + 1..][b];
    var i :| 0 <= i < BlockSize(shape) && bs[lo][i] == x;
    var j :| 0 <= j < BlockSize(shape) && bs[lo + 1 + b][j] == y;
    SlotInBlock(shape, from, to, lo, i);
    SlotInBlock(shape, from, to, lo + 1 + b, j);
    BlockOrder(shape, from, to, x, y);
  }

  /** The grid is strictly ascending: every slot appears once, in `sort_values` order. */
  lemma GridAscending(shape: Shape, from: int, to: int)
    ensures Ascending(CanonicalGrid(shape, from, to))
  {
    GridSuffixAscending(shape, from, to, 0);
    assert Blocks(shape, from, to)[0..] == Blocks(shape, from, to);
  }
}
