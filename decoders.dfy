/**
 * Field decoders of the report pipelines: Python's slicing and `int` on the
 * hour-ending and SCED timestamp texts, and the column-wide `replace` calls
 * that remap hour-ending 1-24 to 0-23 and interval codes 1-4 to minutes.
 */
module Decoders {
  import opened Wrappers

  /** A slice bound as Python resolves it: negative counts from the end, then clamped. */
  function Clamp(i: int, n: nat): (r: nat)
    ensures r <= n
  {
    if i < 0 then (if i + n < 0 then 0 else i + n) else (if i > n then n else i)
  }

  /** `s[i:j]` in Python. */
  function PySlice(s: string, i: int, j: int): (r: string)
    ensures |r| <= |s|
  {
    var a := Clamp(i, |s|);
    var b := Clamp(j, |s|);
    if a < b then s[a..b] else []
  }

  predicate IsDigit(c: char)
  {
    '0' <= c <= '9'
  }

  /** The value of a string of decimal digits. */
  function DigitsValue(s: string): nat
    requires forall i | 0 <= i < |s| :: IsDigit(s[i])
  {
    if s == [] then 0
    else
      assert IsDigit(s[|s| - 1]);
      DigitsValue(s[..|s| - 1]) * 10 + (s[|s| - 1] as int - '0' as int) as nat
  }

  /** Python's `int` on a string of digits; anything else raises `ValueError` (`None`). */
  function ParseInt(s: string): (r: Option<nat>)
    ensures r.Some? <==> s != [] && forall i | 0 <= i < |s| :: IsDigit(s[i])
  {
    if s != [] && forall i | 0 <= i < |s| :: IsDigit(s[i]) then Some(DigitsValue(s)) else None
  }

  /** Two-digit decimal text of a number below 100, as the API writes hours and minutes. */
  function TwoDigits(n: nat): (s: string)
    requires n < 100
    ensures |s| == 2 && IsDigit(s[0]) && IsDigit(s[1])
  {
    ['0' + (n / 10) as char, '0' + (n % 10) as char]
  }

  lemma TwoDigitsValue(n: nat)
    requires n < 100
    ensures ParseInt(TwoDigits(n)) == Some(n)
  {
    var s := TwoDigits(n);
    assert s[..1][..0] == [];
    assert DigitsValue(s[..1]) == n / 10;
  }

  /** `int(x[:-3])`: the hour-ending column's text `"HH:00"` to its number. */
  function ParseHourEnding(x: string): Option<nat>
  {
    ParseInt(PySlice(x, 0, -3))
  }

  /** Decoding the text the API sends for hour-ending `h` gives `h` back. */
  lemma HourEndingRoundTrip(h: nat, minutes: string)
    requires h < 100 && |minutes| == 2
    ensures ParseHourEnding(TwoDigits(h) + ":" + minutes) == Some(h)
  {
    var x := TwoDigits(h) + ":" + minutes;
    assert PySlice(x, 0, -3) == TwoDigits(h);
    TwoDigitsValue(h);
  }

  /** A hour-ending text without digits before the last three characters raises. */
  lemma HourEndingRejectsShortText(x: string)
    requires |x| <= 3
    ensures ParseHourEnding(x) == None
  {
  }

  /** The fields the SCED reports take from a timestamp's text. */
  datatype ScedTime = ScedTime(date: string, hour: nat, minute: nat)

  /**
   * `x[:10]`, `int(x[-8:-6])` and `int(x[-5:-3])` of the timestamp text
   * `YYYY-MM-DD HH:MM:SS`; `None` when one of the numbers does not parse.
   */
  function ScedFields(x: string): Option<ScedTime>
  {
    var hour := ParseInt(PySlice(x, -8, -6));
    var minute := ParseInt(PySlice(x, -5, -3));
    if hour.Some? && minute.Some? then Some(ScedTime(PySlice(x, 0, 10), hour.value, minute.value)) else None
  }

  /** The text `str` gives a timestamp. */
  function TimestampText(date: string, hour: nat, minute: nat, second: nat): string
    requires hour < 100 && minute < 100 && second < 100
  {
    date + " " + TwoDigits(hour) + ":" + TwoDigits(minute) + ":" + TwoDigits(second)
  }

  /** The SCED slicing recovers the date, the hour and the minute of any timestamp text. */
  lemma ScedFieldsRoundTrip(date: string, hour: nat, minute: nat, second: nat)
    requires |date| == 10 && hour < 24 && minute < 60 && second < 60
    ensures ScedFields(TimestampText(date, hour, minute, second)) == Some(ScedTime(date, hour, minute))
  {
    var x := TimestampText(date, hour, minute, second);
    assert |x| == 19;
    assert PySlice(x, -8, -6) == TwoDigits(hour);
    assert PySlice(x, -5, -3) == TwoDigits(minute);
    assert PySlice(x, 0, 10) == date;
    TwoDigitsValue(hour);
    TwoDigitsValue(minute);
  }

  /** pandas `replace(from, to)` on a column. */
  function ReplaceAll(s: seq<int>, from: int, to: int): (r: seq<int>)
    ensures |r| == |s|
  {
    seq(|s|, i requires 0 <= i < |s| => if s[i] == from then to else s[i])
  }

  /** A sequence of `replace` calls applied in order. */
  function ReplaceChain(s: seq<int>, steps: seq<(int, int)>): (r: seq<int>)
    ensures |r| == |s|
  {
    if steps == [] then s
    else
      var last := steps[|steps| - 1];
      ReplaceAll(ReplaceChain(s, steps[..|steps| - 1]), last.0, last.1)
  }

  /** The calls `replace(h, h - 1)` for `h` from `lo` up to `hi`. */
  function AscendingSteps(lo: int, hi: int): seq<(int, int)>
    decreases if hi < lo then 0 else hi - lo + 1
  {
    if hi < lo then [] else AscendingSteps(lo, hi - 1) + [(hi, hi - 1)]
  }

  /** The hour-ending remap as the source writes it: `replace(h, h - 1)` for h = 1, ..., 24. */
  function HourEndingRemap(s: seq<int>): seq<int>
  {
    ReplaceChain(s, AscendingSteps(1, 24))
  }

  /** The intended remap of one value: 1-24 become 0-23, anything else stays. */
  function ShiftHourEnding(h: int): int
  {
    if 1 <= h <= 24 then h - 1 else h
  }

  /**
   * After the ascending calls up to `k`, each value in 1..k was decremented
   * exactly once and every other value is untouched.
   */
  lemma {:induction false} AscendingStepsShift(s: seq<int>, k: nat)
    ensures forall i | 0 <= i < |s| ::
      ReplaceChain(s, AscendingSteps(1, k))[i] == if 1 <= s[i] <= k then s[i] - 1 else s[i]
  {
    if k > 0 {
      AscendingStepsShift(s, k - 1);
      var steps := AscendingSteps(1, k);
      assert steps[..|steps| - 1] == AscendingSteps(1, k - 1);
      assert steps[|steps| - 1] == (k, k - 1);
    }
  }

  /** The ascending loop maps 1-24 to 0-23 and leaves every other value alone. */
  lemma HourEndingRemapShifts(s: seq<int>)
    ensures |HourEndingRemap(s)| == |s|
    ensures forall i | 0 <= i < |s| :: HourEndingRemap(s)[i] == ShiftHourEnding(s[i])
  {
    AscendingStepsShift(s, 24);
  }

  /** The same calls in descending order would cascade: hour-ending 2 would become 0. */
  lemma DescendingOrderCascades()
    ensures ReplaceChain([2], [(2, 1), (1, 0)]) == [0]
    ensures ReplaceChain([2], AscendingSteps(1, 2)) == [1]
  {
    assert ReplaceChain([2], [(2, 1)]) == [1];
    assert [(2, 1), (1, 0)][..1] == [(2, 1)];
    AscendingStepsShift([2], 2);
  }

  /** The interval code to its minute offset; other values are left as they are. */
  function IntervalMinutes(code: int): int
  {
    if code == 1 then 0 else if code == 2 then 15 else if code == 3 then 30 else if code == 4 then 45 else code
  }

  /** The four `replace` calls on the interval column, in the source's order. */
  function IntervalSteps(): seq<(int, int)>
  {
    [(1, 0), (2, 15), (3, 30), (4, 45)]
  }

  /** The four calls act on each value independently: none rewrites another's result. */
  lemma IntervalStepsPointwise(s: seq<int>)
    ensures forall i | 0 <= i < |s| :: ReplaceChain(s, IntervalSteps())[i] == IntervalMinutes(s[i])
  {
    var st := IntervalSteps();
    var s1 := ReplaceAll(s, 1, 0);
    var s2 := ReplaceAll(s1, 2, 15);
    var s3 := ReplaceAll(s2, 3, 30);
    var s4 := ReplaceAll(s3, 4, 45);
    assert st[..1][..0] == [];
    assert ReplaceChain(s, st[..1]) == s1;
    assert st[..2][..1] == st[..1];
    assert ReplaceChain(s, st[..2]) == s2;
    assert st[..3][..2] == st[..2];
    assert ReplaceChain(s, st[..3]) == s3;
    assert st[..4][..3] == st[..3] && st[..4] == st;
    assert ReplaceChain(s, st) == s4;
  }

  /** Codes 1-4 go to distinct quarter-hour offsets, and the code can be read back. */
  lemma IntervalMinutesInjective(c: int, d: int)
    requires 1 <= c <= 4 && 1 <= d <= 4
    ensures IntervalMinutes(c) in {0, 15, 30, 45}
    ensures IntervalMinutes(c) / 15 + 1 == c
    ensures IntervalMinutes(c) == IntervalMinutes(d) ==> c == d
  {
  }

  /** `column = column.replace(from, to)`, element by element. */
  method ReplaceValue(col: array<int>, from: int, to: int)
    modifies col
    ensures col[..] == ReplaceAll(old(col[..]), from, to)
  {
    for i := 0 to col.Length
      invariant forall j | 0 <= j < i :: col[j] == if old(col[j]) == from then to else old(col[j])
      invariant forall j | i <= j < col.Length :: col[j] == old(col[j])
    {
      if col[i] == from {
        col[i] := to;
      }
    }
  }

  /** The loop `for hour in range(1, 25): column = column.replace(hour, hour - 1)`. */
  method RemapHourEnding(col: array<int>)
    modifies col
    ensures col[..] == HourEndingRemap(old(col[..]))
    ensures forall i | 0 <= i < col.Length :: col[i] == ShiftHourEnding(old(col[i]))
  {
    ghost var original := col[..];
    for hour := 1 to 25
      invariant col[..] == ReplaceChain(original, AscendingSteps(1, hour - 1))
    {
      ReplaceValue(col, hour, hour - 1);
      ghost var steps := AscendingSteps(1, hour);
      assert steps[..|steps| - 1] == AscendingSteps(1, hour - 1);
    }
    HourEndingRemapShifts(original);
  }

  /** The four `replace` calls that turn interval codes into minutes. */
  method RemapIntervals(col: array<int>)
    modifies col
    ensures col[..] == ReplaceChain(old(col[..]), IntervalSteps())
    ensures forall i | 0 <= i < col.Length :: col[i] == IntervalMinutes(old(col[i]))
  {
    ghost var original := col[..];
    var st := IntervalSteps();
    assert st[..1][..0] == [] && st[..2][..1] == st[..1] && st[..3][..2] == st[..2];
    assert st[..4][..3] == st[..3] && st[..4] == st;
    ReplaceValue(col, 1, 0);
    ReplaceValue(col, 2, 15);
    ReplaceValue(col, 3, 30);
    ReplaceValue(col, 4, 45);
    IntervalStepsPointwise(original);
  }
}
