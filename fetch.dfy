/**
 * The paged fetch of the ERCOTAPI client. The HTTP layer is abstract: the
 * server holds the report's pages (page p is `pages[p - 1]`, and the
 * discovery request reports `|pages|` as `_meta.totalPages`), and a script
 * says, request by request, whether the reply had the expected key (`true`)
 * or raised `KeyError` (`false`). Every retry is a recursive call made
 * inside the `except`, so it nests one more stack frame: `depth` is the
 * number of nested retries the interpreter's recursion limit still allows,
 * and a retry beyond it raises `RecursionError` (`TooDeep`), however many
 * successes would follow. A script that runs out says nothing about the
 * next reply: the fetch then ends `Stalled`.
 */
module Fetch {

  datatype Server<R> = Server(pages: seq<seq<R>>)

  datatype Outcome<R> = Done(rows: seq<R>) | Stalled | TooDeep

  /** The `data` of one page; a page number the report does not have has no rows. */
  function PageData<R>(s: Server<R>, p: int): seq<R>
  {
    if 1 <= p <= |s.pages| then s.pages[p - 1] else []
  }

  /** Pages `lo..hi` as the accumulator holds them: later pages first. */
  function Stacked<R>(s: Server<R>, lo: int, hi: int): seq<R>
    decreases if hi < lo then 0 else hi - lo + 1
  {
    if hi < lo then [] else PageData(s, hi) + Stacked(s, lo, hi - 1)
  }

  /** The pages concatenated from the last to the first. */
  function ReverseFlatten<R>(pages: seq<seq<R>>): seq<R>
  {
    if pages == [] then [] else pages[|pages| - 1] + ReverseFlatten(pages[..|pages| - 1])
  }

  /** Number of requests in the script that succeed. */
  function Successes(outs: seq<bool>): nat
  {
    if outs == [] then 0 else (if outs[0] then 1 else 0) + Successes(outs[1..])
  }

  /** Number of requests in the script that raise `KeyError`. */
  function Failures(outs: seq<bool>): (k: nat)
    ensures k <= |outs|
  {
    if outs == [] then 0 else (if outs[0] then 0 else 1) + Failures(outs[1..])
  }

  /** Pages still to request in `cur..n`. */
  function PagesLeft(cur: int, n: int): nat
  {
    if cur > n then 0 else n - cur + 1
  }

  /**
   * `__get_data(link, params, raw, cur, n)`: with `n == 0` the page count is
   * discovered first (a failure restarts from scratch, one frame deeper),
   * then the page loop runs.
   */
  function Fetch<R>(s: Server<R>, outs: seq<bool>, raw: seq<R>, cur: int, n: nat, depth: nat): Outcome<R>
    decreases |outs|, 1
  {
    if n == 0 then
      if outs == [] then Stalled
      else if !outs[0] then (if depth == 0 then TooDeep else Fetch(s, outs[1..], [], 1, 0, depth - 1))
      else PageLoop(s, outs[1..], raw, cur, |s.pages|, depth)
    else PageLoop(s, outs, raw, cur, n, depth)
  }

  /**
   * The loop over pages `cur..n`: each page is prepended to the accumulator;
   * a failure at page `cur` re-enters the fetch at `cur` with the rows so
   * far, one frame deeper.
   */
  function PageLoop<R>(s: Server<R>, outs: seq<bool>, raw: seq<R>, cur: int, n: nat, depth: nat): Outcome<R>
    decreases |outs|, 0
  {
    if cur > n then Done(raw)
    else if outs == [] then Stalled
    else if outs[0] then PageLoop(s, outs[1..], PageData(s, cur) + raw, cur + 1, n, depth)
    else if depth == 0 then TooDeep
    else Fetch(s, outs[1..], raw, cur, n, depth - 1)
  }

  /** The rows a complete fetch should return: every page once, the last page first. */
  function AllRows<R>(s: Server<R>): seq<R>
  {
    Stacked(s, 1, |s.pages|)
  }

  /** Peeling the lowest page off the stack. */
  lemma {:induction false} StackedLow<R>(s: Server<R>, lo: int, hi: int)
    requires lo <= hi
    ensures Stacked(s, lo, hi) == Stacked(s, lo + 1, hi) + PageData(s, lo)
    decreases hi - lo
  {
    if lo < hi {
      StackedLow(s, lo, hi - 1);
    }
  }

  /**
   * The page loop from `cur` ends with every page of `cur..n` prepended once,
   * later pages first, exactly when the script still holds that many
   * successes; failures the stack has room for change nothing but the
   * number of requests.
   */
  lemma {:induction false} PageLoopResult<R>(s: Server<R>, outs: seq<bool>, raw: seq<R>, cur: int, n: nat, depth: nat)
    requires cur >= 1 && Failures(outs) <= depth
    ensures PageLoop(s, outs, raw, cur, n, depth)
         == if Successes(outs) >= PagesLeft(cur, n) then Done(Stacked(s, cur, n) + raw) else Stalled
    decreases |outs|
  {
    if cur > n {
      assert Stacked(s, cur, n) + raw == raw;
    } else if outs == [] {
      assert Successes(outs) == 0;
    } else if outs[0] {
      var acc := PageData(s, cur) + raw;
      PageLoopResult(s, outs[1..], acc, cur + 1, n, depth);
      assert Successes(outs) == 1 + Successes(outs[1..]);
      assert PagesLeft(cur, n) == 1 + PagesLeft(cur + 1, n);
      StackedLow(s, cur, n);
      assert Stacked(s, cur + 1, n) + acc == Stacked(s, cur, n) + raw;
    } else {
      PageLoopResult(s, outs[1..], raw, cur, n, depth - 1);
      assert Successes(outs) == Successes(outs[1..]);
    }
  }

  /** Position of the first success in the script (the first discovery that works). */
  function FirstSuccess(outs: seq<bool>): (k: nat)
    requires true in outs
    ensures k < |outs| && outs[k] && forall j | 0 <= j < k :: !outs[j]
  {
    if outs[0] then 0 else 1 + FirstSuccess(outs[1..])
  }

  /**
   * A fetch from scratch: discovery is retried until it works, then the pages
   * are fetched; the result is all pages exactly once, later pages first,
   * provided the script holds enough successes after discovery and the
   * stack has room for every failure.
   */
  lemma {:induction false} FetchFromScratch<R>(s: Server<R>, outs: seq<bool>, depth: nat)
    requires Failures(outs) <= depth
    ensures true !in outs ==> Fetch(s, outs, [], 1, 0, depth) == Stalled
    ensures true in outs ==>
      Fetch(s, outs, [], 1, 0, depth)
      == if Successes(outs[FirstSuccess(outs) + 1..]) >= |s.pages| then Done(AllRows(s)) else Stalled
  {
    if outs == [] {
    } else if outs[0] {
      PageLoopResult(s, outs[1..], [], 1, |s.pages|, depth);
      assert Stacked(s, 1, |s.pages|) + [] == AllRows(s);
    } else {
      FetchFromScratch(s, outs[1..], depth - 1);
      assert true in outs ==> true in outs[1..];
    }
  }

  /**
   * The recursion limit only ever aborts: a fetch that does not overflow
   * with `d` frames gives the same outcome with any `e >= d`.
   */
  lemma {:induction false} FetchDepth<R>(s: Server<R>, outs: seq<bool>, raw: seq<R>, cur: int, n: nat, d: nat, e: nat)
    requires d <= e
    ensures Fetch(s, outs, raw, cur, n, d) == TooDeep || Fetch(s, outs, raw, cur, n, d) == Fetch(s, outs, raw, cur, n, e)
    decreases |outs|, 1
  {
    if n != 0 {
      PageLoopDepth(s, outs, raw, cur, n, d, e);
    } else if outs != [] && outs[0] {
      PageLoopDepth(s, outs[1..], raw, cur, |s.pages|, d, e);
    } else if outs != [] && d > 0 {
      FetchDepth(s, outs[1..], [], 1, 0, d - 1, e - 1);
    }
  }

  lemma {:induction false} PageLoopDepth<R>(s: Server<R>, outs: seq<bool>, raw: seq<R>, cur: int, n: nat, d: nat, e: nat)
    requires d <= e
    ensures PageLoop(s, outs, raw, cur, n, d) == TooDeep || PageLoop(s, outs, raw, cur, n, d) == PageLoop(s, outs, raw, cur, n, e)
    decreases |outs|, 0
  {
    if cur <= n && outs != [] {
      if outs[0] {
        PageLoopDepth(s, outs[1..], PageData(s, cur) + raw, cur + 1, n, d, e);
      } else if d > 0 {
        FetchDepth(s, outs[1..], raw, cur, n, d - 1, e - 1);
      }
    }
  }

  /** The stacked pages are the pages concatenated from the last to the first. */
  lemma {:induction false} StackedIsReverseFlatten<R>(s: Server<R>, n: nat)
    requires n <= |s.pages|
    ensures Stacked(s, 1, n) == ReverseFlatten(s.pages[..n])
  {
    if n > 0 {
      StackedIsReverseFlatten(s, n - 1);
      assert s.pages[..n][..n - 1] == s.pages[..n - 1];
    }
  }

  /**
   * Whatever failures occur, a fetch that finishes returns every page's rows
   * exactly once, the last page first: no page is lost or repeated by a retry.
   */
  lemma FetchIsFailureTransparent<R>(s: Server<R>, outs: seq<bool>, depth: nat, rows: seq<R>)
    requires Fetch(s, outs, [], 1, 0, depth) == Done(rows)
    ensures rows == ReverseFlatten(s.pages)
  {
    FetchDepth(s, outs, [], 1, 0, depth, depth + |outs|);
    FetchFromScratch(s, outs, depth + |outs|);
    StackedIsReverseFlatten(s, |s.pages|);
    assert s.pages[..|s.pages|] == s.pages;
  }

  /** A script with no failure and one reply per request completes, at any depth. */
  lemma FaultFreeFetch<R>(s: Server<R>, outs: seq<bool>, depth: nat)
    requires |outs| == |s.pages| + 1 && forall i | 0 <= i < |outs| :: outs[i]
    ensures Fetch(s, outs, [], 1, 0, depth) == Done(ReverseFlatten(s.pages))
  {
    AllTrueSuccesses(outs);
    FetchFromScratch(s, outs, depth);
    AllTrueSuccesses(outs[1..]);
    StackedIsReverseFlatten(s, |s.pages|);
    assert s.pages[..|s.pages|] == s.pages;
  }

  lemma {:induction false} AllTrueSuccesses(outs: seq<bool>)
    requires forall i | 0 <= i < |outs| :: outs[i]
    ensures Successes(outs) == |outs| && Failures(outs) == 0
  {
    if outs != [] {
      AllTrueSuccesses(outs[1..]);
    }
  }

  /** `k` failed discoveries in a row use up `k` frames, or overflow when there are fewer. */
  lemma {:induction false} FailedDiscoveries<R>(s: Server<R>, k: nat, tail: seq<bool>, depth: nat)
    ensures Fetch(s, seq(k, _ => false) + tail, [], 1, 0, depth)
         == if k > depth then TooDeep else Fetch(s, tail, [], 1, 0, depth - k)
  {
    if k > 0 {
      var outs := seq(k, _ => false) + tail;
      assert outs[1..] == seq(k - 1, _ => false) + tail;
      if depth > 0 {
        FailedDiscoveries(s, k - 1, tail, depth - 1);
      }
    } else {
      assert seq(k, _ => false) + tail == tail;
    }
  }

  /**
   * Retries are not free: `depth + 1` failed discoveries followed by a clean
   * run overflow the stack, although one frame more completes the fetch.
   */
  lemma RecursionLimitBites<R>(s: Server<R>, depth: nat)
    ensures Fetch(s, seq(depth + 1, _ => false) + seq(|s.pages| + 1, _ => true), [], 1, 0, depth) == TooDeep
    ensures Fetch(s, seq(depth + 1, _ => false) + seq(|s.pages| + 1, _ => true), [], 1, 0, depth + 1)
         == Done(ReverseFlatten(s.pages))
  {
    var clean := seq(|s.pages| + 1, _ => true);
    FailedDiscoveries(s, depth + 1, clean, depth);
    FailedDiscoveries(s, depth + 1, clean, depth + 1);
    FaultFreeFetch(s, clean, 0);
  }

  /**
   * The fetch as the source runs it: discovery when `n == 0`, then a loop
   * over the pages; each `KeyError` re-enters the fetch recursively, one
   * frame deeper.
   */
  method GetData<R>(s: Server<R>, outs: seq<bool>, raw: seq<R>, cur: int, n: nat, depth: nat) returns (r: Outcome<R>)
    ensures r == Fetch(s, outs, raw, cur, n, depth)
    decreases |outs|, 1
  {
    var attempts := outs;
    var numPages := n;
    if numPages == 0 {
      if attempts == [] {
        return Stalled;
      }
      if !attempts[0] {
        if depth == 0 {
          return TooDeep;
        }
        r := GetData(s, attempts[1..], [], 1, 0, depth - 1);
        return;
      }
      numPages := |s.pages|;
      attempts := attempts[1..];
    }
    var acc := raw;
    var page := cur;
    while page <= numPages
      invariant |attempts| <= |outs|
      invariant PageLoop(s, attempts, acc, page, numPages, depth) == Fetch(s, outs, raw, cur, n, depth)
      decreases numPages - page
    {
      if attempts == [] {
        return Stalled;
      }
      if !attempts[0] {
        if depth == 0 {
          return TooDeep;
        }
        r := GetData(s, attempts[1..], acc, page, numPages, depth - 1);
        return;
      }
      acc := PageData(s, page) + acc;
      attempts := attempts[1..];
      page := page + 1;
    }
    r := Done(acc);
  }
}
