/** The weekly batches of `update_all` (backend/update_data.py): the range
    from the stored checkpoint to `until` is cut into windows of at most
    seven days, each window runs every update step, and the checkpoint is
    written only when all of them return. Dates are day numbers. */
module Batches {
  /** One batch: `batch_since` and `batch_until` as day numbers. */
  datatype Window = Window(start: int, end: int)

  function Min(a: int, b: int): int {
    if a <= b then a else b
  }

  /** The number of values `range(0, days, 7)` produces. */
  function WindowCount(since: int, until: int): nat {
    if until - since <= 0 then 0 else (until - since + 6) / 7
  }

  /** The `k`-th window: it starts `7k` days after `since` and ends seven
      days later or at `until`, whichever comes first. */
  function WindowAt(since: int, until: int, k: int): Window {
    Window(since + 7 * k, Min(since + 7 * k + 7, until))
  }

  function Windows(since: int, until: int): (ws: seq<Window>)
    ensures |ws| == WindowCount(since, until)
  {
    seq(WindowCount(since, until), k => WindowAt(since, until, k))
  }

  /** There are no windows for an empty or reversed range, otherwise the
      first starts at `since`, each ends where the next starts, and the last
      ends at `until`; every window is non-empty and at most seven days long. */
  lemma WindowsShape(since: int, until: int)
    ensures until <= since <==> Windows(since, until) == []
    ensures since < until ==> Windows(since, until)[0].start == since
    ensures since < until ==> Windows(since, until)[|Windows(since, until)| - 1].end == until
    ensures forall k :: 0 <= k < |Windows(since, until)| - 1 ==>
      Windows(since, until)[k].end == Windows(since, until)[k + 1].start
    ensures forall k :: 0 <= k < |Windows(since, until)| ==>
      Windows(since, until)[k].start < Windows(since, until)[k].end <= Windows(since, until)[k].start + 7
  {
    var n := WindowCount(since, until);
    if since < until {
      assert 7 * (n - 1) < until - since <= 7 * n;
    }
    forall k | 0 <= k < n
      ensures since + 7 * k < until
    {
      assert k <= n - 1;
      assert 7 * k <= 7 * (n - 1);
    }
    forall k | 0 <= k < n - 1
      ensures since + 7 * k + 7 <= until
    {
      assert k + 1 <= n - 1;
      assert 7 * (k + 1) <= 7 * (n - 1);
    }
  }

  /** Every day of the range lies in exactly one window. */
  lemma WindowsCover(since: int, until: int, d: int)
    requires since <= d < until
    ensures exists k :: 0 <= k < |Windows(since, until)| && Windows(since, until)[k].start <= d < Windows(since, until)[k].end
    ensures forall k :: 0 <= k < |Windows(since, until)| && Windows(since, until)[k].start <= d < Windows(since, until)[k].end ==>
      k == (d - since) / 7
  {
    var k := (d - since) / 7;
    var n := WindowCount(since, until);
    assert 7 * k <= d - since < 7 * k + 7;
    assert k < n by {
      assert 7 * k < until - since;
      assert 7 * (n - 1) < until - since <= 7 * n;
    }
    assert Windows(since, until)[k].start <= d < Windows(since, until)[k].end;
    forall j | 0 <= j < n && Windows(since, until)[j].start <= d < Windows(since, until)[j].end
      ensures j == k
    {
      assert 7 * j <= d - since < 7 * j + 7;
    }
  }

  /** The checkpoint after running `ws` from `c0`: the end of the last
      window that succeeded, `c0` when none did. */
  function Checkpoint(c0: int, ws: seq<Window>, succeeds: Window -> bool): int {
    if ws == [] then c0
    else if succeeds(ws[|ws| - 1]) then ws[|ws| - 1].end
    else Checkpoint(c0, ws[..|ws| - 1], succeeds)
  }

  /** The checkpoint only ever moves to the end of a window that succeeded. */
  lemma {:induction false} CheckpointSucceeded(c0: int, ws: seq<Window>, succeeds: Window -> bool)
    ensures Checkpoint(c0, ws, succeeds) == c0 ||
      exists k :: 0 <= k < |ws| && succeeds(ws[k]) && Checkpoint(c0, ws, succeeds) == ws[k].end
  {
    if ws != [] && !succeeds(ws[|ws| - 1]) {
      CheckpointSucceeded(c0, ws[..|ws| - 1], succeeds);
      var r := Checkpoint(c0, ws, succeeds);
      if r != c0 {
        var k :| 0 <= k < |ws| - 1 && succeeds(ws[..|ws| - 1][k]) && r == ws[..|ws| - 1][k].end;
        assert ws[k] == ws[..|ws| - 1][k];
      }
    }
  }

  /** When no window succeeds the checkpoint stays where it was. */
  lemma {:induction false} CheckpointNoneSucceeded(c0: int, ws: seq<Window>, succeeds: Window -> bool)
    requires forall k :: 0 <= k < |ws| ==> !succeeds(ws[k])
    ensures Checkpoint(c0, ws, succeeds) == c0
  {
    if ws != [] {
      CheckpointNoneSucceeded(c0, ws[..|ws| - 1], succeeds);
    }
  }

  /** When every batch succeeds the checkpoint reaches `until`; it does so
      whenever the last batch succeeds, even if an earlier one failed and
      is then never run again. */
  lemma LastSucceeds(since: int, until: int, succeeds: Window -> bool)
    requires since < until
    requires succeeds(Windows(since, until)[|Windows(since, until)| - 1])
    ensures Checkpoint(since, Windows(since, until), succeeds) == until
  {
    WindowsShape(since, until);
  }

  /** The batch loop: every window is attempted in order, whatever the
      outcome of the earlier ones, and `update_now_date(batch_until)` runs
      only when every step of the batch returned. */
  method UpdateAll(since: int, until: int, succeeds: Window -> bool)
    returns (attempted: seq<Window>, checkpoint: int)
    ensures attempted == Windows(since, until)
    ensures checkpoint == Checkpoint(since, attempted, succeeds)
  {
    checkpoint := since;
    attempted := [];
    var days := until - since;
    var i := 0;
    ghost var n := 0;
    while i < days
      invariant i == 7 * n && 0 <= n
      invariant n > 0 ==> 7 * (n - 1) < days
      invariant n <= WindowCount(since, until)
      invariant attempted == Windows(since, until)[..n]
      invariant checkpoint == Checkpoint(since, attempted, succeeds)
      decreases days - i
    {
      var batch := Window(since + i, Min(since + i + 7, until));
      assert n < WindowCount(since, until) by {
        assert 7 * n < days;
      }
      assert batch == Windows(since, until)[n];
      attempted := attempted + [batch];
      if succeeds(batch) {
        checkpoint := batch.end;
      }
      assert attempted[..|attempted| - 1] == Windows(since, until)[..n];
      i := i + 7;
      n := n + 1;
    }
    assert n == WindowCount(since, until) by {
      if n > 0 {
        assert 7 * (n - 1) < days <= 7 * n;
      }
    }
  }
}
