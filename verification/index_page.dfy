/**
 * The two pieces of integer logic on the page (pages/index.tsx): the
 * `DebugLayout` sanity check, which flags spans that overlap the span before
 * them in their row or end before they start, and the colour-bucket index
 * that `setupCanvas` attaches to every span it draws.
 */
module IndexPage {
  import opened Wrappers
  import opened Events

  /** Why `DebugLayout` flags a span; the message text is not modelled, only what it reports. */
  datatype Flag =
    | OverlapsPrevious(start: Timestamp, previousEnd: Timestamp)
    | EndBeforeStart

  // ---------------------------------------------------------------------
  // DebugLayout
  // ---------------------------------------------------------------------

  /** The `ts` the span at position `j` is compared with: -1 for the first span of a row, else the end of the span before it. */
  function PreviousEnd(row: seq<Span>, j: nat): Timestamp
    requires j < |row|
  {
    if j == 0 then -1 else row[j - 1].interval.end
  }

  /** What `DebugLayout` records for position `j` of `row`; the end-before-start message overwrites the overlap one. */
  function FlagAt(row: seq<Span>, j: nat): (f: Option<Flag>)
    requires j < |row|
    ensures f.Some? <==> row[j].interval.end < row[j].interval.start || row[j].interval.start < PreviousEnd(row, j)
    ensures f == Some(EndBeforeStart) <==> row[j].interval.end < row[j].interval.start
  {
    var iv := row[j].interval;
    if iv.end < iv.start then Some(EndBeforeStart)
    else if iv.start < PreviousEnd(row, j) then Some(OverlapsPrevious(iv.start, PreviousEnd(row, j)))
    else None
  }

  /**
   * The flagging loop of `DebugLayout`: `bad` holds a flag for exactly the
   * positions `(i, j)` (row, place in row) whose span ends before it starts
   * or starts before the previous span of the same row ends, the running
   * `ts` being reset to -1 at every row.
   */
  method DebugFlags(rows: seq<seq<Span>>) returns (bad: map<(nat, nat), Flag>)
    ensures forall i, j :: (i, j) in bad <==> 0 <= i < |rows| && 0 <= j < |rows[i]| && FlagAt(rows[i], j).Some?
    ensures forall i, j :: (i, j) in bad ==> 0 <= i < |rows| && 0 <= j < |rows[i]| && bad[(i, j)] == FlagAt(rows[i], j).value
  {
    bad := map[];
    for i := 0 to |rows|
      invariant forall r, j :: (r, j) in bad <==> 0 <= r < i && 0 <= j < |rows[r]| && FlagAt(rows[r], j).Some?
      invariant forall r, j :: (r, j) in bad ==> 0 <= r < i && 0 <= j < |rows[r]| && bad[(r, j)] == FlagAt(rows[r], j).value
    {
      var row := rows[i];
      var ts := -1;
      for j := 0 to |row|
        invariant ts == if j == 0 then -1 else row[j - 1].interval.end
        invariant forall r, k :: (r, k) in bad <==>
                    (0 <= r < i && 0 <= k < |rows[r]| && FlagAt(rows[r], k).Some?) || (r == i && 0 <= k < j && FlagAt(row, k).Some?)
        invariant forall r, k :: (r, k) in bad ==>
                    (0 <= r < i && 0 <= k < |rows[r]| && bad[(r, k)] == FlagAt(rows[r], k).value) ||
                    (r == i && 0 <= k < j && bad[(r, k)] == FlagAt(row, k).value)
      {
        var span := row[j];
        if span.interval.start < ts {
          bad := bad[(i, j) := OverlapsPrevious(span.interval.start, ts)];
        }
        if span.interval.end < span.interval.start {
          bad := bad[(i, j) := EndBeforeStart];
        }
        ts := span.interval.end;
      }
    }
  }

  /** Every span of `row` ends no earlier than it starts, starts at -1 or later, and ends before every later span starts. */
  ghost predicate Ordered(row: seq<Span>)
  {
    && (forall j :: 0 <= j < |row| ==> -1 <= row[j].interval.start <= row[j].interval.end)
    && (forall j, k :: 0 <= j < k < |row| ==> row[j].interval.end <= row[k].interval.start)
  }

  /**
   * A row draws no flag exactly when it is `Ordered`: comparing each span
   * with its predecessor only is enough, because a clean span never ends
   * before it starts.
   */
  lemma {:induction false} CleanIffOrdered(row: seq<Span>)
    ensures (forall j :: 0 <= j < |row| ==> FlagAt(row, j) == None) <==> Ordered(row)
  {
    if forall j :: 0 <= j < |row| ==> FlagAt(row, j) == None {
      CleanChain(row, |row|);
    }
    if Ordered(row) {
      forall j | 0 <= j < |row| ensures FlagAt(row, j) == None {
        if j > 0 {
          assert row[j - 1].interval.end <= row[j].interval.start;
        }
      }
    }
  }

  /** Induction for `CleanIffOrdered`: the first `n` spans of a clean row are `Ordered`. */
  lemma {:induction false} CleanChain(row: seq<Span>, n: nat)
    requires n <= |row|
    requires forall j :: 0 <= j < |row| ==> FlagAt(row, j) == None
    ensures Ordered(row[..n])
  {
    if n == 0 {
      return;
    }
    CleanChain(row, n - 1);
    var pre, prev := row[..n - 1], row[..n];
    assert FlagAt(row, n - 1) == None;
    forall j | 0 <= j < n ensures -1 <= prev[j].interval.start <= prev[j].interval.end {
      assert prev[j] == row[j] && FlagAt(row, j) == None;
    }
    forall j, k | 0 <= j < k < n ensures prev[j].interval.end <= prev[k].interval.start {
      if k < n - 1 {
        assert prev[j] == pre[j] && prev[k] == pre[k];
      } else if j < n - 2 {
        assert pre[j].interval.end <= pre[n - 2].interval.start <= pre[n - 2].interval.end;
        assert row[n - 2].interval.end <= row[n - 1].interval.start;
      } else {
        assert row[n - 2].interval.end <= row[n - 1].interval.start;
      }
    }
  }

  /**
   * Only neighbours are compared: in a row holding 0..10, 1..2 and 3..4 the
   * second span is flagged, but the third is not, although it lies inside
   * the first.
   */
  lemma OnlyNeighboursCompared(a: Span, b: Span, c: Span)
    requires a.interval == Interval(0, 10) && b.interval == Interval(1, 2) && c.interval == Interval(3, 4)
    ensures FlagAt([a, b, c], 1) == Some(OverlapsPrevious(1, 10))
    ensures FlagAt([a, b, c], 2) == None
    ensures !Ordered([a, b, c])
  {
    assert [a, b, c][0].interval.end > [a, b, c][2].interval.start;
  }

  /** An open span (end -1) started at or after time 0 is always flagged for ending before it starts. */
  lemma OpenSpanFlagged(row: seq<Span>, j: nat)
    requires j < |row| && row[j].interval.end == Open && 0 <= row[j].interval.start
    ensures FlagAt(row, j) == Some(EndBeforeStart)
  {
  }

  // ---------------------------------------------------------------------
  // Colour buckets
  // ---------------------------------------------------------------------

  /** The number of spans in all rows. */
  function TotalSpans(rows: seq<seq<Span>>): nat
  {
    if rows == [] then 0 else TotalSpans(rows[..|rows| - 1]) + |rows[|rows| - 1]|
  }

  /** `TotalSpans` adds up over concatenated row lists. */
  lemma {:induction false} TotalSpansAppend(a: seq<seq<Span>>, b: seq<seq<Span>>)
    ensures TotalSpans(a + b) == TotalSpans(a) + TotalSpans(b)
  {
    if b != [] {
      assert (a + b)[..|a + b| - 1] == a + b[..|b| - 1];
      TotalSpansAppend(a, b[..|b| - 1]);
    } else {
      assert a + b == a;
    }
  }

  /**
   * The bucket of the `processed`-th span: `processed * 255 / totalSpans`
   * rounded down (the operands are non-negative, so JavaScript's
   * `Math.floor` of the quotient is integer division).
   */
  function ColorBucket(processed: nat, totalSpans: nat): (b: int)
    requires processed < totalSpans
    ensures 0 <= b <= 254
  {
    BucketBelow(processed, totalSpans);
    processed * 255 / totalSpans
  }

  /** The arithmetic behind `ColorBucket`'s range. */
  lemma BucketBelow(processed: nat, totalSpans: nat)
    requires processed < totalSpans
    ensures 0 <= processed * 255 / totalSpans <= 254
  {
    var q := processed * 255 / totalSpans;
    assert processed * 255 <= (totalSpans - 1) * 255 == totalSpans * 255 - 255;
    assert totalSpans * q <= processed * 255;
    CancelFactor(totalSpans, q, 255);
  }

  /** A positive factor can be cancelled from a strict inequality. */
  lemma CancelFactor(t: int, x: int, y: int)
    requires t > 0 && t * x < t * y
    ensures x < y
  {
  }

  /** Buckets never decrease as `processed` grows. */
  lemma BucketMonotone(j: nat, k: nat, totalSpans: nat)
    requires j <= k < totalSpans
    ensures ColorBucket(j, totalSpans) <= ColorBucket(k, totalSpans)
  {
    var a, b := j * 255, k * 255;
    var qa, qb := a / totalSpans, b / totalSpans;
    assert totalSpans * qa <= a <= b < totalSpans * qb + totalSpans == totalSpans * (qb + 1);
    CancelFactor(totalSpans, qa, qb + 1);
  }

  /** The `forEach` of `setupCanvas` that sums the row lengths into `totalSpans`. */
  method CountSpans(rows: seq<seq<Span>>) returns (totalSpans: nat)
    ensures totalSpans == TotalSpans(rows)
  {
    totalSpans := 0;
    for i := 0 to |rows|
      invariant totalSpans == TotalSpans(rows[..i])
    {
      assert rows[..i + 1][..i] == rows[..i];
      totalSpans := totalSpans + |rows[i]|;
    }
    assert rows[..|rows|] == rows;
  }

  /**
   * The bucket loops of `setupCanvas`: `totalSpans` is summed over the
   * rows, then every span in row-major order gets the bucket of the number
   * of spans before it. Buckets stay within 0..254 and never decrease.
   */
  method ColorBuckets(rows: seq<seq<Span>>) returns (totalSpans: nat, buckets: seq<int>)
    ensures totalSpans == TotalSpans(rows) && |buckets| == totalSpans
    ensures forall k :: 0 <= k < |buckets| ==> buckets[k] == ColorBucket(k, totalSpans)
    ensures forall k :: 0 <= k < |buckets| ==> 0 <= buckets[k] <= 254
    ensures forall j, k :: 0 <= j <= k < |buckets| ==> buckets[j] <= buckets[k]
  {
    totalSpans := CountSpans(rows);
    var spansProcessed := 0;
    buckets := [];
    for i := 0 to |rows|
      invariant spansProcessed == TotalSpans(rows[..i]) == |buckets| <= totalSpans
      invariant forall k :: 0 <= k < |buckets| ==> buckets[k] == ColorBucket(k, totalSpans)
    {
      var row := rows[i];
      assert rows[..i + 1][..i] == rows[..i];
      assert rows[..i + 1] + rows[i + 1..] == rows;
      TotalSpansAppend(rows[..i + 1], rows[i + 1..]);
      assert TotalSpans(rows[..i + 1]) == TotalSpans(rows[..i]) + |row|;
      for j := 0 to |row|
        invariant spansProcessed == TotalSpans(rows[..i]) + j == |buckets|
        invariant forall k :: 0 <= k < |buckets| ==> buckets[k] == ColorBucket(k, totalSpans)
      {
        var colorBucket := spansProcessed * 255 / totalSpans;
        buckets := buckets + [colorBucket];
        spansProcessed := spansProcessed + 1;
      }
    }
    assert rows[..|rows|] == rows;
    forall j, k | 0 <= j <= k < |buckets| ensures buckets[j] <= buckets[k] {
      BucketMonotone(j, k, totalSpans);
    }
  }
}
