/**
 * The layout pass of lib/layout.ts: a 2-D overlap test between layout
 * rectangles, the per-span local layout (still a stub that only checks its
 * children were laid out first), and the leaves-before-parents traversal
 * that computes a local layout for every span of a trace using per-parent
 * counters of children not yet processed and the work `Queue`.
 */
module Layout {
  import opened Wrappers
  import opened Events
  import WorkQueue

  /** A span's placement inside its parent: a time interval and a band of rows `[row, row + height)`. */
  datatype LayoutRect = LayoutRect(interval: Interval, row: int, height: int)

  /** A span's layout of its own children, keyed by child handle. */
  datatype LocalLayout = LocalLayout(totalHeight: int, children: map<nat, LayoutRect>)

  datatype LayoutError = MissingChildLayout(child: nat)

  /** `a` covers the cell at time `t` (closed interval) and row `r` (half-open band). */
  predicate Covers(a: LayoutRect, t: int, r: int)
  {
    a.interval.start <= t <= a.interval.end && a.row <= r < a.row + a.height
  }

  /** A rectangle with at least one row and an interval that does not end before it starts. */
  predicate Proper(a: LayoutRect)
  {
    a.height >= 1 && a.interval.start <= a.interval.end
  }

  /**
   * The overlap test: neither interval ends before the other starts, and
   * neither band ends at or before the other begins. Two rectangles that
   * cover a common cell overlap; for proper rectangles the converse holds,
   * the common cell being the later start and the higher first row. A
   * degenerate rectangle (height 0, or an interval ending before it starts)
   * covers no cell and may still overlap (see `DegenerateOverlap`).
   */
  predicate Overlaps(a: LayoutRect, b: LayoutRect)
    ensures Overlaps(a, b) <==>
              && a.interval.start <= b.interval.end && b.interval.start <= a.interval.end
              && a.row < b.row + b.height && b.row < a.row + a.height
    ensures forall t, r :: Covers(a, t, r) && Covers(b, t, r) ==> Overlaps(a, b)
    ensures Proper(a) && Proper(b) && Overlaps(a, b) ==>
              var t := if a.interval.start < b.interval.start then b.interval.start else a.interval.start;
              var r := if a.row < b.row then b.row else a.row;
              Covers(a, t, r) && Covers(b, t, r)
  {
    var left := a.interval.end < b.interval.start;
    var right := b.interval.end < a.interval.start;
    var up := a.row + a.height <= b.row;
    var down := b.row + b.height <= a.row;
    !(left || right || up || down)
  }

  /** For proper rectangles, overlapping is exactly sharing a cell. */
  lemma OverlapsIffCommonCell(a: LayoutRect, b: LayoutRect)
    requires Proper(a) && Proper(b)
    ensures Overlaps(a, b) <==> exists t, r :: Covers(a, t, r) && Covers(b, t, r)
  {
    if Overlaps(a, b) {
      var t := if a.interval.start < b.interval.start then b.interval.start else a.interval.start;
      var r := if a.row < b.row then b.row else a.row;
      assert Covers(a, t, r) && Covers(b, t, r);
    }
  }

  /**
   * Degenerate rectangles cover no cell yet can overlap: an empty band
   * `[5, 5)` inside the band `[3, 8)`, and an open span's interval `[5, -1]`
   * against `[-5, 10]`.
   */
  lemma DegenerateOverlap()
    ensures var a, b := LayoutRect(Interval(0, 10), 5, 0), LayoutRect(Interval(0, 10), 3, 5);
            (forall t, r :: !Covers(a, t, r)) && Overlaps(a, b)
    ensures var a, b := LayoutRect(Interval(5, -1), 0, 1), LayoutRect(Interval(-5, 10), 0, 1);
            (forall t, r :: !Covers(a, t, r)) && Overlaps(a, b)
  {
  }

  lemma OverlapsSymmetric(a: LayoutRect, b: LayoutRect)
    ensures Overlaps(a, b) == Overlaps(b, a)
  {
  }

  /** When one interval ends exactly where the other starts, only the rows decide. */
  lemma TouchingIntervalsOverlap(a: LayoutRect, b: LayoutRect)
    requires a.interval.start <= a.interval.end == b.interval.start <= b.interval.end
    ensures Overlaps(a, b) <==> a.row < b.row + b.height && b.row < a.row + a.height
  {
  }

  /** A band ending where the other begins does not overlap it. */
  lemma AdjacentBandsDisjoint(a: LayoutRect, b: LayoutRect)
    requires a.row + a.height == b.row
    ensures !Overlaps(a, b) && !Overlaps(b, a)
  {
  }

  /** A rectangle of positive height and a proper interval overlaps itself. */
  lemma OverlapsItself(a: LayoutRect)
    requires a.height >= 1 && a.interval.start <= a.interval.end
    ensures Overlaps(a, a)
  {
  }

  /**
   * A rectangle of height 0 does not overlap itself, and overlaps another
   * only when its row lies strictly inside the other's band.
   */
  lemma ZeroHeightOverlap(a: LayoutRect, b: LayoutRect)
    requires a.height == 0
    ensures !Overlaps(a, a)
    ensures Overlaps(a, b) ==> b.row < a.row < b.row + b.height
    ensures (&& a.interval.start <= b.interval.end && b.interval.start <= a.interval.end
             && b.row < a.row < b.row + b.height) ==> Overlaps(a, b)
  {
  }

  /**
   * The local layout of `span` as the source computes it today: it fails
   * on the first child that has no layout yet; otherwise the span takes
   * one row and places no children.
   */
  method ComputeLocalLayout(span: Span, layouts: map<nat, LocalLayout>) returns (r: Result<LocalLayout, LayoutError>)
    ensures r.Failure? <==> exists k :: 0 <= k < |span.children| && span.children[k] !in layouts
    ensures r.Failure? ==> exists k :: 0 <= k < |span.children| && r.error == MissingChildLayout(span.children[k]) &&
                              span.children[k] !in layouts &&
                              forall j :: 0 <= j < k ==> span.children[j] in layouts
    ensures r.Success? ==> r.value == LocalLayout(1, map[])
  {
    var layout := LocalLayout(1, map[]);
    for i := 0 to |span.children|
      invariant forall j :: 0 <= j < i ==> span.children[j] in layouts
    {
      var child := span.children[i];
      if child !in layouts {
        return Failure(MissingChildLayout(child));
      }
    }
    return Success(layout);
  }

  // ---------------------------------------------------------------------
  // Counting the children still to be processed

  /** How many entries of `cs` are not in `done`. */
  function Remaining(cs: seq<nat>, done: set<nat>): nat
  {
    if cs == [] then 0 else Remaining(cs[1..], done) + (if cs[0] in done then 0 else 1)
  }

  /** Nothing remains exactly when every entry is done. */
  lemma {:induction false} RemainingZero(cs: seq<nat>, done: set<nat>)
    ensures Remaining(cs, done) == 0 <==> forall k :: 0 <= k < |cs| ==> cs[k] in done
  {
    if cs != [] {
      RemainingZero(cs[1..], done);
      assert forall k :: 1 <= k < |cs| ==> cs[k] == cs[1..][k - 1];
    }
  }

  /** With nothing done, every entry remains. */
  lemma {:induction false} RemainingNoneDone(cs: seq<nat>)
    ensures Remaining(cs, {}) == |cs|
  {
    if cs != [] {
      RemainingNoneDone(cs[1..]);
    }
  }

  /** Finishing `x` lowers the count of a duplicate-free list by one exactly when `x` is in it. */
  lemma {:induction false} RemainingFinish(cs: seq<nat>, done: set<nat>, x: nat)
    requires x !in done
    requires forall i, j :: 0 <= i < j < |cs| ==> cs[i] != cs[j]
    ensures Remaining(cs, done + {x}) == Remaining(cs, done) - (if x in cs then 1 else 0)
  {
    if cs != [] {
      assert forall i, j :: 0 <= i < j < |cs[1..]| ==> cs[1..][i] != cs[1..][j] by {
        forall i, j | 0 <= i < j < |cs[1..]| ensures cs[1..][i] != cs[1..][j] {
          assert cs[1..][i] == cs[i + 1] && cs[1..][j] == cs[j + 1];
        }
      }
      RemainingFinish(cs[1..], done, x);
      assert x in cs <==> x == cs[0] || x in cs[1..];
      if x == cs[0] {
        assert forall k :: 0 <= k < |cs[1..]| ==> cs[1..][k] == cs[k + 1] && cs[k + 1] != cs[0];
      }
    }
  }

  // ---------------------------------------------------------------------
  // The traversal invariant

  /** The handles `0 .. n-1`. */
  function HandleSet(n: nat): (s: set<nat>)
    ensures forall h: int :: h in s <==> 0 <= h < n
    ensures |s| == n
  {
    if n == 0 then {} else
      var s := HandleSet(n - 1);
      assert n - 1 !in s;
      s + {n - 1}
  }

  /**
   * The state of the traversal: `done` holds the spans already dequeued
   * and laid out, `queue` the spans waiting in the work queue, and
   * `remaining` the counter of each span with children. Every counter is
   * the number of that span's children not yet dequeued, and a span is
   * done or queued exactly when that number is zero; no span is queued
   * twice or queued after it is done.
   */
  ghost predicate Frontier(spans: seq<Span>, done: set<nat>, queue: seq<nat>, remaining: map<nat, int>)
  {
    && (forall h :: h in done ==> h < |spans|)
    && (forall k :: 0 <= k < |queue| ==> queue[k] < |spans| && queue[k] !in done)
    && (forall i, j :: 0 <= i < j < |queue| ==> queue[i] != queue[j])
    && (forall h :: 0 <= h < |spans| && spans[h].children != [] ==>
          h in remaining && remaining[h] == Remaining(spans[h].children, done))
    && (forall h :: 0 <= h < |spans| ==> (h in done || h in queue <==> Remaining(spans[h].children, done) == 0))
  }

  /** In a linked arena, `x` is among the children of `h` exactly when `h` is its parent. */
  lemma ChildOf(spans: seq<Span>, roots: seq<nat>, h: nat, x: nat)
    requires Linked(spans, roots) && h < |spans| && x < |spans|
    ensures x in spans[h].children <==> spans[x].parent == Some(h)
    ensures forall i, j :: 0 <= i < j < |spans[h].children| ==> spans[h].children[i] != spans[h].children[j]
  {
    assert ChildrenLinked(spans, h) && ParentLinked(spans, x);
  }

  /** The head of the queue is ready: all its children are done, and its parent is still waiting for it. */
  lemma HeadReady(spans: seq<Span>, roots: seq<nat>, done: set<nat>, queue: seq<nat>, remaining: map<nat, int>)
    requires Linked(spans, roots) && Frontier(spans, done, queue, remaining) && queue != []
    ensures forall k :: 0 <= k < |spans[queue[0]].children| ==> spans[queue[0]].children[k] in done
    ensures spans[queue[0]].parent.Some? ==>
              var q := spans[queue[0]].parent.value;
              q < |spans| && q in remaining && remaining[q] >= 1
  {
    var p := queue[0];
    assert p in queue;
    RemainingZero(spans[p].children, done);
    if spans[p].parent.Some? {
      var q := spans[p].parent.value;
      assert ParentLinked(spans, p);
      ChildOf(spans, roots, q, p);
      RemainingFinish(spans[q].children, done, p);
    }
  }

  /** Finishing `p` lowers the count of its parent, and of no other span, by one. */
  lemma FinishCounts(spans: seq<Span>, roots: seq<nat>, done: set<nat>, p: nat)
    requires Linked(spans, roots) && p < |spans| && p !in done
    ensures forall h :: 0 <= h < |spans| ==>
              Remaining(spans[h].children, done + {p}) ==
              Remaining(spans[h].children, done) - (if spans[p].parent == Some(h) then 1 else 0)
  {
    forall h | 0 <= h < |spans|
      ensures Remaining(spans[h].children, done + {p}) ==
              Remaining(spans[h].children, done) - (if spans[p].parent == Some(h) then 1 else 0)
    {
      ChildOf(spans, roots, h, p);
      RemainingFinish(spans[h].children, done, p);
    }
  }

  /**
   * One step of the traversal on the queue and the counters: the head
   * leaves the queue; if it has a parent, the parent's counter drops by one
   * and the parent is enqueued at the tail when the counter reaches zero.
   */
  ghost predicate Advanced(spans: seq<Span>, queue: seq<nat>, remaining: map<nat, int>,
                           queue': seq<nat>, remaining': map<nat, int>)
  {
    && queue != [] && queue[0] < |spans|
    && match spans[queue[0]].parent
       case None => queue' == queue[1..] && remaining' == remaining
       case Some(q) =>
         && q in remaining && remaining' == remaining[q := remaining[q] - 1]
         && queue' == queue[1..] + (if remaining'[q] == 0 then [q] else [])
  }

  /** Dequeuing the head, marking it done and decrementing its parent's counter keeps the invariant. */
  lemma FrontierStep(spans: seq<Span>, roots: seq<nat>, done: set<nat>, queue: seq<nat>, remaining: map<nat, int>,
                     queue': seq<nat>, remaining': map<nat, int>)
    requires Linked(spans, roots) && Frontier(spans, done, queue, remaining) && queue != []
    requires Advanced(spans, queue, remaining, queue', remaining')
    ensures Frontier(spans, done + {queue[0]}, queue', remaining')
  {
    var p := queue[0];
    assert p in queue;
    FinishCounts(spans, roots, done, p);
    var parent: Option<nat> := None;
    if spans[p].parent.Some? {
      var q := spans[p].parent.value;
      assert ParentLinked(spans, p);
      parent := Some(q);
    }
    StepQueue(spans, done, queue, remaining, queue', remaining', parent);
    StepCounts(spans, done, queue, remaining, queue', remaining', parent);
  }

  /** The queue part of `FrontierStep`. */
  lemma StepQueue(spans: seq<Span>, done: set<nat>, queue: seq<nat>, remaining: map<nat, int>,
                  queue': seq<nat>, remaining': map<nat, int>, parent: Option<nat>)
    requires Frontier(spans, done, queue, remaining) && queue != []
    requires parent == spans[queue[0]].parent && (parent.Some? ==> parent.value < queue[0])
    requires forall h :: 0 <= h < |spans| ==>
               Remaining(spans[h].children, done + {queue[0]}) ==
               Remaining(spans[h].children, done) - (if parent == Some(h) then 1 else 0)
    requires Advanced(spans, queue, remaining, queue', remaining')
    ensures forall k :: 0 <= k < |queue'| ==> queue'[k] < |spans| && queue'[k] !in done + {queue[0]}
    ensures forall i, j :: 0 <= i < j < |queue'| ==> queue'[i] != queue'[j]
  {
    var p := queue[0];
    assert p in queue;
    assert forall k :: 0 <= k < |queue[1..]| ==> queue[1..][k] == queue[k + 1];
    if parent.Some? {
      var q := parent.value;
      assert Remaining(spans[q].children, done) >= 1;
      assert q !in done && q !in queue;
    }
  }

  /** The counter part of `FrontierStep`. */
  lemma StepCounts(spans: seq<Span>, done: set<nat>, queue: seq<nat>, remaining: map<nat, int>,
                   queue': seq<nat>, remaining': map<nat, int>, parent: Option<nat>)
    requires Frontier(spans, done, queue, remaining) && queue != []
    requires parent == spans[queue[0]].parent && (parent.Some? ==> parent.value < queue[0])
    requires forall h :: 0 <= h < |spans| ==>
               Remaining(spans[h].children, done + {queue[0]}) ==
               Remaining(spans[h].children, done) - (if parent == Some(h) then 1 else 0)
    requires Advanced(spans, queue, remaining, queue', remaining')
    ensures forall h :: 0 <= h < |spans| && spans[h].children != [] ==>
              h in remaining' && remaining'[h] == Remaining(spans[h].children, done + {queue[0]})
    ensures forall h :: 0 <= h < |spans| ==>
              (h in done + {queue[0]} || h in queue' <==> Remaining(spans[h].children, done + {queue[0]}) == 0)
  {
    var p := queue[0];
    assert p in queue;
    assert forall h :: h in queue[1..] <==> h in queue && h != p by {
      assert forall k :: 0 <= k < |queue[1..]| ==> queue[1..][k] == queue[k + 1];
      forall h | h in queue && h != p ensures h in queue[1..] {
        var k :| 0 <= k < |queue| && queue[k] == h;
        assert queue[1..][k - 1] == h;
      }
    }
  }

  /** With an empty queue every span is done: a span not done would have a child not done, and so on forever. */
  lemma {:induction false} DoneFrom(spans: seq<Span>, roots: seq<nat>, done: set<nat>, k: nat)
    requires Linked(spans, roots)
    requires forall h :: 0 <= h < |spans| ==> (h in done <==> Remaining(spans[h].children, done) == 0)
    ensures forall h :: k <= h < |spans| ==> h in done
    decreases |spans| - k
  {
    if k < |spans| {
      DoneFrom(spans, roots, done, k + 1);
      var cs := spans[k].children;
      assert ChildrenLinked(spans, k);
      forall j | 0 <= j < |cs| ensures cs[j] in done {
        assert ParentLinked(spans, cs[j]);
      }
      RemainingZero(cs, done);
    }
  }

  /** Once the queue is empty, every span is done. */
  lemma AllLaidOut(spans: seq<Span>, roots: seq<nat>, done: set<nat>, remaining: map<nat, int>)
    requires Linked(spans, roots) && Frontier(spans, done, [], remaining)
    ensures forall h :: h in done <==> 0 <= h < |spans|
    ensures |done| == |spans|
  {
    DoneFrom(spans, roots, done, 0);
    assert done == HandleSet(|spans|);
  }

  /**
   * The first loop of the traversal: every span with children gets a
   * counter equal to its number of children, and the others, the leaves,
   * are collected in order to seed the work queue.
   */
  method CountChildren(spans: seq<Span>) returns (remaining: map<nat, int>, leaves: seq<nat>)
    ensures forall h :: 0 <= h < |spans| && spans[h].children != [] ==>
              h in remaining && remaining[h] == |spans[h].children|
    ensures forall h :: 0 <= h < |spans| ==> (h in leaves <==> spans[h].children == [])
    ensures forall k :: 0 <= k < |leaves| ==> leaves[k] < |spans|
    ensures forall i, j :: 0 <= i < j < |leaves| ==> leaves[i] < leaves[j]
    ensures Frontier(spans, {}, leaves, remaining)
  {
    remaining, leaves := map[], [];
    for h := 0 to |spans|
      invariant forall g :: 0 <= g < h && spans[g].children != [] ==> g in remaining && remaining[g] == |spans[g].children|
      invariant forall k :: 0 <= k < |leaves| ==> leaves[k] < h && spans[leaves[k]].children == []
      invariant forall i, j :: 0 <= i < j < |leaves| ==> leaves[i] < leaves[j]
      invariant forall g :: 0 <= g < h && spans[g].children == [] ==> g in leaves
    {
      if |spans[h].children| > 0 {
        remaining := remaining[h := |spans[h].children|];
      } else {
        leaves := leaves + [h];
      }
    }
    forall h | 0 <= h < |spans| ensures Remaining(spans[h].children, {}) == |spans[h].children| {
      RemainingNoneDone(spans[h].children);
    }
  }

  /**
   * The set-up of the traversal: the children counters, and a fresh queue
   * holding the leaves in arena order; the traversal invariant holds with
   * nothing done.
   */
  method StartTraversal(spans: seq<Span>) returns (remaining: map<nat, int>, queue: WorkQueue.Queue<nat>)
    ensures fresh(queue)
    ensures forall h :: 0 <= h < |spans| ==> (h in queue.Contents() <==> spans[h].children == [])
    ensures Frontier(spans, {}, queue.Contents(), remaining)
  {
    var leaves: seq<nat>;
    remaining, leaves := CountChildren(spans);
    queue := new WorkQueue.Queue(leaves);
  }

  /** Every layout in `layouts` is the one `ComputeLocalLayout` produces. */
  predicate AllUnit(layouts: map<nat, LocalLayout>)
  {
    forall h :: h in layouts ==> layouts[h] == LocalLayout(1, map[])
  }

  /** Recording the layout of a span not yet done grows the done set by exactly that span. */
  lemma AddLayout(layouts: map<nat, LocalLayout>, span: nat, layout: LocalLayout, n: nat)
    requires span < n && span !in layouts
    ensures layouts[span := layout].Keys == layouts.Keys + {span}
    ensures |layouts[span := layout].Keys| == |layouts.Keys| + 1
    ensures HandleSet(n) - layouts[span := layout].Keys < HandleSet(n) - layouts.Keys
  {
    var keys := layouts[span := layout].Keys;
    assert keys == layouts.Keys + {span};
    assert span in HandleSet(n) - layouts.Keys && span !in HandleSet(n) - keys;
  }

  /**
   * Computes a local layout for every span of `trace`, children before
   * parents: leaves are queued first and a parent is queued once its last
   * child has been processed. On a linked trace every span is dequeued
   * exactly once, `ComputeLocalLayout` never fails, and the result has an
   * entry for every span.
   */
  method ComputeLocalLayouts(trace: Trace) returns (layouts: map<nat, LocalLayout>, ghost steps: nat)
    requires Linked(trace.spans, trace.roots)
    ensures forall h :: h in layouts <==> 0 <= h < |trace.spans|
    ensures forall h :: h in layouts ==> layouts[h] == LocalLayout(1, map[])
    ensures steps == |trace.spans|
  {
    var spans := trace.spans;
    var n := |spans|;
    var remaining, queue := StartTraversal(spans);
    layouts := map[];
    steps := 0;
    assert layouts.Keys == {};
    while queue.Length() > 0
      invariant Frontier(spans, layouts.Keys, queue.Contents(), remaining)
      invariant AllUnit(layouts)
      invariant steps == |layouts.Keys|
      decreases HandleSet(n) - layouts.Keys
    {
      var span, layout;
      span, layout, remaining := ProcessNext(spans, trace.roots, queue, layouts, remaining);
      AddLayout(layouts, span, layout, n);
      layouts := layouts[span := layout];
      steps := steps + 1;
    }
    AllLaidOut(spans, trace.roots, layouts.Keys, remaining);
  }

  /** One child of `parent` is done: its counter drops, and it joins the queue when that was the last child. */
  method Release(queue: WorkQueue.Queue<nat>, remaining: map<nat, int>, parent: nat) returns (remaining': map<nat, int>)
    requires parent in remaining
    modifies queue
    ensures remaining' == remaining[parent := remaining[parent] - 1]
    ensures queue.Contents() == old(queue.Contents()) + (if remaining'[parent] == 0 then [parent] else [])
  {
    var newRemaining := remaining[parent] - 1;
    remaining' := remaining[parent := newRemaining];
    if newRemaining == 0 {
      queue.Push(parent);
    }
  }

  /**
   * One turn of the traversal loop: pops the next span, computes its local
   * layout (which cannot fail, since all its children are done), and
   * decrements its parent's counter, queueing the parent when the counter
   * reaches zero.
   */
  method ProcessNext(spans: seq<Span>, roots: seq<nat>, queue: WorkQueue.Queue<nat>,
                     layouts: map<nat, LocalLayout>, remaining: map<nat, int>)
    returns (span: nat, layout: LocalLayout, remaining': map<nat, int>)
    requires Linked(spans, roots) && Frontier(spans, layouts.Keys, queue.Contents(), remaining)
    requires queue.Contents() != []
    modifies queue
    ensures span == old(queue.Contents())[0] && span < |spans| && span !in layouts
    ensures layout == LocalLayout(1, map[])
    ensures Advanced(spans, old(queue.Contents()), remaining, queue.Contents(), remaining')
    ensures Frontier(spans, layouts.Keys + {span}, queue.Contents(), remaining')
  {
    ghost var before := queue.Contents();
    HeadReady(spans, roots, layouts.Keys, before, remaining);
    assert before[0] in before;
    var popped := queue.Pop();
    span := popped.value;
    var result := ComputeLocalLayout(spans[span], layouts);
    layout := result.value;
    remaining' := remaining;
    match spans[span].parent {
      case Some(parent) =>
        remaining' := Release(queue, remaining, parent);
      case None =>
    }
    assert Advanced(spans, before, remaining, queue.Contents(), remaining');
    FrontierStep(spans, roots, layouts.Keys, before, remaining, queue.Contents(), remaining');
  }
}
