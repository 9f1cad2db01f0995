# trace-visualizer core, modelled in Dafny

This project models the computational core of trace-visualizer. The viewer reads a stream of
span events and builds a forest of timed spans from it. It then lays out those spans bottom-up
with a work queue, and draws them in rows with a colour per span. The model covers:

- **WorkQueue** (`queue.dfy`): the two-stack FIFO queue `Queue<T>`. A class holds two
  sequence fields, `reversed` and `inOrder`, that stand for the source's arrays; the in-place
  `reverse` of the refill becomes a reassignment. Its ghost contents are
  `Reversed(reversed) + inOrder`, and `Push`, `Pop` and `Length` are proved against them.
- **Events** (`events.dfy`): the `EventLoader` state machine over `SpanStart`, `Schedule`,
  `Deschedule` and `SpanEnd` events, plus `Finalize`. Spans live in an arena (`arena: seq<Span>`)
  and refer to one another by handle (an arena index). The `spans` map sends a span identifier
  to its handle, and an open interval keeps the sentinel end `-1` (`Open`). Every `throw`
  becomes a `Fail`/`Failure` value that carries a `LoadError`. The class invariant `Valid()`
  covers the following, and every operation is proved to preserve it:
  - the identifier/handle bijection;
  - unclosed spans are exactly the open ones;
  - every interval and scheduled period lies within the timestamps seen so far;
  - starts strictly increase in arrival order;
  - parent, children and roots are consistently linked.
- **StartSort** (`sorting.dfy`): the sort by start time that `finalize` applies to every
  `children` list and to `roots`. It is proved sorted and a permutation, and to return
  its input unchanged when the input is already sorted. That is always the case here.
- **Layout** (`layout.dfy`): covers the following.
  - the rectangle overlap test;
  - the `computeLocalLayout` stub;
  - the leaves-before-parents traversal `computeLocalLayouts`, driven by per-parent counters of
    children not yet processed and by the `Queue` class itself. The traversal invariant
    `Frontier` is proved to hold on entry and to be preserved by every dequeue. On a linked trace,
    every span is therefore laid out exactly once and `computeLocalLayout` never fails.
- **IndexPage** (`index_page.dfy`): two loops from `pages/index.tsx`.
  - `DebugLayout`'s row check. It flags a span that ends before it starts, or that starts before
    the previous span of its row ends.
  - The colour-bucket index `floor(spansProcessed * 255 / totalSpans)` that `setupCanvas` gives
    each span.

The page imports a `computeLayout` (pages/index.tsx:15) and reads `trace.root`
(pages/index.tsx:95), but neither lib/event.ts nor lib/layout.ts defines them. Parentless
spans go into `roots`, `finalize` rejects unclosed spans, and `computeLocalLayout` is a stub.
The model follows the code.

## Model

| member | source | states |
|---|---|---|
| WorkQueue.Reversed | lib/queue.ts:21 | the in-place `reverse`: same length, element `k` is the `k`-th element from the end of the input |
| WorkQueue.ReversedTwice | lib/queue.ts:21-24 | reversing twice gives back the original sequence, so the refill does not change the logical contents |
| WorkQueue.Queue.constructor | lib/queue.ts:5-8 | a new queue has an empty `reversed`, and `inOrder` holds the initial elements, so they come out first and in array order |
| WorkQueue.Queue.Push | lib/queue.ts:10-12 | appends to `inOrder` only; the logical contents gain the element at the tail |
| WorkQueue.Queue.Pop | lib/queue.ts:14-26 | on an empty queue: returns `None` and leaves both arrays unchanged. Otherwise: returns the head of the logical contents and removes it (FIFO). With `reversed` non-empty, `inOrder` is untouched. A refill leaves `inOrder` empty and `reversed` equal to the reversed old `inOrder` minus the popped element |
| WorkQueue.Queue.Length | lib/queue.ts:28-30 | the sum of the lengths of `reversed` and `inOrder` is the size of the logical contents, so it grows by one on `Push` and shrinks by one on a `Pop` that returns a value |
| StartSort.InsertSorted | lib/event.ts:139-141 | inserting into a key-sorted list keeps it sorted |
| StartSort.SortByKey | lib/event.ts:139-141 | the sort by start time returns a sorted permutation of its input, and returns the input itself when it is already sorted |
| Events.LinkedSortedByStart | lib/event.ts:53-56 | in a linked arena with increasing starts, every child starts strictly after its parent. Every `children` list and `roots` is already sorted by start |
| Events.TimesSeenLater | lib/event.ts:53-56 | accepting a later timestamp keeps every recorded interval within the timestamps seen |
| Events.EventLoader.constructor | lib/event.ts:35-41 | every map, list and set starts empty, `maxTs` starts at 0, and the invariant holds |
| Events.EventLoader.CacheString | lib/event.ts:43-50 | returns a string equal to its argument and leaves `names` mapping it to itself. An existing entry is left alone, so a second call changes nothing |
| Events.EventLoader.AddEvent | lib/event.ts:52-131 | if `ts <= maxTs`: fails with `TimeMovedBackward` and changes nothing. Otherwise `maxTs` becomes `ts`, even when a later check fails. A failure changes nothing else. Each kind's outcome is the one its predicate states, and the invariant is kept |
| Events.EventLoader.StartSpan | lib/event.ts:60-89 | fails on a known id, and on a parent id other than `null`/`0` that is unknown. Otherwise it creates an open span at the next handle with no children or periods, appends it to the parent's children or to `roots`, records it in `spans` and `unclosed`, and interns its name |
| Events.EventLoader.CreateSpan | lib/event.ts:71-88 | the successful `SpanStart`: the new arena, `roots`, `spans` and `unclosed`, with the invariant kept |
| Events.CreateKeepsInv | lib/event.ts:71-88 | creating a span with a fresh timestamp keeps the whole loader invariant: handles, open/unclosed, times, start order, links |
| Events.EventLoader.ScheduleSpan | lib/event.ts:90-102 | fails for an unknown id, and when the last scheduled period is open. Otherwise it appends the open period `[ts, -1]` to that span only |
| Events.ScheduleKeepsTimes | lib/event.ts:95-101 | appending a period after a closed last one keeps every period within time, and only the last one open |
| Events.EventLoader.DescheduleSpan | lib/event.ts:103-116 | fails for an unknown id, for no periods, and for a closed last period. Otherwise it sets only the last period's end to `ts` |
| Events.DescheduleKeepsTimes | lib/event.ts:111-115 | closing the open last period at a later timestamp keeps every period well-timed |
| Events.EventLoader.EndSpan | lib/event.ts:117-127 | fails for any id not in `unclosed`, unknown or already ended. Otherwise it removes the id and sets the span's end to `ts` |
| Events.EndKeepsInv | lib/event.ts:125-126 | ending a span keeps "id in `unclosed` iff its end is `-1`", and a closed span ends after it starts |
| Events.AllClosed | lib/event.ts:134-136 | with `unclosed` empty, every span has a closed interval |
| Events.EventLoader.Finalize | lib/event.ts:133-144 | fails with `UnclosedSpans` while any span is open. Otherwise it returns the trace of all spans in arrival order, the roots and `maxTs`, and that trace is `WellFormed` (linked, sorted by start, all closed). The sort leaves every list unchanged |
| Layout.Overlaps | lib/layout.ts:10-16 | two rectangles that cover a common (time, row) cell overlap. For rectangles with at least one row and an interval not ending before it starts, overlap yields such a cell: the later start and the higher first row |
| Layout.OverlapsIffCommonCell | lib/layout.ts:10-16 | for such proper rectangles, overlapping is exactly sharing a cell |
| Layout.DegenerateOverlap | lib/layout.ts:10-16 | a height-0 rectangle, or one whose interval ends before it starts, covers no cell and can still overlap another |
| Layout.OverlapsSymmetric | lib/layout.ts:10-16 | `overlaps(a, b) == overlaps(b, a)` |
| Layout.TouchingIntervalsOverlap | lib/layout.ts:11-12 | time separation is strict: intervals that touch at one end are not separated, so only the rows decide |
| Layout.AdjacentBandsDisjoint | lib/layout.ts:13-14 | row bands are half-open: a band ending where another begins does not overlap it |
| Layout.OverlapsItself | lib/layout.ts:10-16 | a rectangle of height at least 1 with `start <= end` overlaps itself |
| Layout.ZeroHeightOverlap | lib/layout.ts:13-15 | a rectangle of height 0 does not overlap itself. It overlaps another rectangle exactly when their time intervals intersect and its row lies strictly inside the other's band |
| Layout.ComputeLocalLayout | lib/layout.ts:23-42 | fails exactly when some child has no layout, naming the first such child. Otherwise it returns `totalHeight` 1 and no child rectangles |
| Layout.RemainingFinish | lib/layout.ts:62-63 | for a duplicate-free children list, finishing a span not yet done lowers the list's count of not-done entries by one exactly when the span is in the list, and leaves it unchanged otherwise |
| Layout.CountChildren | lib/layout.ts:45-54 | each span with children gets a counter equal to its number of children. The leaves, in arena order, are exactly the spans without children, and the traversal invariant holds with nothing done |
| Layout.HeadReady | lib/layout.ts:59-60 | the span at the head of the queue has all its children laid out, and its parent's counter is at least 1 |
| Layout.FrontierStep | lib/layout.ts:59-68 | dequeuing the head, decrementing its parent's counter and queueing the parent at zero keeps the invariant. Counters stay equal to the children not yet dequeued, and no span is queued twice or after it is done |
| Layout.ProcessNext | lib/layout.ts:59-67 | one turn of the loop: the popped span is the queue's head and not yet laid out, and `computeLocalLayout` succeeds on it. The queue loses its head; for a span with a parent, the parent's counter drops by one and the parent is enqueued at the tail when it reaches zero, and no other counter changes. The invariant holds with the span marked done |
| Layout.Release | lib/layout.ts:62-66 | the parent's counter drops by one, and the parent is appended to the queue exactly when the counter reaches zero |
| Layout.StartTraversal | lib/layout.ts:45-56 | a fresh queue holds exactly the spans without children, and the traversal invariant holds with nothing done |
| Layout.AllLaidOut | lib/layout.ts:58-70 | when the queue is empty, every span of a linked trace is done |
| Layout.ComputeLocalLayouts | lib/layout.ts:44-71 | on a linked trace, the loop runs exactly once per span of the trace, and the result has an entry, the stub's layout, for every span and for nothing else |
| IndexPage.DebugFlags | pages/index.tsx:20-37 | position `(i, j)` is flagged exactly when its span ends before it starts, or starts before the end of the previous span of its row (compared with -1 for the first span). The end-before-start flag replaces the overlap flag, and `ts` restarts in every row |
| IndexPage.FlagAt | pages/index.tsx:26-35 | a span is flagged iff it ends before it starts or starts before the end of the previous span of its row (-1 for the first); the end-before-start flag is the one kept when both apply |
| IndexPage.CleanIffOrdered | pages/index.tsx:24-35 | a row draws no flag iff all its spans are proper, start at -1 or later, and each ends before every later span of the row starts |
| IndexPage.OnlyNeighboursCompared | pages/index.tsx:35 | only adjacent spans are compared. In rows `0..10, 1..2, 3..4` the third span is not flagged although it overlaps the first |
| IndexPage.OpenSpanFlagged | pages/index.tsx:32-34 | a still-open span (end -1) with a non-negative start is flagged as ending before it starts |
| IndexPage.TotalSpansAppend | pages/index.tsx:98-99 | the span count adds up over concatenated row lists |
| IndexPage.CountSpans | pages/index.tsx:98-99 | `totalSpans` is the sum of the row lengths |
| IndexPage.ColorBucket | pages/index.tsx:103 | for `processed < totalSpans`, `floor(processed * 255 / totalSpans)` lies in 0..254 |
| IndexPage.BucketMonotone | pages/index.tsx:100-103 | a later span never gets a smaller bucket |
| IndexPage.ColorBuckets | pages/index.tsx:96-103 | one bucket per span in row-major order. Bucket `k` is `floor(k * 255 / totalSpans)`, within 0..254 and non-decreasing; `spansProcessed` goes up by one per span (line 131) |

## Left out

- Rendering is not part of this model, for the following reasons.
  - WebGL buffers, shaders, React components and JSX output are foreign browser APIs.
  - The float vertex positions (pages/index.tsx:104-130) and the animation and key-handler loops
    are floating point.
  - `numVertexes` and `lib/color.ts` are also left out.
- `computeLayout`, `lib/m4` and `lib/example` are not part of this model. No row packing,
  absolute placement or synthetic root is modelled, because lib/event.ts and lib/layout.ts
  contain none of them.
- Layout.ComputeLocalLayout: the copy of `children` sorted by end (lib/layout.ts:25-26) is not
  modelled. The result never uses it.
- WorkQueue.Queue.constructor: the queue keeps its own copy of the initial elements. The source
  stores, and later reverses in place, the caller's array; that aliasing is not captured. The
  source's argument is optional (`elements ?? []`); here it is required, and `new Queue([])`
  stands for `new Queue()`.
- WorkQueue.Queue.Pop: the refill reverses `inOrder` in place and then swaps the two arrays
  (lib/queue.ts:21-24); here `reversed` is assigned the reversed sequence and `inOrder` the
  empty one, so the mutation of a shared array object is not captured.
- Span objects and their `parent`/`children` references are arena handles. An in-place update
  of a span object is a replacement of its arena entry.
- `Trace` is a value. The source's `Trace` shares span objects and its `roots` array with the
  loader (lib/event.ts:143, 154), so a `SpanStart` after `finalize` also grows `trace.roots`
  there.
- Timestamps and identifiers are mathematical integers. NaN, fractions and precision loss above
  2^53 are not modelled.
- The `UnreachableCaseError` branch (lib/event.ts:128-129) cannot be reached with a datatype of
  events.
- Events.EventLoader.EndSpan: the "Missing span ID" throw (lib/event.ts:121-124) cannot fire.
  `unclosed` only ever holds known identifiers, so this branch is absent.
- StartSort.SortByKey: an insertion sort stands in for `Array.prototype.sort`. Only its result
  (sorted, a permutation) is modelled, and here it is proved to be the input itself.
  Stability is not stated: starts in a loader's arena strictly increase (`StartsIncreasing`),
  so two handles never share a key.
- Layout.ComputeLocalLayouts: requires a linked trace, which is what `Finalize` produces. On a
  malformed trace the source's non-null assertion on a missing counter, or an error thrown by
  `computeLocalLayout`, is not modelled.
- IndexPage.DebugFlags: flags are keyed by (row, position) instead of by span object. The two
  agree when no span object appears twice in the rows. The message text is reduced to the
  numbers it reports.
- IndexPage.ColorBuckets: `Math.floor` of a float quotient is modelled as integer division.
  Both operands are non-negative integers, so the two agree. The rectangle pushed for each span
  is not modelled, only its bucket.
