/**
 * The event-stream loader of lib/event.ts.
 *
 * An `EventLoader` consumes `SpanStart`, `Schedule`, `Deschedule` and
 * `SpanEnd` events with strictly increasing timestamps and builds a forest
 * of spans. Spans live in an arena (`arena`) and refer to one another by
 * handle, the arena index: `parent` and `children` hold handles, and the
 * `spans` map sends a span identifier to its handle. Every `throw` of the
 * source is a `Fail`/`Failure` result here.
 */
module Events {
  import opened Wrappers
  import StartSort

  type SpanId = int
  type Timestamp = int

  /** The sentinel `end` of an interval that has not been closed yet. */
  const Open: Timestamp := -1

  datatype Interval = Interval(start: Timestamp, end: Timestamp)

  datatype Span = Span(
    name: string,
    interval: Interval,
    parent: Option<nat>,
    children: seq<nat>,
    scheduled: seq<Interval>)

  datatype Event =
    | SpanStart(id: SpanId, parent: Option<SpanId>, ts: Timestamp, name: string)
    | Schedule(id: SpanId, ts: Timestamp)
    | Deschedule(id: SpanId, ts: Timestamp)
    | SpanEnd(id: SpanId, ts: Timestamp)

  /** The errors `addEvent` and `finalize` throw. */
  datatype LoadError =
    | TimeMovedBackward(maxTs: Timestamp, ts: Timestamp)
    | DuplicateSpanId(id: SpanId)
    | InvalidParentId(parent: SpanId)
    | MissingSpanId(id: SpanId)
    | DuplicateSchedule(id: SpanId)
    | MismatchedDeschedule(id: SpanId)
    | DuplicateClose(id: SpanId)
    | UnclosedSpans

  /** The finished trace: every span in arrival order, the parentless ones, and the last timestamp. */
  datatype Trace = Trace(spans: seq<Span>, roots: seq<nat>, maxTs: Timestamp)

  /** JavaScript truthiness of the `parent` field: `null` and `0` both mean "no parent". */
  predicate HasParent(parent: Option<SpanId>)
  {
    parent.Some? && parent.value != 0
  }

  /** The start time of every span, indexed by handle: the sort key of `finalize`. */
  function Starts(arena: seq<Span>): (key: seq<int>)
    ensures |key| == |arena|
    ensures forall h :: 0 <= h < |arena| ==> key[h] == arena[h].interval.start
  {
    seq(|arena|, h requires 0 <= h < |arena| => arena[h].interval.start)
  }

  // ---------------------------------------------------------------------
  // Structural and temporal invariants of the arena

  /** Span `h` is listed among its parent's children, and its parent was created before it. */
  predicate ParentLinked(arena: seq<Span>, h: nat)
    requires h < |arena|
  {
    match arena[h].parent
    case None => true
    case Some(p) => p < h && h in arena[p].children
  }

  /** Every child of `h` exists and names `h` as parent; the children are in creation order. */
  predicate ChildrenLinked(arena: seq<Span>, h: nat)
    requires h < |arena|
  {
    var cs := arena[h].children;
    && (forall k :: 0 <= k < |cs| ==> cs[k] < |arena| && arena[cs[k]].parent == Some(h))
    && (forall i, j :: 0 <= i < j < |cs| ==> cs[i] < cs[j])
  }

  /** `roots` lists exactly the parentless spans, in creation order. */
  predicate RootsLinked(arena: seq<Span>, roots: seq<nat>)
  {
    && (forall k :: 0 <= k < |roots| ==> roots[k] < |arena| && arena[roots[k]].parent == None)
    && (forall i, j :: 0 <= i < j < |roots| ==> roots[i] < roots[j])
    && (forall h :: 0 <= h < |arena| && arena[h].parent == None ==> h in roots)
  }

  /** The parent and children links agree and form a forest (a parent precedes its children). */
  predicate Linked(arena: seq<Span>, roots: seq<nat>)
  {
    && (forall h :: 0 <= h < |arena| ==> ParentLinked(arena, h) && ChildrenLinked(arena, h))
    && RootsLinked(arena, roots)
  }

  /** Spans are created in strictly increasing start order. */
  predicate StartsIncreasing(arena: seq<Span>)
  {
    forall i, j :: 0 <= i < j < |arena| ==> arena[i].interval.start < arena[j].interval.start
  }

  /** An interval seen so far: started after time 0, and either open or closed after its start. */
  predicate IntervalSeen(iv: Interval, maxTs: Timestamp)
  {
    && 1 <= iv.start <= maxTs
    && (iv.end == Open || iv.start < iv.end <= maxTs)
  }

  /**
   * The scheduled periods of a span begin after the span does, only the
   * last one may be open, and each closes before the next one opens.
   */
  predicate ScheduleSeen(span: Span, maxTs: Timestamp)
  {
    var sch := span.scheduled;
    && (forall k :: 0 <= k < |sch| ==> span.interval.start < sch[k].start && IntervalSeen(sch[k], maxTs))
    && (forall k :: 0 <= k < |sch| - 1 ==> sch[k].end != Open && sch[k].end < sch[k + 1].start)
  }

  /** What a trace handed to the layout may rely on. */
  predicate WellFormed(t: Trace)
  {
    && Linked(t.spans, t.roots)
    && StartsIncreasing(t.spans)
    && (forall h :: 0 <= h < |t.spans| ==>
          IntervalSeen(t.spans[h].interval, t.maxTs) && t.spans[h].interval.end != Open)
  }

  /** A child starts strictly after its parent, so sibling lists and roots are sorted by start. */
  lemma {:induction false} LinkedSortedByStart(arena: seq<Span>, roots: seq<nat>)
    requires Linked(arena, roots) && StartsIncreasing(arena)
    ensures forall h, k :: 0 <= h < |arena| && 0 <= k < |arena[h].children| ==>
              arena[h].children[k] < |arena| &&
              arena[h].interval.start < arena[arena[h].children[k]].interval.start
    ensures forall h :: 0 <= h < |arena| ==>
              StartSort.Keyed(arena[h].children, Starts(arena)) &&
              StartSort.SortedBy(arena[h].children, Starts(arena))
    ensures StartSort.Keyed(roots, Starts(arena)) && StartSort.SortedBy(roots, Starts(arena))
  {
    var key := Starts(arena);
    forall h, k | 0 <= h < |arena| && 0 <= k < |arena[h].children|
      ensures arena[h].children[k] < |arena|
      ensures arena[h].interval.start < arena[arena[h].children[k]].interval.start
    {
      var c := arena[h].children[k];
      assert ChildrenLinked(arena, h);
      assert ParentLinked(arena, c);
    }
    forall h | 0 <= h < |arena|
      ensures StartSort.Keyed(arena[h].children, key) && StartSort.SortedBy(arena[h].children, key)
    {
      var cs := arena[h].children;
      assert ChildrenLinked(arena, h);
      forall i, j | 0 <= i < j < |cs| ensures key[cs[i]] <= key[cs[j]] {
        assert cs[i] < cs[j];
      }
    }
    assert RootsLinked(arena, roots);
    forall i, j | 0 <= i < j < |roots| ensures key[roots[i]] <= key[roots[j]] {
      assert roots[i] < roots[j];
    }
  }

  // ---------------------------------------------------------------------
  // The loader's invariant, stated over the values of its fields

  /** Every cached name maps to itself. */
  predicate Interned(names: map<string, string>)
  {
    forall s :: s in names ==> names[s] == s
  }

  /** `spans` and `ids` are inverse bijections between identifiers and the handles `0 .. n-1`. */
  predicate Handles(spans: map<SpanId, nat>, ids: seq<SpanId>, n: nat)
  {
    && |ids| == n
    && (forall id :: id in spans ==> spans[id] < n && ids[spans[id]] == id)
    && (forall h :: 0 <= h < n ==> ids[h] in spans && spans[ids[h]] == h)
  }

  /** A span is unclosed exactly when its end is still the sentinel. */
  predicate OpenExactlyUnclosed(arena: seq<Span>, ids: seq<SpanId>, unclosed: set<SpanId>)
    requires |ids| == |arena|
  {
    forall h :: 0 <= h < |arena| ==> (ids[h] in unclosed <==> arena[h].interval.end == Open)
  }

  /** Every interval and scheduled period lies within the timestamps seen so far. */
  predicate TimesSeen(arena: seq<Span>, maxTs: Timestamp)
  {
    forall h :: 0 <= h < |arena| ==> IntervalSeen(arena[h].interval, maxTs) && ScheduleSeen(arena[h], maxTs)
  }

  /** Seeing a later timestamp keeps every interval within the timestamps seen. */
  lemma TimesSeenLater(arena: seq<Span>, maxTs: Timestamp, later: Timestamp)
    requires TimesSeen(arena, maxTs) && maxTs <= later
    ensures TimesSeen(arena, later)
  {
    forall h | 0 <= h < |arena| ensures IntervalSeen(arena[h].interval, later) && ScheduleSeen(arena[h], later) {
      assert IntervalSeen(arena[h].interval, maxTs) && ScheduleSeen(arena[h], maxTs);
    }
  }

  /** The loader's invariant, over the values of its fields. */
  predicate LoaderInv(names: map<string, string>, spans: map<SpanId, nat>, ids: seq<SpanId>, arena: seq<Span>,
                      roots: seq<nat>, maxTs: Timestamp, unclosed: set<SpanId>)
  {
    && Interned(names)
    && Handles(spans, ids, |arena|)
    && unclosed <= spans.Keys
    && OpenExactlyUnclosed(arena, ids, unclosed)
    && 0 <= maxTs
    && TimesSeen(arena, maxTs)
    && StartsIncreasing(arena)
    && Linked(arena, roots)
  }

  // ---------------------------------------------------------------------
  // The loader

  class EventLoader {
    /** The name-interning cache. */
    var names: map<string, string>
    /** Span identifier to arena handle. */
    var spans: map<SpanId, nat>
    /** Every span created so far, indexed by handle. */
    var arena: seq<Span>
    /** Handles of the spans without a parent, in creation order. */
    var roots: seq<nat>
    /** The largest timestamp accepted so far. */
    var maxTs: Timestamp
    /** Identifiers of the spans started and not yet ended. */
    var unclosed: set<SpanId>
    /** The identifier of each handle (the inverse of `spans`). */
    ghost var ids: seq<SpanId>

    ghost predicate Valid()
      reads this
    {
      LoaderInv(names, spans, ids, arena, roots, maxTs, unclosed)
    }

    constructor ()
      ensures Valid()
      ensures names == map[] && spans == map[] && arena == [] && roots == []
      ensures unclosed == {} && maxTs == 0
    {
      names, spans, arena, roots := map[], map[], [], [];
      unclosed, maxTs := {}, 0;
      ids := [];
    }

    /**
     * Interns `s`: the result is always equal to `s`, and afterwards `names`
     * maps `s` to itself. An entry that is already present is left alone,
     * so a second call changes nothing.
     */
    method CacheString(s: string) returns (r: string)
      requires Valid()
      modifies this`names
      ensures Valid()
      ensures r == s
      ensures names == old(names)[s := s]
      ensures s in old(names) ==> names == old(names)
    {
      // `names.get(s)` is falsy for a missing entry and for the empty string.
      if s !in names || names[s] == "" {
        names := names[s := s];
        return s;
      }
      r := names[s];
    }

    /**
     * Adds one event. Any event not later than every event before it is
     * rejected with nothing changed; otherwise `maxTs` advances to its
     * timestamp before the kind-specific checks, and stays advanced when
     * one of those rejects the event.
     */
    method AddEvent(e: Event) returns (r: Outcome<LoadError>)
      requires Valid()
      modifies this
      ensures Valid()
      ensures e.ts <= old(maxTs) ==> r == Fail(TimeMovedBackward(old(maxTs), e.ts)) && maxTs == old(maxTs)
      ensures old(maxTs) < e.ts ==> maxTs == e.ts
      ensures r.Fail? ==>
                names == old(names) && spans == old(spans) && arena == old(arena) &&
                roots == old(roots) && unclosed == old(unclosed)
      ensures old(maxTs) < e.ts && e.SpanStart? ==> StartOutcome(e.id, e.parent, e.ts, e.name, r)
      ensures old(maxTs) < e.ts && e.Schedule? ==> ScheduleOutcome(e.id, e.ts, r)
      ensures old(maxTs) < e.ts && e.Deschedule? ==> DescheduleOutcome(e.id, e.ts, r)
      ensures old(maxTs) < e.ts && e.SpanEnd? ==> EndOutcome(e.id, e.ts, r)
    {
      if e.ts <= maxTs {
        return Fail(TimeMovedBackward(maxTs, e.ts));
      }
      match e
      case SpanStart(id, parent, ts, name) => r := StartSpan(id, parent, ts, name);
      case Schedule(id, ts) => r := ScheduleSpan(id, ts);
      case Deschedule(id, ts) => r := DescheduleSpan(id, ts);
      case SpanEnd(id, ts) => r := EndSpan(id, ts);
    }

    /**
     * What a `SpanStart` with a fresh timestamp does: it fails on a known
     * `id` and on a truthy parent id that is not known; otherwise it creates
     * an open span with no children and no scheduled periods at the next
     * handle, appends it to its parent's children (or to `roots`), and
     * records it in `spans` and `unclosed`.
     */
    twostate predicate StartOutcome(id: SpanId, parent: Option<SpanId>, ts: Timestamp, name: string, new r: Outcome<LoadError>)
      reads this
    {
      && (id in old(spans) ==> r == Fail(DuplicateSpanId(id)))
      && (id !in old(spans) && HasParent(parent) && parent.value !in old(spans) ==>
            r == Fail(InvalidParentId(parent.value)))
      && (r == Pass <==> id !in old(spans) && (HasParent(parent) ==> parent.value in old(spans)))
      && (r == Pass ==>
            var h := |old(arena)|;
            var p := if HasParent(parent) then Some(old(spans)[parent.value]) else None;
            && (p.Some? ==> p.value < h)
            && arena == WithSpan(old(arena), p, Span(name, Interval(ts, Open), p, [], []))
            && roots == (if p == None then old(roots) + [h] else old(roots))
            && spans == old(spans)[id := h]
            && unclosed == old(unclosed) + {id}
            && names == old(names)[name := name])
    }

    /**
     * What a `Schedule` with a fresh timestamp does: it fails for an unknown
     * `id` and when the span's last scheduled period is still open;
     * otherwise it appends an open period starting at `ts`.
     */
    twostate predicate ScheduleOutcome(id: SpanId, ts: Timestamp, new r: Outcome<LoadError>)
      reads this
    {
      && (id !in old(spans) ==> r == Fail(MissingSpanId(id)))
      && (id in old(spans) && old(spans)[id] < |old(arena)| ==>
            var h := old(spans)[id];
            var sch := old(arena)[h].scheduled;
            && (sch != [] && sch[|sch| - 1].end == Open ==> r == Fail(DuplicateSchedule(id)))
            && (sch == [] || sch[|sch| - 1].end != Open ==>
                  r == Pass &&
                  arena == old(arena)[h := old(arena)[h].(scheduled := sch + [Interval(ts, Open)])]))
      && (r == Pass ==>
            spans == old(spans) && roots == old(roots) && unclosed == old(unclosed) && names == old(names))
    }

    /**
     * What a `Deschedule` with a fresh timestamp does: it fails for an
     * unknown `id`, for a span never scheduled, and when the last scheduled
     * period is already closed; otherwise it closes that last period at `ts`.
     */
    twostate predicate DescheduleOutcome(id: SpanId, ts: Timestamp, new r: Outcome<LoadError>)
      reads this
    {
      && (id !in old(spans) ==> r == Fail(MissingSpanId(id)))
      && (id in old(spans) && old(spans)[id] < |old(arena)| ==>
            var h := old(spans)[id];
            var sch := old(arena)[h].scheduled;
            && (sch == [] || sch[|sch| - 1].end != Open ==> r == Fail(MismatchedDeschedule(id)))
            && (sch != [] && sch[|sch| - 1].end == Open ==>
                  r == Pass &&
                  arena == old(arena)[h := old(arena)[h].(scheduled := sch[..|sch| - 1] + [sch[|sch| - 1].(end := ts)])]))
      && (r == Pass ==>
            spans == old(spans) && roots == old(roots) && unclosed == old(unclosed) && names == old(names))
    }

    /**
     * What a `SpanEnd` with a fresh timestamp does: it fails for any `id`
     * not in `unclosed` (unknown or already ended); otherwise it removes
     * `id` from `unclosed` and sets the span's end to `ts`.
     */
    twostate predicate EndOutcome(id: SpanId, ts: Timestamp, new r: Outcome<LoadError>)
      reads this
    {
      && (id !in old(unclosed) ==> r == Fail(DuplicateClose(id)))
      && (id in old(unclosed) ==>
            r == Pass && id in old(spans) && old(spans)[id] < |old(arena)| &&
            var h := old(spans)[id];
            && arena == old(arena)[h := old(arena)[h].(interval := old(arena)[h].interval.(end := ts))]
            && unclosed == old(unclosed) - {id}
            && spans == old(spans) && roots == old(roots) && names == old(names))
    }

    method StartSpan(id: SpanId, parent: Option<SpanId>, ts: Timestamp, name: string) returns (r: Outcome<LoadError>)
      requires Valid() && maxTs < ts
      modifies this
      ensures Valid() && maxTs == ts
      ensures r.Fail? ==>
                names == old(names) && spans == old(spans) && arena == old(arena) &&
                roots == old(roots) && unclosed == old(unclosed)
      ensures StartOutcome(id, parent, ts, name, r)
    {
      TimesSeenLater(arena, maxTs, ts);
      ghost var before := arena;
      LaterThanAllStarts(before, maxTs, ts);
      maxTs := ts;
      if id in spans {
        return Fail(DuplicateSpanId(id));
      }
      var p: Option<nat> := None;
      if HasParent(parent) {
        if parent.value !in spans {
          return Fail(InvalidParentId(parent.value));
        }
        p := Some(spans[parent.value]);
      }
      var interned := CacheString(name);
      r := CreateSpan(id, p, ts, interned);
    }

    /** The successful part of a `SpanStart`: the span at the next handle, linked to `parent` or to `roots`. */
    method CreateSpan(id: SpanId, p: Option<nat>, ts: Timestamp, name: string) returns (r: Outcome<LoadError>)
      requires Valid() && maxTs == ts && 0 < ts && id !in spans && (p.Some? ==> p.value < |arena|)
      requires forall h :: 0 <= h < |arena| ==> arena[h].interval.start < ts
      modifies this`arena, this`roots, this`spans, this`unclosed, this`ids
      ensures Valid() && r == Pass
      ensures arena == WithSpan(old(arena), p, Span(name, Interval(ts, Open), p, [], []))
      ensures roots == (if p == None then old(roots) + [|old(arena)|] else old(roots))
      ensures spans == old(spans)[id := |old(arena)|]
      ensures unclosed == old(unclosed) + {id}
    {
      var h := |arena|;
      var span := Span(name, Interval(ts, Open), p, [], []);
      var arena', roots' := WithSpan(arena, p, span), if p == None then roots + [h] else roots;
      var spans', unclosed' := spans[id := h], unclosed + {id};
      ghost var ids' := ids + [id];
      CreateKeepsInv(names, spans, ids, arena, roots, ts, unclosed, p, span, id);
      arena, roots, spans, unclosed, ids := arena', roots', spans', unclosed', ids';
      r := Pass;
    }

    method ScheduleSpan(id: SpanId, ts: Timestamp) returns (r: Outcome<LoadError>)
      requires Valid() && maxTs < ts
      modifies this
      ensures Valid() && maxTs == ts
      ensures r.Fail? ==>
                names == old(names) && spans == old(spans) && arena == old(arena) &&
                roots == old(roots) && unclosed == old(unclosed)
      ensures ScheduleOutcome(id, ts, r)
    {
      TimesSeenLater(arena, maxTs, ts);
      ghost var before := maxTs;
      maxTs := ts;
      if id !in spans {
        return Fail(MissingSpanId(id));
      }
      var h := spans[id];
      var span := arena[h];
      if |span.scheduled| > 0 {
        var lastInterval := span.scheduled[|span.scheduled| - 1];
        if lastInterval.end == Open {
          return Fail(DuplicateSchedule(id));
        }
      }
      var span' := span.(scheduled := span.scheduled + [Interval(ts, Open)]);
      ScheduleKeepsTimes(arena, before, ts, h);
      ReplaceKeepsInv(arena, roots, ids, unclosed, ts, h, span');
      arena := arena[h := span'];
      r := Pass;
    }

    method DescheduleSpan(id: SpanId, ts: Timestamp) returns (r: Outcome<LoadError>)
      requires Valid() && maxTs < ts
      modifies this
      ensures Valid() && maxTs == ts
      ensures r.Fail? ==>
                names == old(names) && spans == old(spans) && arena == old(arena) &&
                roots == old(roots) && unclosed == old(unclosed)
      ensures DescheduleOutcome(id, ts, r)
    {
      TimesSeenLater(arena, maxTs, ts);
      ghost var before := maxTs;
      maxTs := ts;
      if id !in spans {
        return Fail(MissingSpanId(id));
      }
      var h := spans[id];
      var span := arena[h];
      if |span.scheduled| == 0 {
        return Fail(MismatchedDeschedule(id));
      }
      var last := |span.scheduled| - 1;
      var lastInterval := span.scheduled[last];
      if lastInterval.end != Open {
        return Fail(MismatchedDeschedule(id));
      }
      var span' := span.(scheduled := span.scheduled[..last] + [lastInterval.(end := ts)]);
      DescheduleKeepsTimes(arena, before, ts, h);
      ReplaceKeepsInv(arena, roots, ids, unclosed, ts, h, span');
      arena := arena[h := span'];
      r := Pass;
    }

    method EndSpan(id: SpanId, ts: Timestamp) returns (r: Outcome<LoadError>)
      requires Valid() && maxTs < ts
      modifies this
      ensures Valid() && maxTs == ts
      ensures r.Fail? ==>
                names == old(names) && spans == old(spans) && arena == old(arena) &&
                roots == old(roots) && unclosed == old(unclosed)
      ensures EndOutcome(id, ts, r)
    {
      TimesSeenLater(arena, maxTs, ts);
      ghost var before := maxTs;
      maxTs := ts;
      if id !in unclosed {
        return Fail(DuplicateClose(id));
      }
      // `unclosed` is a subset of `spans.Keys`, so the source's "Missing span ID" check cannot fire here.
      var h := spans[id];
      var span := arena[h];
      var span' := span.(interval := span.interval.(end := ts));
      EndKeepsInv(arena, roots, spans, ids, unclosed, before, ts, h, span');
      arena := arena[h := span'];
      unclosed := unclosed - {id};
      r := Pass;
    }

    /**
     * Fails while any span is unclosed; otherwise sorts every `children`
     * list and `roots` by start time, which leaves them as they were, and
     * returns the trace of all spans, the roots and `maxTs`.
     */
    method Finalize() returns (r: Result<Trace, LoadError>)
      requires Valid()
      modifies this
      ensures Valid()
      ensures arena == old(arena) && roots == old(roots) && maxTs == old(maxTs)
      ensures spans == old(spans) && unclosed == old(unclosed) && names == old(names)
      ensures unclosed != {} ==> r == Failure(UnclosedSpans)
      ensures unclosed == {} ==> r == Success(Trace(arena, roots, maxTs))
      ensures r.Success? ==> WellFormed(r.value)
    {
      if |unclosed| > 0 {
        return Failure(UnclosedSpans);
      }
      var key := Starts(arena);
      LinkedSortedByStart(arena, roots);
      var sortedArena := arena;
      for h := 0 to |sortedArena|
        invariant sortedArena == arena
        modifies {}
      {
        var sorted := StartSort.SortByKey(sortedArena[h].children, key);
        sortedArena := sortedArena[h := sortedArena[h].(children := sorted)];
      }
      arena := sortedArena;
      roots := StartSort.SortByKey(roots, key);
      AllClosed(arena, ids, unclosed, maxTs);
      r := Success(Trace(arena, roots, maxTs));
    }
  }

  /** The arena after `span` is created at the next handle and appended to `parent`'s children. */
  function WithSpan(arena: seq<Span>, parent: Option<nat>, span: Span): (r: seq<Span>)
    requires parent.Some? ==> parent.value < |arena|
    ensures |r| == |arena| + 1 && r[|arena|] == span
    ensures forall h :: 0 <= h < |arena| && Some(h) != parent ==> r[h] == arena[h]
    ensures parent.Some? ==>
              r[parent.value] == arena[parent.value].(children := arena[parent.value].children + [|arena|])
  {
    var h := |arena|;
    match parent
    case None => arena + [span]
    case Some(p) => arena[p := arena[p].(children := arena[p].children + [h])] + [span]
  }

  // ---------------------------------------------------------------------
  // Each event kind preserves the invariant

  lemma LaterThanAllStarts(arena: seq<Span>, maxTs: Timestamp, ts: Timestamp)
    requires TimesSeen(arena, maxTs) && maxTs < ts
    ensures forall h :: 0 <= h < |arena| ==> arena[h].interval.start < ts
  {
    forall h | 0 <= h < |arena| ensures arena[h].interval.start < ts {
      assert IntervalSeen(arena[h].interval, maxTs);
    }
  }

  /** Creating a span keeps the loader invariant. */
  lemma CreateKeepsInv(names: map<string, string>, spans: map<SpanId, nat>, ids: seq<SpanId>, arena: seq<Span>,
                       roots: seq<nat>, ts: Timestamp, unclosed: set<SpanId>, p: Option<nat>, span: Span, id: SpanId)
    requires LoaderInv(names, spans, ids, arena, roots, ts, unclosed)
    requires 0 < ts && id !in spans && (p.Some? ==> p.value < |arena|)
    requires forall h :: 0 <= h < |arena| ==> arena[h].interval.start < ts
    requires span.interval == Interval(ts, Open) && span.parent == p && span.children == [] && span.scheduled == []
    ensures LoaderInv(names, spans[id := |arena|], ids + [id], WithSpan(arena, p, span),
                      if p == None then roots + [|arena|] else roots, ts, unclosed + {id})
  {
    HandlesExtend(spans, ids, |arena|, id);
    assert id !in ids;
    OpenExtend(arena, ids, unclosed, p, span, id);
    TimesExtend(arena, ts, p, span);
    LinksExtend(arena, roots, p, span);
  }

  lemma HandlesExtend(spans: map<SpanId, nat>, ids: seq<SpanId>, n: nat, id: SpanId)
    requires Handles(spans, ids, n) && id !in spans
    ensures Handles(spans[id := n], ids + [id], n + 1)
  {
    var spans', ids' := spans[id := n], ids + [id];
    forall h | 0 <= h < n + 1 ensures ids'[h] in spans' && spans'[ids'[h]] == h {
      if h < n {
        assert ids'[h] == ids[h] && ids[h] in spans && ids[h] != id;
      }
    }
  }

  lemma OpenExtend(arena: seq<Span>, ids: seq<SpanId>, unclosed: set<SpanId>, parent: Option<nat>, span: Span, id: SpanId)
    requires |ids| == |arena| && OpenExactlyUnclosed(arena, ids, unclosed)
    requires parent.Some? ==> parent.value < |arena|
    requires span.interval.end == Open && id !in ids
    ensures OpenExactlyUnclosed(WithSpan(arena, parent, span), ids + [id], unclosed + {id})
  {
    var a, ids' := WithSpan(arena, parent, span), ids + [id];
    forall h | 0 <= h < |a| ensures ids'[h] in unclosed + {id} <==> a[h].interval.end == Open {
      if h < |arena| {
        assert ids'[h] == ids[h] && ids[h] != id && a[h].interval == arena[h].interval;
      }
    }
  }

  lemma TimesExtend(arena: seq<Span>, ts: Timestamp, parent: Option<nat>, span: Span)
    requires TimesSeen(arena, ts) && StartsIncreasing(arena)
    requires forall h :: 0 <= h < |arena| ==> arena[h].interval.start < ts
    requires parent.Some? ==> parent.value < |arena|
    requires span.interval == Interval(ts, Open) && span.scheduled == [] && 1 <= ts
    ensures TimesSeen(WithSpan(arena, parent, span), ts) && StartsIncreasing(WithSpan(arena, parent, span))
  {
    var a := WithSpan(arena, parent, span);
    forall h | 0 <= h < |a| ensures IntervalSeen(a[h].interval, ts) && ScheduleSeen(a[h], ts) {
      if h < |arena| {
        assert a[h].interval == arena[h].interval && a[h].scheduled == arena[h].scheduled;
        assert IntervalSeen(arena[h].interval, ts) && ScheduleSeen(arena[h], ts);
      }
    }
    forall i, j | 0 <= i < j < |a| ensures a[i].interval.start < a[j].interval.start {
      assert a[i].interval == arena[i].interval;
      if j < |arena| {
        assert a[j].interval == arena[j].interval;
      }
    }
  }

  /** Creating a span keeps the parent and children links consistent. */
  lemma LinksExtend(arena: seq<Span>, roots: seq<nat>, parent: Option<nat>, span: Span)
    requires Linked(arena, roots)
    requires parent.Some? ==> parent.value < |arena|
    requires span.parent == parent && span.children == []
    ensures Linked(WithSpan(arena, parent, span), if parent == None then roots + [|arena|] else roots)
  {
    var a := WithSpan(arena, parent, span);
    var n := |arena|;
    forall h | 0 <= h < |a| ensures ParentLinked(a, h) {
      if h < n {
        assert ParentLinked(arena, h);
        if arena[h].parent.Some? {
          var p := arena[h].parent.value;
          assert a[h].parent == arena[h].parent;
          assert h in arena[p].children;
          assert a[p].children == arena[p].children || a[p].children == arena[p].children + [n];
        }
      }
    }
    forall h | 0 <= h < |a| ensures ChildrenLinked(a, h) {
      if h < n {
        ChildrenExtend(arena, a, h, parent);
      }
    }
    RootsExtend(arena, roots, a, parent);
  }

  lemma ChildrenExtend(arena: seq<Span>, a: seq<Span>, h: nat, parent: Option<nat>)
    requires h < |arena| && ChildrenLinked(arena, h)
    requires parent.Some? ==> parent.value < |arena|
    requires |a| == |arena| + 1 && a[|arena|].parent == parent
    requires forall g :: 0 <= g < |arena| ==> a[g].parent == arena[g].parent
    requires Some(h) != parent ==> a[h].children == arena[h].children
    requires Some(h) == parent ==> a[h].children == arena[h].children + [|arena|]
    ensures ChildrenLinked(a, h)
  {
    var cs, cs' := arena[h].children, a[h].children;
    forall k | 0 <= k < |cs'| ensures cs'[k] < |a| && a[cs'[k]].parent == Some(h) {
      if k < |cs| {
        assert cs'[k] == cs[k];
      }
    }
    forall i, j | 0 <= i < j < |cs'| ensures cs'[i] < cs'[j] {
      assert cs'[i] == cs[i];
      if j < |cs| {
        assert cs'[j] == cs[j];
      }
    }
  }

  lemma RootsExtend(arena: seq<Span>, roots: seq<nat>, a: seq<Span>, parent: Option<nat>)
    requires RootsLinked(arena, roots)
    requires |a| == |arena| + 1 && a[|arena|].parent == parent
    requires forall g :: 0 <= g < |arena| ==> a[g].parent == arena[g].parent
    ensures RootsLinked(a, if parent == None then roots + [|arena|] else roots)
  {
    var roots' := if parent == None then roots + [|arena|] else roots;
    forall k | 0 <= k < |roots'| ensures roots'[k] < |a| && a[roots'[k]].parent == None {
      if k < |roots| {
        assert roots'[k] == roots[k];
      }
    }
    forall i, j | 0 <= i < j < |roots'| ensures roots'[i] < roots'[j] {
      assert roots'[i] == roots[i];
      if j < |roots| {
        assert roots'[j] == roots[j];
      }
    }
  }

  /** A `Schedule` at `ts` keeps every period within the timestamps seen. */
  lemma ScheduleKeepsTimes(arena: seq<Span>, maxTs: Timestamp, ts: Timestamp, h: nat)
    requires TimesSeen(arena, maxTs) && maxTs < ts && h < |arena|
    requires var sch := arena[h].scheduled; sch == [] || sch[|sch| - 1].end != Open
    ensures IntervalSeen(arena[h].interval, ts)
    ensures ScheduleSeen(arena[h].(scheduled := arena[h].scheduled + [Interval(ts, Open)]), ts)
  {
    var span := arena[h];
    var sch := span.scheduled + [Interval(ts, Open)];
    assert IntervalSeen(span.interval, maxTs) && ScheduleSeen(span, maxTs);
    forall k | 0 <= k < |sch| ensures span.interval.start < sch[k].start && IntervalSeen(sch[k], ts) {
      if k < |span.scheduled| {
        assert sch[k] == span.scheduled[k];
      }
    }
    forall k | 0 <= k < |sch| - 1 ensures sch[k].end != Open && sch[k].end < sch[k + 1].start {
      assert sch[k] == span.scheduled[k];
      if k + 1 < |span.scheduled| {
        assert sch[k + 1] == span.scheduled[k + 1];
      } else {
        assert IntervalSeen(span.scheduled[k], maxTs);
      }
    }
  }

  /** A `Deschedule` at `ts` closes the open last period after it started. */
  lemma DescheduleKeepsTimes(arena: seq<Span>, maxTs: Timestamp, ts: Timestamp, h: nat)
    requires TimesSeen(arena, maxTs) && maxTs < ts && h < |arena|
    requires var sch := arena[h].scheduled; sch != [] && sch[|sch| - 1].end == Open
    ensures IntervalSeen(arena[h].interval, ts)
    ensures var sch := arena[h].scheduled;
            ScheduleSeen(arena[h].(scheduled := sch[..|sch| - 1] + [sch[|sch| - 1].(end := ts)]), ts)
  {
    var span := arena[h];
    var last := |span.scheduled| - 1;
    var sch := span.scheduled[..last] + [span.scheduled[last].(end := ts)];
    assert IntervalSeen(span.interval, maxTs) && ScheduleSeen(span, maxTs);
    forall k | 0 <= k < |sch| ensures span.interval.start < sch[k].start && IntervalSeen(sch[k], ts) {
      assert sch[k].start == span.scheduled[k].start;
      assert IntervalSeen(span.scheduled[k], maxTs);
      if k < last {
        assert sch[k] == span.scheduled[k];
      }
    }
    forall k | 0 <= k < |sch| - 1 ensures sch[k].end != Open && sch[k].end < sch[k + 1].start {
      assert sch[k] == span.scheduled[k];
      assert sch[k + 1].start == span.scheduled[k + 1].start;
    }
  }

  /** Replacing span `h` by one with the same links, start and end keeps the invariant at `ts`. */
  lemma ReplaceKeepsInv(arena: seq<Span>, roots: seq<nat>, ids: seq<SpanId>, unclosed: set<SpanId>, ts: Timestamp, h: nat, span': Span)
    requires h < |arena| && |ids| == |arena|
    requires TimesSeen(arena, ts) && StartsIncreasing(arena) && Linked(arena, roots)
    requires OpenExactlyUnclosed(arena, ids, unclosed)
    requires span'.interval == arena[h].interval && span'.parent == arena[h].parent
    requires span'.children == arena[h].children
    requires ScheduleSeen(span', ts)
    ensures TimesSeen(arena[h := span'], ts) && StartsIncreasing(arena[h := span'])
    ensures Linked(arena[h := span'], roots) && OpenExactlyUnclosed(arena[h := span'], ids, unclosed)
  {
    var a := arena[h := span'];
    forall g | 0 <= g < |a| ensures IntervalSeen(a[g].interval, ts) && ScheduleSeen(a[g], ts) {
      assert IntervalSeen(arena[g].interval, ts) && ScheduleSeen(arena[g], ts);
    }
    SameLinks(arena, a, roots, h);
  }

  /** A `SpanEnd` at `ts` on an unclosed span closes it after its start. */
  lemma EndKeepsInv(arena: seq<Span>, roots: seq<nat>, spans: map<SpanId, nat>, ids: seq<SpanId>, unclosed: set<SpanId>,
                    maxTs: Timestamp, ts: Timestamp, h: nat, span': Span)
    requires Handles(spans, ids, |arena|) && h < |arena|
    requires TimesSeen(arena, maxTs) && maxTs < ts && StartsIncreasing(arena) && Linked(arena, roots)
    requires OpenExactlyUnclosed(arena, ids, unclosed) && ids[h] in unclosed
    requires span' == arena[h].(interval := arena[h].interval.(end := ts))
    ensures TimesSeen(arena[h := span'], ts) && StartsIncreasing(arena[h := span'])
    ensures Linked(arena[h := span'], roots) && OpenExactlyUnclosed(arena[h := span'], ids, unclosed - {ids[h]})
  {
    var a := arena[h := span'];
    TimesSeenLater(arena, maxTs, ts);
    forall g | 0 <= g < |a| ensures IntervalSeen(a[g].interval, ts) && ScheduleSeen(a[g], ts) {
      assert IntervalSeen(arena[g].interval, ts) && ScheduleSeen(arena[g], ts);
      if g == h {
        assert IntervalSeen(arena[g].interval, maxTs);
        assert forall k :: 0 <= k < |a[g].scheduled| ==> a[g].scheduled[k] == arena[g].scheduled[k];
      }
    }
    forall g | 0 <= g < |a| ensures ids[g] in unclosed - {ids[h]} <==> a[g].interval.end == Open {
      if g != h {
        assert ids[g] != ids[h];
      }
    }
    SameLinks(arena, a, roots, h);
  }

  /** Changing one span without touching its links or start keeps the links and start order. */
  lemma SameLinks(arena: seq<Span>, arena': seq<Span>, roots: seq<nat>, h: nat)
    requires Linked(arena, roots) && StartsIncreasing(arena)
    requires h < |arena| && |arena'| == |arena|
    requires forall g :: 0 <= g < |arena| && g != h ==> arena'[g] == arena[g]
    requires arena'[h].parent == arena[h].parent && arena'[h].children == arena[h].children
    requires arena'[h].interval.start == arena[h].interval.start
    ensures Linked(arena', roots) && StartsIncreasing(arena')
  {
    forall g | 0 <= g < |arena'| ensures ParentLinked(arena', g) && ChildrenLinked(arena', g) {
      assert ParentLinked(arena, g) && ChildrenLinked(arena, g);
    }
  }

  /** With nothing unclosed, every span has an end. */
  lemma AllClosed(arena: seq<Span>, ids: seq<SpanId>, unclosed: set<SpanId>, maxTs: Timestamp)
    requires |ids| == |arena| && OpenExactlyUnclosed(arena, ids, unclosed) && unclosed == {}
    ensures forall h :: 0 <= h < |arena| ==> arena[h].interval.end != Open
  {
  }
}
