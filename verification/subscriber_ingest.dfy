/**
  The resumable ingest pass `run`: it loads the persisted `fetched` set, walks
  the master list minus `fetched` once, and for each subreddit whose fetch
  yields at least one row writes the rows, adds the name to `fetched` and
  persists the whole set.  Every other outcome leaves the state alone, so the
  subreddit is tried again on the next run.

  The world is abstract: `Env` says what the server answers and which writes
  fail, and the pass returns its final `fetched` set together with the trace
  of effects it performed, in order.
 */
module SubscriberIngest {
  import opened Wrappers
  import opened SubscriberFetch
  import DateFormat

  /** One output row, as put into the parquet table. */
  datatype Row = Row(subreddit: string, date: string, subscribers: int)

  /** The bounds of the table's `int64` subscriber column. */
  const Int64Min := -0x8000_0000_0000_0000
  const Int64Max := 0x7FFF_FFFF_FFFF_FFFF

  /** How the handling of one subreddit ended. */
  datatype Outcome =
    | FetchRaised        // fetch_subreddit_stats raised (retries exhausted)
    | StatsMissing       // `not stats`: a 404, or a falsy body
    | NotAnObject        // `stats.get` raised: the body is not an object
    | SeriesMissing      // no or empty `subscriberCountTimeSeries`
    | DayOutOfRange      // utc_day_to_date raised on a point
    | NoValidPoints      // every point lacked `utcDay` or `count`
    | CountTooWide       // building the int64 column raised
    | HasRows(rows: seq<Row>)

  /** The environment of one run: `server(i, k)` answers attempt `k` of the
      fetch for the `i`-th pending subreddit, and `writeFails(i)` /
      `saveFails(i)` say whether `save_raw_parquet` / `save_state` raise for
      it. */
  datatype Env = Env(
    server: (nat, nat) -> Reply,
    writeFails: nat -> bool,
    saveFails: nat -> bool)

  /** An observable effect of the pass. */
  datatype Effect =
    | Fetch(subreddit: string)
    | WriteRows(subreddit: string, rows: seq<Row>)
    | SaveState(fetched: set<string>)

  datatype RunState = RunState(fetched: set<string>, trace: seq<Effect>)

  // ---------------------------------------------------------------------
  // Pending list

  /** `set(state.get("fetched", []))`: the persisted list as a set. */
  function SavedSet(saved: seq<string>): (r: set<string>)
    ensures forall s :: s in r <==> s in saved
  {
    set s | s in saved
  }

  /** `a` occurs in `b` in order, possibly with gaps. */
  predicate IsSubsequence<T(==)>(a: seq<T>, b: seq<T>)
    decreases |b|
  {
    if a == [] then true
    else if b == [] then false
    else if a[0] == b[0] then IsSubsequence(a[1..], b[1..])
    else IsSubsequence(a, b[1..])
  }

  /** `[s for s in subreddits if s not in fetched]`. */
  function Pending(subreddits: seq<string>, fetched: set<string>): (r: seq<string>)
    ensures forall s :: s in r <==> s in subreddits && s !in fetched
    ensures forall s :: multiset(r)[s] == if s in fetched then 0 else multiset(subreddits)[s]
    ensures IsSubsequence(r, subreddits)
  {
    if subreddits == [] then []
    else
      var rest := Pending(subreddits[1..], fetched);
      assert subreddits == [subreddits[0]] + subreddits[1..];
      if subreddits[0] in fetched then rest else [subreddits[0]] + rest
  }

  // ---------------------------------------------------------------------
  // Rows

  predicate HasBoth(p: Point) {
    p.utcDay.Some? && p.count.Some?
  }

  /** The points that carry both `utcDay` and `count`, in input order. */
  function CompletePoints(points: seq<Point>): (r: seq<Point>)
    ensures |r| <= |points|
    ensures forall k :: 0 <= k < |r| ==> HasBoth(r[k])
    ensures forall p :: p in r <==> p in points && HasBoth(p)
    ensures forall p :: multiset(r)[p] == if HasBoth(p) then multiset(points)[p] else 0
    ensures IsSubsequence(r, points)
  {
    if points == [] then []
    else
      var p, rest := points[0], CompletePoints(points[1..]);
      assert points == [p] + points[1..];
      assert multiset(points) == multiset{p} + multiset(points[1..]);
      if HasBoth(p) then
        assert ([p] + rest)[1..] == rest;
        [p] + rest
      else
        assert rest != [] ==> rest[0] != p;
        rest
  }

  /** Filtering the concatenation filters each part, in order. */
  lemma {:induction false} CompletePointsAppend(a: seq<Point>, b: seq<Point>)
    ensures CompletePoints(a + b) == CompletePoints(a) + CompletePoints(b)
    decreases |a|
  {
    if a == [] {
      assert a + b == b;
    } else {
      var ab := a + b;
      assert ab[0] == a[0] && ab[1..] == a[1..] + b;
      CompletePointsAppend(a[1..], b);
      var head := if HasBoth(a[0]) then [a[0]] else [];
      ConcatAssoc(head, CompletePoints(a[1..]), CompletePoints(b));
    }
  }

  predicate DayInRange(p: Point)
    requires HasBoth(p)
  {
    DateFormat.MinDay <= p.utcDay.value <= DateFormat.MaxDay
  }

  /** The row for one point carrying both keys; `None` when
      `utc_day_to_date` raises on its day. */
  function RowFor(subreddit: string, p: Point): (r: Option<Row>)
    requires HasBoth(p)
    ensures r.Some? <==> DayInRange(p)
    ensures r.Some? ==>
      && r.value.subreddit == subreddit
      && r.value.subscribers == p.count.value
      && DateFormat.ParseDay(r.value.date) == Some(p.utcDay.value)
  {
    match DateFormat.UtcDayToDate(p.utcDay.value)
    case None => None
    case Some(date) =>
      DateFormat.UtcDayRoundTrip(p.utcDay.value);
      Some(Row(subreddit, date, p.count.value))
  }

  /** Rows for points that all carry both keys; `None` when
      `utc_day_to_date` raises on one of them. */
  function ToRows(subreddit: string, points: seq<Point>): (r: Option<seq<Row>>)
    requires forall k :: 0 <= k < |points| ==> HasBoth(points[k])
    ensures r.Some? <==> forall k :: 0 <= k < |points| ==> DayInRange(points[k])
    ensures r.Some? ==> |r.value| == |points|
    ensures r.Some? ==> forall k :: 0 <= k < |r.value| ==>
      && HasBoth(points[k])
      && r.value[k].subreddit == subreddit
      && r.value[k].subscribers == points[k].count.value
      && DateFormat.ParseDay(r.value[k].date) == Some(points[k].utcDay.value)
  {
    if forall k :: 0 <= k < |points| ==> DayInRange(points[k]) then
      var rows := seq(|points|, k requires 0 <= k < |points| => RowFor(subreddit, points[k]).value);
      assert forall k :: 0 <= k < |rows| ==>
        && HasBoth(points[k])
        && rows[k].subreddit == subreddit
        && rows[k].subscribers == points[k].count.value
        && DateFormat.ParseDay(rows[k].date) == Some(points[k].utcDay.value)
      by {
        forall k | 0 <= k < |rows|
          ensures HasBoth(points[k])
          ensures rows[k].subreddit == subreddit
          ensures rows[k].subscribers == points[k].count.value
          ensures DateFormat.ParseDay(rows[k].date) == Some(points[k].utcDay.value)
        {
          var row := RowFor(subreddit, points[k]);
          assert rows[k] == row.value;
        }
      }
      Some(rows)
    else None
  }

  /** The row-building loop: one row per point that has both `utcDay` and
      `count`, in input order, tagged with the subreddit; `None` when
      `utc_day_to_date` raises on one of those points. */
  function ExtractRows(subreddit: string, points: seq<Point>): (r: Option<seq<Row>>)
    ensures r.Some? <==> forall p :: p in points && HasBoth(p) ==> DayInRange(p)
    ensures r.Some? ==> |r.value| == |CompletePoints(points)| <= |points|
    ensures r.Some? ==> forall k :: 0 <= k < |r.value| ==>
      && r.value[k].subreddit == subreddit
      && r.value[k].subscribers == CompletePoints(points)[k].count.value
      && DateFormat.ParseDay(r.value[k].date) == Some(CompletePoints(points)[k].utcDay.value)
  {
    ToRows(subreddit, CompletePoints(points))
  }

  predicate FitsInt64(rows: seq<Row>) {
    forall k :: 0 <= k < |rows| ==> Int64Min <= rows[k].subscribers <= Int64Max
  }

  /** The branches of the loop body, from the result of the fetch up to the
      point where rows are ready to be written. */
  function Classify(subreddit: string, fetched: Fetched): (o: Outcome)
    ensures o.HasRows? ==> o.rows != [] && FitsInt64(o.rows)
    ensures o.HasRows? ==> forall k :: 0 <= k < |o.rows| ==> o.rows[k].subreddit == subreddit
    ensures o.HasRows? <==>
      fetched.Body? && fetched.payload.StatsObject? && fetched.payload.series.Some?
      && ExtractRows(subreddit, fetched.payload.series.value).Some?
      && ExtractRows(subreddit, fetched.payload.series.value).value != []
      && FitsInt64(ExtractRows(subreddit, fetched.payload.series.value).value)
    ensures o.HasRows? ==> o.rows == ExtractRows(subreddit, fetched.payload.series.value).value
  {
    match fetched
    case Raised => FetchRaised
    case NotFound => StatsMissing
    case Body(Falsy) => StatsMissing
    case Body(NonObject) => NotAnObject
    case Body(StatsObject(None)) => SeriesMissing
    case Body(StatsObject(Some(points))) =>
      if points == [] then SeriesMissing
      else
        match ExtractRows(subreddit, points)
        case None => DayOutOfRange
        case Some(rows) =>
          if rows == [] then NoValidPoints
          else if !FitsInt64(rows) then CountTooWide
          else HasRows(rows)
  }

  /** How the `i`-th pending subreddit's handling ends in `env`. */
  function OutcomeAt(env: Env, i: nat, subreddit: string): Outcome {
    Classify(subreddit, FetchStats((k: nat) => env.server(i, k)))
  }

  /** The `i`-th pending subreddit ends up in `fetched`: it produced rows and
      writing them did not raise. */
  predicate Succeeds(env: Env, i: nat, subreddit: string) {
    OutcomeAt(env, i, subreddit).HasRows? && !env.writeFails(i)
  }

  /** What the loop body does with one subreddit once the fetch, the row
      building and the write have played out: nothing lasting, or the rows
      were written and `save_state` then raised or not. */
  datatype Decision =
    | Skip
    | Write(rows: seq<Row>, saveRaises: bool)

  /** The rows a decision writes are non-empty and tagged with the
      subreddit, as the loop body guarantees. */
  predicate Proper(subreddit: string, d: Decision) {
    d.Write? ==> d.rows != [] && forall k :: 0 <= k < |d.rows| ==> d.rows[k].subreddit == subreddit
  }

  /** The decision for the `i`-th pending subreddit in `env`. */
  function Decide(env: Env, i: nat, subreddit: string): (d: Decision)
    ensures d.Write? <==> Succeeds(env, i, subreddit)
    ensures d.Write? ==> d.rows == OutcomeAt(env, i, subreddit).rows && d.saveRaises == env.saveFails(i)
    ensures Proper(subreddit, d)
  {
    if Succeeds(env, i, subreddit) then Write(OutcomeAt(env, i, subreddit).rows, env.saveFails(i))
    else Skip
  }

  /** The decisions for the whole pending list, one per position. */
  function Decisions(env: Env, pending: seq<string>): (ds: seq<Decision>)
    ensures |ds| == |pending|
    ensures forall k :: 0 <= k < |ds| ==> ds[k] == Decide(env, k, pending[k])
  {
    seq(|pending|, k requires 0 <= k < |pending| => Decide(env, k, pending[k]))
  }

  // ---------------------------------------------------------------------
  // The pass

  /** One iteration of the loop, exceptions included: every outcome but a
      successful write leaves `fetched` alone and only records the attempt;
      a successful write is followed by adding the name and then, unless
      `save_state` raises, by persisting the whole set. */
  function Step(subreddit: string, d: Decision, st: RunState): RunState {
    var attempted := st.trace + [Fetch(subreddit)];
    match d
    case Skip => RunState(st.fetched, attempted)
    case Write(rows, saveRaises) =>
      var fetched := st.fetched + {subreddit};
      var written := attempted + [WriteRows(subreddit, rows)];
      if saveRaises then RunState(fetched, written)
      else RunState(fetched, written + [SaveState(fetched)])
  }

  /** The loop from the `i`-th pending subreddit on. */
  function Loop(pending: seq<string>, ds: seq<Decision>, i: nat, st: RunState): (r: RunState)
    requires |ds| == |pending| && i <= |pending|
    ensures st.fetched <= r.fetched
    ensures st.trace <= r.trace && |r.trace| >= |st.trace| + (|pending| - i)
    decreases |pending| - i
  {
    if i == |pending| then st
    else
      StepEffects(pending[i], ds[i], st);
      Loop(pending, ds, i + 1, Step(pending[i], ds[i], st))
  }

  /** `run()`, given the master list and the persisted `fetched` list. */
  function Run(env: Env, subreddits: seq<string>, saved: seq<string>): (r: RunState)
    ensures SavedSet(saved) <= r.fetched
    ensures |r.trace| >= |Pending(subreddits, SavedSet(saved))|
  {
    var fetched := SavedSet(saved);
    var pending := Pending(subreddits, fetched);
    Loop(pending, Decisions(env, pending), 0, RunState(fetched, []))
  }

  /** What one iteration does: `fetched` gains at most the subreddit, and
      gains it exactly when its rows are written; the trace is only
      extended, first by the fetch, then by the write when there is one; it
      ends with a save of the new set exactly when there is a write whose
      save does not raise. */
  lemma StepEffects(subreddit: string, d: Decision, st: RunState)
    ensures var r := Step(subreddit, d, st);
      && st.fetched <= r.fetched <= st.fetched + {subreddit}
      && (subreddit in r.fetched <==> d.Write? || subreddit in st.fetched)
      && |st.trace| < |r.trace| && r.trace[..|st.trace|] == st.trace
      && r.trace[|st.trace|] == Fetch(subreddit)
      && (d.Skip? ==> |r.trace| == |st.trace| + 1)
      && (d.Write? ==> WriteRows(subreddit, d.rows) in r.trace)
      && (r.trace[|r.trace| - 1] == SaveState(r.fetched) <==> d.Write? && !d.saveRaises)
  {
    var attempted := st.trace + [Fetch(subreddit)];
    assert attempted[..|st.trace|] == st.trace;
    if d.Write? {
      var fetched := st.fetched + {subreddit};
      var written := attempted + [WriteRows(subreddit, d.rows)];
      assert written[..|st.trace|] == st.trace;
      assert (written + [SaveState(fetched)])[..|st.trace|] == st.trace;
    }
  }

  // ---------------------------------------------------------------------
  // Views of a trace

  function Last<T>(s: seq<T>): T
    requires s != []
  {
    s[|s| - 1]
  }

  function AllButLast<T>(s: seq<T>): seq<T>
    requires s != []
  {
    s[..|s| - 1]
  }

  /** The subreddits fetched, in order. */
  function Fetches(trace: seq<Effect>): seq<string> {
    if trace == [] then []
    else Fetches(AllButLast(trace)) + (if Last(trace).Fetch? then [Last(trace).subreddit] else [])
  }

  /** The subreddits whose rows were written. */
  function Written(trace: seq<Effect>): set<string> {
    if trace == [] then {}
    else Written(AllButLast(trace)) + (if Last(trace).WriteRows? then {Last(trace).subreddit} else {})
  }

  /** What the next run's `load_state` returns: the set of the last save
      in the trace, or the starting set when no save succeeded. */
  function Persisted(start: set<string>, trace: seq<Effect>): set<string> {
    if trace == [] then start
    else if Last(trace).SaveState? then Last(trace).fetched
    else Persisted(start, AllButLast(trace))
  }

  /** The order the effects of one subreddit come in, and what each save
      holds: a write directly follows the fetch of the same subreddit and
      writes a non-empty set of rows tagged with it; a save directly follows
      a write and holds the starting set plus every subreddit written so
      far. */
  predicate WellOrdered(start: set<string>, trace: seq<Effect>) {
    if trace == [] then true
    else
      var t := AllButLast(trace);
      WellOrdered(start, t) &&
      match Last(trace)
      case Fetch(_) => true
      case WriteRows(s, rows) =>
        && t != [] && Last(t) == Fetch(s) && rows != []
        && forall k :: 0 <= k < |rows| ==> rows[k].subreddit == s
      case SaveState(f) =>
        t != [] && Last(t).WriteRows? && f == start + Written(t)
  }

  lemma AppendOne(trace: seq<Effect>, e: Effect)
    ensures AllButLast(trace + [e]) == trace && Last(trace + [e]) == e
  {
  }

  lemma StepAdds(subreddit: string, d: Decision, st: RunState)
    ensures Step(subreddit, d, st).fetched == st.fetched + (if d.Write? then {subreddit} else {})
  {
  }

  lemma StepFetches(subreddit: string, d: Decision, st: RunState)
    ensures Fetches(Step(subreddit, d, st).trace) == Fetches(st.trace) + [subreddit]
  {
    var t1 := st.trace + [Fetch(subreddit)];
    AppendOne(st.trace, Fetch(subreddit));
    if d.Write? {
      var t2 := t1 + [WriteRows(subreddit, d.rows)];
      AppendOne(t1, WriteRows(subreddit, d.rows));
      assert Fetches(t2) == Fetches(t1);
      if !d.saveRaises {
        var t3 := t2 + [SaveState(st.fetched + {subreddit})];
        AppendOne(t2, SaveState(st.fetched + {subreddit}));
        assert Step(subreddit, d, st).trace == t3;
        assert Fetches(t3) == Fetches(t2);
      } else {
        assert Step(subreddit, d, st).trace == t2;
      }
    } else {
      assert Step(subreddit, d, st).trace == t1;
    }
  }

  /** A step keeps the trace well ordered and `fetched` equal to the
      starting set plus the subreddits written. */
  lemma StepKeepsInvariant(start: set<string>, subreddit: string, d: Decision, st: RunState)
    requires Proper(subreddit, d)
    requires WellOrdered(start, st.trace) && st.fetched == start + Written(st.trace)
    ensures WellOrdered(start, Step(subreddit, d, st).trace)
    ensures Step(subreddit, d, st).fetched == start + Written(Step(subreddit, d, st).trace)
  {
    var t1 := st.trace + [Fetch(subreddit)];
    AppendOne(st.trace, Fetch(subreddit));
    if d.Write? {
      var t2 := t1 + [WriteRows(subreddit, d.rows)];
      AppendOne(t1, WriteRows(subreddit, d.rows));
      if !d.saveRaises {
        var t3 := t2 + [SaveState(st.fetched + {subreddit})];
        AppendOne(t2, SaveState(st.fetched + {subreddit}));
        assert Step(subreddit, d, st).trace == t3;
      } else {
        assert Step(subreddit, d, st).trace == t2;
      }
    } else {
      assert Step(subreddit, d, st).trace == t1;
    }
  }

  /** The loop keeps the invariant. */
  lemma {:induction false} LoopKeepsInvariant(start: set<string>, pending: seq<string>, ds: seq<Decision>, i: nat, st: RunState)
    requires |ds| == |pending| && i <= |pending|
    requires forall k :: 0 <= k < |ds| ==> Proper(pending[k], ds[k])
    requires WellOrdered(start, st.trace) && st.fetched == start + Written(st.trace)
    ensures WellOrdered(start, Loop(pending, ds, i, st).trace)
    ensures Loop(pending, ds, i, st).fetched == start + Written(Loop(pending, ds, i, st).trace)
    decreases |pending| - i
  {
    if i < |pending| {
      var st' := Step(pending[i], ds[i], st);
      StepKeepsInvariant(start, pending[i], ds[i], st);
      LoopKeepsInvariant(start, pending, ds, i + 1, st');
    }
  }

  /** The loop fetches exactly the remaining pending subreddits, in order. */
  lemma {:induction false} LoopFetches(pending: seq<string>, ds: seq<Decision>, i: nat, st: RunState)
    requires |ds| == |pending| && i <= |pending|
    ensures Fetches(Loop(pending, ds, i, st).trace) == Fetches(st.trace) + pending[i..]
    decreases |pending| - i
  {
    if i < |pending| {
      var st' := Step(pending[i], ds[i], st);
      var f, rest := Fetches(st.trace), pending[i + 1..];
      StepFetches(pending[i], ds[i], st);
      assert Fetches(st'.trace) == f + [pending[i]];
      LoopFetches(pending, ds, i + 1, st');
      assert pending[i..] == [pending[i]] + rest;
      ConcatAssoc(f, [pending[i]], rest);
    }
  }

  /** The subreddits among `pending[i..]` whose decision is a write. */
  function WrittenFrom(pending: seq<string>, ds: seq<Decision>, i: nat): set<string>
    requires |ds| == |pending| && i <= |pending|
  {
    set k | i <= k < |pending| && ds[k].Write? :: pending[k]
  }

  lemma {:induction false} LoopAddsWrites(pending: seq<string>, ds: seq<Decision>, i: nat, st: RunState)
    requires |ds| == |pending| && i <= |pending|
    ensures Loop(pending, ds, i, st).fetched == st.fetched + WrittenFrom(pending, ds, i)
    decreases |pending| - i
  {
    if i < |pending| {
      var st' := Step(pending[i], ds[i], st);
      var added := if ds[i].Write? then {pending[i]} else {};
      StepAdds(pending[i], ds[i], st);
      assert st'.fetched == st.fetched + added;
      LoopAddsWrites(pending, ds, i + 1, st');
      assert WrittenFrom(pending, ds, i)
          == added + WrittenFrom(pending, ds, i + 1);
    }
  }

  /** The subreddits among `pending[i..]` whose handling succeeds. */
  function Successes(env: Env, pending: seq<string>, i: nat): set<string>
    requires i <= |pending|
  {
    set k | i <= k < |pending| && Succeeds(env, k, pending[k]) :: pending[k]
  }

  // ---------------------------------------------------------------------
  // Properties of a whole run

  /** Every pending subreddit is fetched exactly once, in list order; no
      outcome, an exception included, ends the loop early. */
  lemma RunFetchesEachPendingOnce(env: Env, subreddits: seq<string>, saved: seq<string>)
    ensures Fetches(Run(env, subreddits, saved).trace) == Pending(subreddits, SavedSet(saved))
  {
    var f := SavedSet(saved);
    var pending := Pending(subreddits, f);
    LoopFetches(pending, Decisions(env, pending), 0, RunState(f, []));
    assert pending[0..] == pending;
  }

  /** `fetched` only grows, and it grows by exactly the pending subreddits
      some occurrence of which produced rows that were written. */
  lemma RunAddsExactlySuccesses(env: Env, subreddits: seq<string>, saved: seq<string>)
    ensures var r := Run(env, subreddits, saved);
      var pending := Pending(subreddits, SavedSet(saved));
      && r.fetched == SavedSet(saved) + Successes(env, pending, 0)
      && SavedSet(saved) <= r.fetched
      && forall s :: s in r.fetched - SavedSet(saved) ==> s in pending
  {
    var f := SavedSet(saved);
    var pending := Pending(subreddits, f);
    var ds := Decisions(env, pending);
    LoopAddsWrites(pending, ds, 0, RunState(f, []));
    assert WrittenFrom(pending, ds, 0) == Successes(env, pending, 0);
  }

  /** In a well-ordered trace the persisted set lies between the starting
      set and the starting set plus everything written. */
  lemma {:induction false} PersistedBounds(start: set<string>, trace: seq<Effect>)
    requires WellOrdered(start, trace)
    ensures start <= Persisted(start, trace) <= start + Written(trace)
  {
    if trace != [] {
      PersistedBounds(start, AllButLast(trace));
    }
  }

  /** No save succeeds after position `k`. */
  predicate LastSaveAt(trace: seq<Effect>, k: nat) {
    forall j :: k < j < |trace| ==> !trace[j].SaveState?
  }

  /** In a well-ordered trace the persisted set is what the last successful
      save wrote: the loaded set when no save succeeded, and otherwise the
      loaded set plus every subreddit written before that save.  A write
      after the last successful save is therefore not persisted, and one
      before it is. */
  lemma {:induction false} PersistedIsLastSave(start: set<string>, trace: seq<Effect>)
    requires WellOrdered(start, trace)
    ensures (forall k :: 0 <= k < |trace| ==> !trace[k].SaveState?) ==>
      Persisted(start, trace) == start
    ensures forall k ::
      (0 <= k < |trace| && trace[k].SaveState? && LastSaveAt(trace, k)) ==>
      Persisted(start, trace) == start + Written(trace[..k])
  {
    if trace != [] {
      var init := AllButLast(trace);
      PersistedIsLastSave(start, init);
      if Last(trace).SaveState? {
        WellOrderedAt(start, trace, |trace| - 1);
      } else {
        forall k | 0 <= k < |trace| && trace[k].SaveState? && LastSaveAt(trace, k)
          ensures Persisted(start, trace) == start + Written(trace[..k])
        {
          assert k < |init| && init[k] == trace[k];
          assert forall j :: k < j < |init| ==> init[j] == trace[j];
          assert init[..k] == trace[..k];
        }
        if forall k :: 0 <= k < |trace| ==> !trace[k].SaveState? {
          assert forall k :: 0 <= k < |init| ==> init[k] == trace[k];
        }
      }
    }
  }

  /** An instance of `PersistedIsLastSave`: a single pending subreddit whose
      rows are written but whose `save_state` raises is in the in-memory
      set yet not persisted, so the next run fetches it again. */
  lemma UnsavedWriteIsFetchedAgain(rows: seq<Row>)
    ensures var r := Loop(["a"], [Write(rows, true)], 0, RunState({}, []));
      && "a" in r.fetched
      && "a" !in Persisted({}, r.trace)
      && Pending(["a"], Persisted({}, r.trace)) == ["a"]
  {
    var r := Loop(["a"], [Write(rows, true)], 0, RunState({}, []));
    var t1 := [Fetch("a")];
    assert r.trace == t1 + [WriteRows("a", rows)];
    AppendOne(t1, WriteRows("a", rows));
    AppendOne([], Fetch("a"));
    assert Persisted({}, t1) == {};
  }

  /** A subreddit that was fetched but did not succeed is left out of
      `fetched` (unless it was there already or another occurrence
      succeeded) and out of the persisted set: it will be pending again
      next run. */
  lemma RunRetriesFailures(env: Env, subreddits: seq<string>, saved: seq<string>, s: string)
    requires s !in SavedSet(saved)
    requires forall k :: 0 <= k < |Pending(subreddits, SavedSet(saved))|
               && Pending(subreddits, SavedSet(saved))[k] == s
               ==> !Succeeds(env, k, s)
    ensures s !in Run(env, subreddits, saved).fetched
    ensures s !in Persisted(SavedSet(saved), Run(env, subreddits, saved).trace)
    ensures s in subreddits ==>
      s in Pending(subreddits, Persisted(SavedSet(saved), Run(env, subreddits, saved).trace))
  {
    var f := SavedSet(saved);
    var pending := Pending(subreddits, f);
    RunAddsExactlySuccesses(env, subreddits, saved);
    LoopKeepsInvariant(f, pending, Decisions(env, pending), 0, RunState(f, []));
    PersistedBounds(f, Run(env, subreddits, saved).trace);
  }

  lemma {:induction false} WellOrderedPrefix(start: set<string>, trace: seq<Effect>, n: nat)
    requires WellOrdered(start, trace) && n <= |trace|
    ensures WellOrdered(start, trace[..n])
    decreases |trace| - n
  {
    if n < |trace| {
      WellOrderedPrefix(start, AllButLast(trace), n);
      assert AllButLast(trace)[..n] == trace[..n];
    } else {
      assert trace[..n] == trace;
    }
  }

  /** Every write comes straight after the fetch of its subreddit and
      writes at least one row. */
  predicate WritesFollowFetches(trace: seq<Effect>) {
    forall k :: 0 <= k < |trace| && trace[k].WriteRows? ==>
      k > 0 && trace[k - 1] == Fetch(trace[k].subreddit) && trace[k].rows != []
  }

  /** Every save comes straight after a write and persists the whole current
      set: the loaded set plus every subreddit written before it. */
  predicate SavesAreSnapshots(start: set<string>, trace: seq<Effect>) {
    forall k :: 0 <= k < |trace| && trace[k].SaveState? ==>
      k > 0 && trace[k - 1].WriteRows? && trace[k].fetched == start + Written(trace[..k])
  }

  /** `WellOrdered` read at every position at once. */
  lemma WellOrderedMeans(start: set<string>, trace: seq<Effect>)
    requires WellOrdered(start, trace)
    ensures WritesFollowFetches(trace) && SavesAreSnapshots(start, trace)
  {
    forall k | 0 <= k < |trace|
      ensures trace[k].WriteRows? ==>
        k > 0 && trace[k - 1] == Fetch(trace[k].subreddit) && trace[k].rows != []
      ensures trace[k].SaveState? ==>
        k > 0 && trace[k - 1].WriteRows? && trace[k].fetched == start + Written(trace[..k])
    {
      WellOrderedAt(start, trace, k);
    }
  }

  /** The per-position reading of `WellOrdered`. */
  lemma WellOrderedAt(start: set<string>, trace: seq<Effect>, k: nat)
    requires WellOrdered(start, trace) && k < |trace|
    ensures trace[k].WriteRows? ==>
      k > 0 && trace[k - 1] == Fetch(trace[k].subreddit) && trace[k].rows != []
    ensures trace[k].SaveState? ==>
      k > 0 && trace[k - 1].WriteRows? && trace[k].fetched == start + Written(trace[..k])
  {
    WellOrderedPrefix(start, trace, k + 1);
    var t := trace[..k + 1];
    assert AllButLast(t) == trace[..k] && Last(t) == trace[k];
    if k > 0 {
      assert Last(trace[..k]) == trace[k - 1];
    }
  }

  /** In the trace of a run every write comes straight after the fetch of
      its subreddit, every save straight after a write, and every save
      persists the whole current set, never a partial update.  At the end
      `fetched` is exactly the loaded set plus the subreddits written. */
  lemma RunPersistsAfterWrite(env: Env, subreddits: seq<string>, saved: seq<string>)
    ensures Run(env, subreddits, saved).fetched == SavedSet(saved) + Written(Run(env, subreddits, saved).trace)
    ensures WritesFollowFetches(Run(env, subreddits, saved).trace)
    ensures SavesAreSnapshots(SavedSet(saved), Run(env, subreddits, saved).trace)
  {
    var f := SavedSet(saved);
    var pending := Pending(subreddits, f);
    LoopKeepsInvariant(f, pending, Decisions(env, pending), 0, RunState(f, []));
    WellOrderedMeans(f, Run(env, subreddits, saved).trace);
  }
}
