/**
  `process_arctic_shift_file`: builds the master subreddit list from a
  newline-delimited JSON dump.  Lines come from the chunked read loop; each
  non-blank line is decoded and kept when it names a subreddit with a
  positive subscriber count; the kept pairs are sorted by count, descending
  and stably, and the first `top_n` names are the result.  A summary then
  indexes ranks 1, 10, 100 and 1000 of the result without checking its
  length, so a result shorter than 1000 names fails before anything is
  saved.

  JSON decoding is abstract: `decode` says what `json.loads` makes of one
  line.
 */
module SubredditList {
  import opened Wrappers
  import opened ChunkedLines
  import opened Ranking

  /** The fields of a decoded record that the script reads; each is `None`
      when the key is missing or null. */
  datatype Record = Record(
    displayName: Option<string>,
    name: Option<string>,
    subscribers: Option<int>)

  /** What handling one line's JSON does: `json.JSONDecodeError` (caught,
      the line is skipped), another exception that nothing catches (bytes
      that are not UTF-8, a JSON value that is not an object), or an
      object. */
  datatype Decoded =
    | Malformed
    | Uncaught
    | Object(record: Record)

  datatype ListError =
    | LineRaised          // an exception escaped the handling of a line
    | SummaryIndexError   // the summary indexed past the end of the result

  /** One line of the printed summary: a rank, and the name and count
      found there. */
  datatype Reported = Reported(rank: nat, name: string, subscribers: int)

  /** The whitespace `bytes.strip()` removes: space, `\t`, `\n`, `\v`,
      `\f`, `\r`. */
  predicate IsAsciiWhitespace(b: byte) {
    b == 32 || 9 <= b <= 13
  }

  /** `not line.strip()`. */
  predicate IsBlank(line: Bytes) {
    forall k :: 0 <= k < |line| ==> IsAsciiWhitespace(line[k])
  }

  /** Python truthiness of a string-valued field. */
  predicate Truthy(s: Option<string>) {
    s.Some? && s.value != ""
  }

  /** `data.get('display_name') or data.get('name')`. */
  function NameOf(r: Record): Option<string> {
    if Truthy(r.displayName) then r.displayName else r.name
  }

  /** `data.get('subscribers', 0) or 0`: missing and null read as 0. */
  function SubscribersOf(r: Record): int {
    if r.subscribers.Some? then r.subscribers.value else 0
  }

  /** The keep rule: a truthy name (`display_name`, else `name`) and a
      positive count. */
  function Keep(r: Record): (e: Option<Entry>)
    ensures e.Some? <==> (Truthy(r.displayName) || Truthy(r.name)) && SubscribersOf(r) > 0
    ensures e.Some? ==> e.value.subscribers == SubscribersOf(r) > 0 && e.value.name != ""
    ensures e.Some? ==>
      e.value.name == if Truthy(r.displayName) then r.displayName.value else r.name.value
  {
    var name := NameOf(r);
    if Truthy(name) && SubscribersOf(r) > 0 then Some(Entry(name.value, SubscribersOf(r)))
    else None
  }

  /** The handling of one line, the same for a complete line and for the
      final buffer: blank and malformed lines are skipped. */
  function ParseLine(line: Bytes, decode: Bytes -> Decoded): (r: Result<Option<Entry>, ListError>)
    ensures IsBlank(line) ==> r == Ok(None)
    ensures r.Err? <==> !IsBlank(line) && decode(line).Uncaught?
    ensures r.Err? ==> r.error == LineRaised
    ensures r.Ok? && r.value.Some? <==>
      !IsBlank(line) && decode(line).Object? && Keep(decode(line).record).Some?
    ensures r.Ok? && r.value.Some? ==> r.value.value == Keep(decode(line).record).value
  {
    if IsBlank(line) then Ok(None)
    else
      match decode(line)
      case Malformed => Ok(None)
      case Uncaught => Err(LineRaised)
      case Object(record) => Ok(Keep(record))
  }

  predicate Raises(line: Bytes, decode: Bytes -> Decoded) {
    ParseLine(line, decode).Err?
  }

  /** The kept entries of `lines`, in line order; an error when the handling
      of some line raises. */
  function Collect(lines: seq<Bytes>, decode: Bytes -> Decoded): (r: Result<seq<Entry>, ListError>)
    ensures r.Err? ==> r.error == LineRaised
    ensures r.Ok? ==> |r.value| <= |lines|
    ensures r.Ok? ==> forall k :: 0 <= k < |r.value| ==>
      r.value[k].subscribers > 0 && r.value[k].name != ""
  {
    if lines == [] then Ok([])
    else
      match ParseLine(lines[0], decode)
      case Err(e) => Err(e)
      case Ok(kept) =>
        match Collect(lines[1..], decode)
        case Err(e) => Err(e)
        case Ok(rest) =>
          Ok((if kept.Some? then [kept.value] else []) + rest)
  }

  /** Collecting fails exactly when the handling of some line raises. */
  lemma {:induction false} CollectFailsIff(lines: seq<Bytes>, decode: Bytes -> Decoded)
    ensures Collect(lines, decode).Err? <==> exists k :: 0 <= k < |lines| && Raises(lines[k], decode)
  {
    if lines != [] {
      var tail := lines[1..];
      CollectFailsIff(tail, decode);
      CollectCons(lines, decode);
      if Collect(tail, decode).Err? {
        var k :| 0 <= k < |tail| && Raises(tail[k], decode);
        assert lines[k + 1] == tail[k];
      }
      if exists k :: 0 <= k < |lines| && Raises(lines[k], decode) {
        var k :| 0 <= k < |lines| && Raises(lines[k], decode);
        if k > 0 {
          assert tail[k - 1] == lines[k];
        }
      }
    }
  }

  /** `Collect` distributes over concatenation of the input. */
  lemma {:induction false} CollectAppend(a: seq<Bytes>, b: seq<Bytes>, decode: Bytes -> Decoded)
    requires Collect(a, decode).Ok? && Collect(b, decode).Ok?
    ensures Collect(a + b, decode) == Ok(Collect(a, decode).value + Collect(b, decode).value)
    decreases |a|
  {
    if a == [] {
      assert a + b == b;
      assert Collect(a, decode).value == [];
      assert [] + Collect(b, decode).value == Collect(b, decode).value;
    } else {
      var tail, ab := a[1..], a + b;
      assert ab[0] == a[0] && ab[1..] == tail + b;
      CollectCons(a, decode);
      CollectCons(ab, decode);
      CollectAppend(tail, b, decode);
      var kept, vt, vb := KeptBy(a[0], decode), Collect(tail, decode).value, Collect(b, decode).value;
      assert Collect(ab, decode) == Ok(kept + (vt + vb));
      ConcatAssoc(kept, vt, vb);
    }
  }

  /** The entries one successfully handled line contributes. */
  function KeptBy(line: Bytes, decode: Bytes -> Decoded): seq<Entry>
    requires !Raises(line, decode)
  {
    var kept := ParseLine(line, decode).value;
    if kept.Some? then [kept.value] else []
  }

  /** Collecting a non-empty input: the first line's entries, then the rest's. */
  lemma CollectCons(lines: seq<Bytes>, decode: Bytes -> Decoded)
    requires lines != []
    ensures Collect(lines, decode).Ok? <==> !Raises(lines[0], decode) && Collect(lines[1..], decode).Ok?
    ensures Collect(lines, decode).Ok? ==>
      Collect(lines, decode).value == KeptBy(lines[0], decode) + Collect(lines[1..], decode).value
  {
  }

  /** A blank or malformed line neither aborts the run nor adds a record:
      dropping it changes nothing. */
  lemma SkippedLine(a: seq<Bytes>, line: Bytes, b: seq<Bytes>, decode: Bytes -> Decoded)
    requires IsBlank(line) || decode(line).Malformed?
    ensures Collect(a + [line] + b, decode) == Collect(a + b, decode)
  {
    assert Collect([line], decode) == Ok([]);
    if Collect(a, decode).Ok? && Collect(b, decode).Ok? {
      CollectAppend(a, [line], decode);
      CollectAppend(a + [line], b, decode);
      CollectAppend(a, b, decode);
      assert Collect(a + [line], decode).value == Collect(a, decode).value;
    } else {
      if Collect(a, decode).Err? {
        AppendFails(a, [line], decode);
      }
      AppendFails(a + [line], b, decode);
      AppendFails(a, b, decode);
    }
  }

  /** A failure in either part is a failure of the whole. */
  lemma AppendFails(a: seq<Bytes>, b: seq<Bytes>, decode: Bytes -> Decoded)
    requires Collect(a, decode).Err? || Collect(b, decode).Err?
    ensures Collect(a + b, decode).Err?
  {
    CollectFailsIff(a, decode);
    CollectFailsIff(b, decode);
    CollectFailsIff(a + b, decode);
    if Collect(a, decode).Err? {
      var k :| 0 <= k < |a| && Raises(a[k], decode);
      assert (a + b)[k] == a[k];
    } else {
      var k :| 0 <= k < |b| && Raises(b[k], decode);
      assert (a + b)[|a| + k] == b[k];
    }
  }

  /** The ranks the summary prints without a length check, and those it
      prints only when the result is long enough (as indices). */
  const UncheckedRanks: seq<nat> := [0, 9, 99, 999]
  const CheckedRanks: seq<nat> := [9999, 99999]

  /** The ranks the summary reports, in order, when it does not raise. */
  const ReportedRanks: seq<nat> := [1, 10, 100, 1000, 10000, 100000]

  /** The summary after sorting: the name and count at each printed rank.
      Indexing `top[k]` for an unchecked rank past the end raises
      `IndexError`. */
  function Summary(sorted: seq<Entry>, top: seq<string>): (r: Result<seq<Reported>, ListError>)
    requires |top| <= |sorted|
    ensures r.Err? <==> |top| < 1000
    ensures r.Ok? ==> |r.value| == 4 + (if |top| >= 100000 then 2 else if |top| >= 10000 then 1 else 0)
    ensures r.Ok? ==> forall k :: 0 <= k < |r.value| ==>
      r.value[k].rank >= 1 && r.value[k].rank - 1 < |top|
      && r.value[k].name == top[r.value[k].rank - 1]
      && r.value[k].subscribers == sorted[r.value[k].rank - 1].subscribers
    ensures r.Ok? ==> forall k :: 0 <= k < |r.value| ==> r.value[k].rank == ReportedRanks[k]
  {
    if |top| <= UncheckedRanks[3] then Err(SummaryIndexError)
    else
      var at := (i: nat) requires i < |top| => Reported(i + 1, top[i], sorted[i].subscribers);
      var unchecked := seq(4, k requires 0 <= k < 4 => at(UncheckedRanks[k]));
      var tenThousand := if |top| > CheckedRanks[0] then [at(CheckedRanks[0])] else [];
      var hundredThousand := if |top| > CheckedRanks[1] then [at(CheckedRanks[1])] else [];
      Ok(unchecked + tenThousand + hundredThousand)
  }

  /** The whole script from the decompressed chunks to the list it saves. */
  function BuildList(chunks: seq<Bytes>, decode: Bytes -> Decoded, topN: int): (r: Result<seq<string>, ListError>)
    ensures r.Ok? ==> |r.value| >= 1000
  {
    match Collect(Lines(chunks), decode)
    case Err(e) => Err(e)
    case Ok(kept) =>
      var sorted := SortDesc(kept);
      var top := TopNames(sorted, topN);
      match Summary(sorted, top)
      case Err(e) => Err(e)
      case Ok(_) => Ok(top)
  }

  /** The saved list is the first `top_n` names of the kept entries sorted
      by count, descending and stably; it is saved exactly when no line
      raised and at least 1000 names were taken. */
  lemma BuildListResult(chunks: seq<Bytes>, decode: Bytes -> Decoded, topN: int)
    ensures var kept := Collect(Lines(chunks), decode);
      && (BuildList(chunks, decode, topN).Ok? <==>
           kept.Ok? && SliceStop(|kept.value|, topN) >= 1000)
      && (BuildList(chunks, decode, topN).Ok? ==>
           var out := BuildList(chunks, decode, topN).value;
           && |out| == SliceStop(|kept.value|, topN)
           && (forall k :: 0 <= k < |out| ==> out[k] == SortDesc(kept.value)[k].name)
           && multiset(out) <= multiset(Names(kept.value)))
  {
    var kept := Collect(Lines(chunks), decode);
    if kept.Ok? {
      var sorted := SortDesc(kept.value);
      NamesPermutation(kept.value, sorted);
    }
  }

  /** Taking entry `j` out of `b` takes its name out of the names. */
  lemma RemoveName(b: seq<Entry>, j: nat)
    requires j < |b|
    ensures multiset(Names(b)) == multiset(Names(b[..j] + b[j + 1..])) + multiset{b[j].name}
  {
    var before, x, after := b[..j], b[j], b[j + 1..];
    CutAt(b, j);
    NamesAppend(before + [x], after);
    NamesAppend(before, [x]);
    NamesAppend(before, after);
    var nb, na := Names(before), Names(after);
    assert Names([x]) == [x.name];
    assert Names(b) == nb + [x.name] + na;
    assert Names(before + after) == nb + na;
    assert multiset(nb + [x.name] + na) == multiset(nb) + multiset{x.name} + multiset(na);
    assert multiset(nb + na) == multiset(nb) + multiset(na);
  }

  lemma CutAt(b: seq<Entry>, j: nat)
    requires j < |b|
    ensures b == b[..j] + [b[j]] + b[j + 1..]
  {
  }

  /** Taking entry `j` out of `b` takes it out of the multiset. */
  lemma RemoveEntry(b: seq<Entry>, j: nat)
    requires j < |b|
    ensures multiset(b[..j] + b[j + 1..]) == multiset(b) - multiset{b[j]}
  {
    assert b == b[..j] + [b[j]] + b[j + 1..];
  }

  lemma DropFirst(a: seq<Entry>)
    requires a != []
    ensures multiset(a[1..]) == multiset(a) - multiset{a[0]}
  {
    assert a == [a[0]] + a[1..];
  }

  lemma FindEntry(b: seq<Entry>, x: Entry) returns (j: nat)
    requires x in multiset(b)
    ensures j < |b| && b[j] == x
  {
    assert x in b;
    j :| 0 <= j < |b| && b[j] == x;
  }

  /** Sorting permutes the names too: entries that are a permutation of
      each other have names that are. */
  lemma {:induction false} NamesPermutation(a: seq<Entry>, b: seq<Entry>)
    requires multiset(a) == multiset(b)
    ensures multiset(Names(a)) == multiset(Names(b))
    decreases |a|
  {
    if a == [] {
      assert |b| == |multiset(b)| == 0;
    } else {
      var j := FindEntry(b, a[0]);
      var tail, rest := a[1..], b[..j] + b[j + 1..];
      DropFirst(a);
      RemoveEntry(b, j);
      NamesPermutation(tail, rest);
      RemoveName(a, 0);
      RemoveName(b, j);
    }
  }

  /** With `top_n` below 1000 the script always fails before saving,
      however many subreddits the dump holds. */
  lemma SmallTopNNeverSaves(chunks: seq<Bytes>, decode: Bytes -> Decoded, topN: int)
    requires 0 <= topN < 1000
    ensures BuildList(chunks, decode, topN).Err?
  {
  }

  /** How the dump is cut into chunks does not change the result. */
  lemma BuildListIgnoresChunking(c1: seq<Bytes>, c2: seq<Bytes>, decode: Bytes -> Decoded, topN: int)
    requires Flatten(ReadPrefix(c1)) == Flatten(ReadPrefix(c2))
    ensures BuildList(c1, decode, topN) == BuildList(c2, decode, topN)
  {
    LinesIgnoreChunking(c1, c2);
  }
}
