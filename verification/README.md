# Subreddit statistics ingest, modelled in Dafny

This project models two pieces of the reddit-stats repository and proves
properties of them.

**The resumable subscriber ingest** (`src/ingest/subreddit_subscribers.py`).
`run` loads the persisted `fetched` set and computes the pending list: the
master subreddit list minus `fetched`. It walks that list once. For each
subreddit it calls `fetch_subreddit_stats`, which tries up to three times
and answers `None` on a 404. It then converts the time series to rows, with
`utc_day_to_date` formatting every day. If at least one row results, the
rows are written, the name is added to `fetched`, and the whole set is
persisted. Every exception inside the loop body is caught and the loop
continues.

**The master-list builder** (`process_arctic_shift_file` in
`scripts/fetch_subreddit_list.py`). It reassembles newline-delimited
records from decompressed chunks. It keeps each record that has a name and
a positive subscriber count. It sorts the kept records by count,
descending and stably, and keeps the first `top_n` names. Before saving,
it prints a summary that indexes ranks 1, 10, 100 and 1000 without a
length check.

The world is abstract:
- `SubscriberIngest.Env` says what the server answers to each attempt of
  each fetch, and which parquet writes and state saves raise.
- A run returns its final `fetched` set and the trace of its effects
  (fetch, write rows, save state).
- For the list builder, JSON decoding of a line is a parameter, and the
  chunks the stream reader returns are an input sequence.

How failures are handled:
- The only persisted state is `fetched`.
- A 404 is not recorded as done. It is skipped and stays pending for the
  next run, like every other failure (`SubscriberIngest.RunRetriesFailures`).
- A failing row write or state save does not abort the run. The loop's
  `except Exception` catches it.
- When the write succeeds but the save fails, the name stays in the
  in-memory set. A later successful save in the same run persists it;
  otherwise the subreddit is fetched again next run
  (`SubscriberIngest.PersistedIsLastSave`; `SubscriberIngest.UnsavedWriteIsFetchedAgain`
  is the one-subreddit instance).

Files:
- `wrappers.dfy`: `Option`, `Result`, `Min`, `Max`.
- `civil_date.dfy`: proleptic Gregorian day numbers.
- `date_format.dfy`: `utc_day_to_date` as `YYYY-MM-DD`.
- `subscriber_fetch.dfy`: one fetch with its retries.
- `subscriber_ingest.dfy`: the ingest pass and its trace.
- `chunked_lines.dfy`: the chunked line splitter.
- `ranking.dfy`: the stable descending sort and the `[:top_n]` slice.
- `subreddit_list.dfy`: the record filter, the summary and the whole
  script.

## Model

| member | source | states |
|---|---|---|
| SubscriberFetch.Attempt | src/ingest/subreddit_subscribers.py:67-73 | One attempt yields `None` exactly on status 404, before the status check. It yields the body exactly on a 2xx status with a JSON body. Every other reply raises. |
| SubscriberFetch.RetryFrom | src/ingest/subreddit_subscribers.py:61 | From attempt `j` on, the call raises iff every remaining attempt below three raises. Otherwise it returns the result of the first attempt that does not raise. |
| SubscriberFetch.FetchStats | src/ingest/subreddit_subscribers.py:59-73 | The call raises iff all three attempts raise. Otherwise it returns what the first non-raising attempt returned, and every earlier attempt raised. |
| SubscriberFetch.NotFoundIsNotRetried | src/ingest/subreddit_subscribers.py:69-70 | A 404 on the first attempt ends the call with `None`, whatever later attempts would have answered. |
| SubscriberFetch.ThreeFailuresRaise | src/ingest/subreddit_subscribers.py:61 | A transport error, a 503 and a 500 in a row exhaust the retries, and the call raises. |
| CivilDate.DaysToDate | src/ingest/subreddit_subscribers.py:76-81 | A day number maps to a valid calendar date whose day number is that number. |
| CivilDate.YearAndOffset | src/ingest/subreddit_subscribers.py:80 | Stepping whole years keeps the year start plus the offset fixed, and leaves an offset inside the year. |
| CivilDate.DateRoundTrip | src/ingest/subreddit_subscribers.py:76-81 | Converting a valid date to its day number and back gives the same date. |
| CivilDate.DateToDaysInjective | src/ingest/subreddit_subscribers.py:76-81 | Distinct valid dates have distinct day numbers. |
| CivilDate.DateToDaysMonotone | src/ingest/subreddit_subscribers.py:76-81 | An earlier valid date has a smaller day number. |
| CivilDate.DaysToDateStrictlyIncreasing | src/ingest/subreddit_subscribers.py:76-81 | A larger day number gives a later date. |
| CivilDate.YearBounds | src/ingest/subreddit_subscribers.py:80 | A day lies between the first day of its year and the first day of the next year. |
| CivilDate.YearAtLeast | src/ingest/subreddit_subscribers.py:80 | A day's year is at least `lo` iff the day is not before the first day of `lo`. |
| CivilDate.YearRange | src/ingest/subreddit_subscribers.py:80 | A day falls in years `lo..hi` iff it lies between the first day of `lo` and the first day of `hi + 1`. |
| DateFormat.ParseFormat | src/ingest/subreddit_subscribers.py:81 | Reading the fields back from `%Y-%m-%d` output gives the date that was formatted. |
| DateFormat.FormatDate | src/ingest/subreddit_subscribers.py:81 | `%Y-%m-%d` output has ten characters with `-` at positions 4 and 7. `ParseFormat` shows it reads back as the date, and `FormatOrder` that it sorts by date. |
| DateFormat.FormatOrder | src/ingest/subreddit_subscribers.py:81 | An earlier date formats to a string that sorts earlier. |
| DateFormat.UtcDayToDate | src/ingest/subreddit_subscribers.py:76-81 | A string is returned iff the day is between 0001-01-01 and 9999-12-31; otherwise `datetime` raises. The string has ten characters and parses back to the calendar date of the day. |
| DateFormat.UtcDayToDateFormats | src/ingest/subreddit_subscribers.py:76-81 | A day in range falls in a year up to 9999, and its string is the `%Y-%m-%d` form of its calendar date. |
| DateFormat.UtcDayRoundTrip | src/ingest/subreddit_subscribers.py:76-81 | Reading a formatted date back as a day number gives the original `utc_day`. |
| DateFormat.UtcDayToDateStrictlyIncreasing | src/ingest/subreddit_subscribers.py:76-81 | A later day gives a string that sorts strictly later, so rows ordered by day are ordered by date. |
| DateFormat.EpochDay | src/ingest/subreddit_subscribers.py:78-79 | Day 0 is "1970-01-01". |
| DateFormat.LastDay | src/ingest/subreddit_subscribers.py:79-81 | Day 2932896 is "9999-12-31", and the day after raises. |
| DateFormat.FirstDay | src/ingest/subreddit_subscribers.py:79-81 | Day -719162 is "0001-01-01", and the day before raises. |
| SubscriberIngest.Pending | src/ingest/subreddit_subscribers.py:94 | The pending list holds exactly the listed names not in `fetched`, with the list's multiplicities and in list order. |
| SubscriberIngest.CompletePoints | src/ingest/subreddit_subscribers.py:115-118 | The points kept are those carrying both `utcDay` and `count`: each such point with all its occurrences, no other point, in input order. |
| SubscriberIngest.CompletePointsAppend | src/ingest/subreddit_subscribers.py:115-118 | Filtering the concatenation of two point lists gives the filtered first list followed by the filtered second. |
| SubscriberIngest.RowFor | src/ingest/subreddit_subscribers.py:117-123 | A complete point gives a row iff its day converts. The row carries the subreddit, the point's count, and a date that reads back as the point's day. |
| SubscriberIngest.ToRows | src/ingest/subreddit_subscribers.py:115-123 | There are rows iff every day converts. Row `k` carries the subreddit, the count of point `k`, and a date that reads back as its day. |
| SubscriberIngest.ExtractRows | src/ingest/subreddit_subscribers.py:114-123 | One row per complete point, in order. The conversion fails iff some complete point's day is out of range. |
| SubscriberIngest.Classify | src/ingest/subreddit_subscribers.py:101-131 | A subreddit has rows to write iff the fetch returned a non-empty object with a time series, every complete day converts, at least one row results, and every count fits the `int64` column. Those rows are then exactly the rows extracted from the series. |
| SubscriberIngest.Decide | src/ingest/subreddit_subscribers.py:100-143 | An iteration writes iff its subreddit succeeds. It then writes that outcome's rows, each tagged with the subreddit and never none, and the save raises iff the state save fails at that position. |
| SubscriberIngest.StepEffects | src/ingest/subreddit_subscribers.py:97-143 | One iteration adds at most its subreddit to `fetched`, and adds it exactly when its rows are written. It only extends the trace: first the fetch, then the write when there is one. The trace ends with a save of the new set exactly when there is a write whose save does not raise. |
| SubscriberIngest.Loop | src/ingest/subreddit_subscribers.py:97-143 | The rest of the loop never removes a name from `fetched`. It only extends the trace, by at least one effect per remaining subreddit. |
| SubscriberIngest.Run | src/ingest/subreddit_subscribers.py:84-145 | A run keeps every name of the loaded set in `fetched`, and records at least one effect per pending subreddit. |
| SubscriberIngest.StepKeepsInvariant | src/ingest/subreddit_subscribers.py:97-143 | One iteration keeps the trace well ordered. It keeps `fetched` equal to the loaded set plus the subreddits written. |
| SubscriberIngest.LoopKeepsInvariant | src/ingest/subreddit_subscribers.py:97-143 | The rest of the loop keeps that invariant. |
| SubscriberIngest.LoopFetches | src/ingest/subreddit_subscribers.py:97-101 | The rest of the loop fetches exactly the remaining pending subreddits, in order. |
| SubscriberIngest.LoopAddsWrites | src/ingest/subreddit_subscribers.py:125-137 | The rest of the loop adds to `fetched` exactly the remaining pending subreddits whose rows are written. |
| SubscriberIngest.RunFetchesEachPendingOnce | src/ingest/subreddit_subscribers.py:94-143 | A run fetches each pending subreddit once, in list order. No outcome, an exception included, ends the loop early. |
| SubscriberIngest.RunAddsExactlySuccesses | src/ingest/subreddit_subscribers.py:125-137 | `fetched` only grows, and it grows by exactly the pending subreddits that produced rows whose write did not raise. |
| SubscriberIngest.PersistedBounds | src/ingest/subreddit_subscribers.py:136-137 | The set the last `save_state` wrote, which the next run loads, lies between the loaded set and the loaded set plus the subreddits written in this run. |
| SubscriberIngest.PersistedIsLastSave | src/ingest/subreddit_subscribers.py:133-143 | In a well-ordered trace the set the next run loads is the loaded set when no save succeeded, and otherwise the loaded set plus every subreddit written before the last successful save. So a write followed by a later successful save is persisted, and a write after the last successful save is not. |
| SubscriberIngest.UnsavedWriteIsFetchedAgain | src/ingest/subreddit_subscribers.py:133-143 | An example: with one pending subreddit whose rows are written and whose `save_state` raises, it is in the in-memory set but not in the saved one, and the next run lists it as pending. |
| SubscriberIngest.RunRetriesFailures | src/ingest/subreddit_subscribers.py:86-143 | A fetched subreddit that never succeeds stays out of `fetched` and out of the last saved set, so the next run, which loads that saved set, has it pending again. |
| SubscriberIngest.WellOrderedAt | src/ingest/subreddit_subscribers.py:133-137 | In a well-ordered trace, a write at position `k` follows the fetch of its subreddit, and a save at `k` follows a write and holds the whole current set. |
| SubscriberIngest.RunPersistsAfterWrite | src/ingest/subreddit_subscribers.py:133-137 | Every write directly follows the fetch of its subreddit. Every save directly follows a write and persists the loaded set plus every subreddit written so far. At the end, `fetched` is the loaded set plus the subreddits written. |
| ChunkedLines.Split | scripts/fetch_subreddit_list.py:52 | `split(b'\n')` yields at least one piece, no piece holds a newline, and joining the pieces with newlines gives back the input. |
| ChunkedLines.JoinInjective | scripts/fetch_subreddit_list.py:52 | Two lists of newline-free pieces that join to the same bytes are equal. |
| ChunkedLines.SplitJoin | scripts/fetch_subreddit_list.py:52 | Splitting the join of newline-free pieces gives back the pieces. |
| ChunkedLines.ReadLoop | scripts/fetch_subreddit_list.py:43-55 | The complete lines, each with its newline, followed by the carried buffer, are exactly the bytes read up to the first empty chunk. No line and no buffer holds a newline. |
| ChunkedLines.Lines | scripts/fetch_subreddit_list.py:46-82 | The parser gets at least one line, the final buffer, and no line holds a newline. `LinesAreSplit` shows they are the newline-separated pieces of all bytes read. |
| ChunkedLines.LinesAreSplit | scripts/fetch_subreddit_list.py:46-74 | The lines handed to the parser, the final buffer included, are exactly the newline-separated pieces of all bytes read. |
| ChunkedLines.LinesIgnoreChunking | scripts/fetch_subreddit_list.py:47 | Two chunkings of the same bytes give the parser the same lines. |
| Ranking.Insert | scripts/fetch_subreddit_list.py:88 | Inserting into a descending sequence keeps it descending and adds exactly the one entry. |
| Ranking.SortDesc | scripts/fetch_subreddit_list.py:88 | The sort result is descending by count and a permutation of its input. |
| Ranking.InsertStable | scripts/fetch_subreddit_list.py:88 | An inserted entry lands after every entry with the same count. |
| Ranking.SortStable | scripts/fetch_subreddit_list.py:88 | Entries with equal counts keep their input order. |
| Ranking.SliceStop | scripts/fetch_subreddit_list.py:91 | `[:top_n]` keeps exactly the indices before the stop, where a negative `top_n` counts from the end; the length never exceeds the input's. |
| Ranking.TopNames | scripts/fetch_subreddit_list.py:91 | The result has the slice's length. Name `k` is that of sorted entry `k`, and the names are a sub-multiset of all the names. |
| SubredditList.Keep | scripts/fetch_subreddit_list.py:60-64 | A record is kept iff `display_name` or `name` is a non-empty string and the count, with missing or null read as 0, is positive. The kept name prefers `display_name`. |
| SubredditList.ParseLine | scripts/fetch_subreddit_list.py:56-82 | A blank line is skipped. A line raises iff it is not blank and its handling raises an exception other than a JSON decode error. It yields an entry iff it is not blank, decodes to an object, and that object passes the keep rule, and the entry is the one the keep rule makes of that object (its preferred name and its count). |
| SubredditList.Collect | scripts/fetch_subreddit_list.py:55-82 | A failure is always the exception a line raised. Otherwise every kept entry has a name and a positive count, and there are at most as many entries as lines. |
| SubredditList.CollectFailsIff | scripts/fetch_subreddit_list.py:55-82 | Collecting fails iff some non-blank line raises an exception other than a JSON decode error. |
| SubredditList.AppendFails | scripts/fetch_subreddit_list.py:46-82 | A line that raises in either part of the input makes the whole input fail. |
| SubredditList.CollectAppend | scripts/fetch_subreddit_list.py:55-82 | Collecting the lines of two inputs gives the entries of the first followed by those of the second. |
| SubredditList.SkippedLine | scripts/fetch_subreddit_list.py:56-71 | Removing a blank line or a line that is not JSON does not change the result. |
| SubredditList.Summary | scripts/fetch_subreddit_list.py:93-101 | The summary raises `IndexError` iff fewer than 1000 names were taken. Otherwise it reports ranks 1, 10, 100 and 1000, then 10000 and 100000 when there are that many names, in that order. Each rank shows the name and count at its index. |
| SubredditList.BuildList | scripts/fetch_subreddit_list.py:31-106 | A saved list always holds at least 1000 names. |
| SubredditList.BuildListResult | scripts/fetch_subreddit_list.py:84-101 | The list is saved iff no line raised and the slice holds at least 1000 names. The saved list is the first `top_n` names of the sorted kept entries, a sub-multiset of the kept names. |
| SubredditList.NamesPermutation | scripts/fetch_subreddit_list.py:88-91 | Entry sequences that are permutations of each other have name sequences that are too. |
| SubredditList.SmallTopNNeverSaves | scripts/fetch_subreddit_list.py:91-97 | With `0 <= top_n < 1000` the script fails before saving, whatever the input. |
| SubredditList.BuildListIgnoresChunking | scripts/fetch_subreddit_list.py:46-53 | How the stream reader cuts the bytes into chunks does not change the outcome. |

## Left out

- The rate limiter (`sleep_and_retry`, `limits`) and the exponential backoff between attempts: they only delay. Their timing is not modelled.
- `load_subreddit_list` and the loading of the persisted state: the master list and the persisted `fetched` list are inputs of `SubscriberIngest.Run`. A missing file raises before the loop and is not modelled.
- HTTP transport, JSON parsing of response bodies, parquet encoding, zstandard decompression and all file I/O: replaced by the `Env` oracle, the `decode` parameter and the chunk sequence.
- `raise_for_status` comes from a helper library that is not part of this model. It is modelled with httpx semantics, where every non-2xx status raises.
- Console output: the per-subreddit messages, the progress counter `total` and the summary's printing. The summary's indexing is modelled, because it can raise.
- `src/main.py`: it parses `--ingest-only` and `--transform-only`, calls `validate_environment()` from a helper library, and runs the ingest unless `--transform-only` is given. The transform phase only prints. None of this touches the modelled logic.
- `strftime("%Y")` is modelled as always zero-padded to four digits. glibc prints years below 1000 unpadded (for example `999`), and only recent CPython versions pad them themselves, so on some interpreters the string for a day before year 1000 differs.
- A time series that is a truthy non-list value, or whose elements are not objects, makes the row loop raise, so the subreddit is skipped. The model's series is always a list of objects.
- Non-integer JSON values are not modelled: a float or bool `utcDay` or `count`, a non-string name, or a count that is not a number. A falsy non-number count such as `""` or `[]` becomes 0 through `or 0`. A truthy non-number count makes `subscribers > 0` raise and end the script, but only when the name is truthy, because `name and subscribers > 0` short-circuits.
- SubredditList.Collect: it stops at the first raising line and reports one error, so which line raised is not recorded.
