# Spotify listening history: fetcher and time-taken updater

This project is a Dafny model of the two batch jobs that keep a MongoDB `songs`
collection of recently played Spotify tracks.

- **Fetcher** (`fetch_recent_tracks`). Each recently played item becomes a record with
  five text fields: `artist`, `title`, `played_at`, `duration` and `album`.
  - `played_at` is the local Asia/Singapore time, written `YYYY-MM-DD HH:MM:SS`.
  - `duration` is the track length, written `MM:SS`.
  - The record is upserted under its `played_at` with `$set` merge semantics.
  - The first item whose record cannot be built aborts the loop. Upserts already made
    are kept.
- **Time-taken updater** (`calculate_time_taken_for_collection`). It walks the
  collection newest first.
  - An event that already has `time_taken` is skipped.
  - The oldest event gets its `duration` text verbatim.
  - Every other event gets `min(gap to the next older event, its duration)`, written
    `M:SS` with Python's floor division.
  - A per-event failure is counted as an error and leaves the event untouched.
  - The pass returns the counters and the elapsed time as `MM:SS`.

The model has six modules:

- `Common`: `Option`, `Result`, documents as `map<string, string>`, and the field names.
- `Text`: `str`, `int`, `zfill`, `f"{n:02}"` and `split(":")` on decimal text.
- `Timestamp`: a proleptic Gregorian calendar, plus `strftime`/`strptime` with
  `%Y-%m-%d %H:%M:%S`.
- `TimeTaken`: the updater.
  - A specification on values: `Backfill` for the documents after one pass, `Report` for
    the returned summary.
  - The imperative pass `CalculateTimeTakenForCollection`. It works over an `array<Doc>`,
    writes at most one element per iteration (its own) and is proved equal to that
    specification.
- `Fetcher`: the fetch loop, as a `SongCollection` class whose `records` map each
  `update_one` rewrites. It is proved against the function `Ingest`.
- `Pipeline`: what the updater reads from what the fetcher writes.

The two jobs pad minutes differently, and both are modelled as written. The fetcher
writes a duration with two-digit minutes, such as `03:30` (spotify-lambda-fetcher.py:78).
The updater writes `time_taken` with unpadded minutes, such as `3:00`
(SpotifyTimeTakenUpdater.py:92).

## Model

| member | source | states |
|---|---|---|
| TimeTaken.CalculateTimeTakenForCollection | SpotifyTimeTakenUpdater.py:53-114 | The pass leaves the documents exactly as `Backfill` of the old ones. It returns `Report` of them: the counters of the per-event outcomes and the elapsed text. |
| TimeTaken.ProcessEvent | SpotifyTimeTakenUpdater.py:76-102 | One loop iteration. It yields the outcome of event `i` computed on the original data (skipped, updated with a text, or failed). It rewrites only element `i`, and only by setting `time_taken` on an update. |
| TimeTaken.Report | SpotifyTimeTakenUpdater.py:58-71 | `total_docs` is the number of events, and updated + skipped + errors equals it. An empty collection gives all-zero counters and elapsed `"00:00"`. |
| TimeTaken.Tally | SpotifyTimeTakenUpdater.py:60-62 | After `n` events, updated + skipped + errors == n: every event increments exactly one counter. |
| TimeTaken.TallyUpdated | SpotifyTimeTakenUpdater.py:97-98 | `updated` is the number of events among the first `n` whose outcome is an update. |
| TimeTaken.TallySkipped | SpotifyTimeTakenUpdater.py:78-80 | `skipped` is the number of events among the first `n` whose outcome is a skip. |
| TimeTaken.TallyErrors | SpotifyTimeTakenUpdater.py:100-102 | `errors` is the number of events among the first `n` whose outcome is a failure. |
| TimeTaken.OutcomeKinds | SpotifyTimeTakenUpdater.py:78-98 | An event is skipped if and only if it already has `time_taken`. It is updated if and only if the pass changes it. |
| TimeTaken.ReportCounts | SpotifyTimeTakenUpdater.py:104-114 | `updated` is the number of documents the pass changed. `skipped` is the number that already had `time_taken`. `errors` is the number whose outcome failed. A non-empty pass reports its elapsed whole seconds as `MM:SS`. |
| TimeTaken.OutcomesAt | SpotifyTimeTakenUpdater.py:75 | The outcome the loop records at index `i` is the outcome of event `i`. |
| TimeTaken.BackfillWritesOnlyTimeTaken | SpotifyTimeTakenUpdater.py:78-97 | An event that had `time_taken` is unchanged. Every event either ends with `time_taken` or is unchanged. No field other than `time_taken` changes. |
| TimeTaken.OutcomeIsLocal | SpotifyTimeTakenUpdater.py:83-89 | An event's outcome depends only on that event and the next older one. |
| TimeTaken.OldestGetsDurationText | SpotifyTimeTakenUpdater.py:94-95 | The oldest event without `time_taken` fails exactly when it has no `duration`. Otherwise it gets its `duration` text verbatim, parseable or not. |
| TimeTaken.NewerEventUpdated | SpotifyTimeTakenUpdater.py:83-93 | A newer event without `time_taken` is updated if and only if its `played_at`, the older event's `played_at` and its own `duration` all parse. |
| TimeTaken.UpdatedEstimate | SpotifyTimeTakenUpdater.py:84-92 | An updated newer event's text parses back as min(played_at gap in seconds, duration in seconds). |
| TimeTaken.NewerEventCapped | SpotifyTimeTakenUpdater.py:91-93 | The `time_taken` written for an updated newer event parses to at most its duration and at most the gap. |
| TimeTaken.EstimateFromReads | SpotifyTimeTakenUpdater.py:83-93 | Given the readings `now`, `before` and `duration` of an event without `time_taken`, the pass writes a `time_taken` that parses as min(now - before, duration). |
| TimeTaken.EstimateParsesBack | SpotifyTimeTakenUpdater.py:84-92 | The estimate exists if and only if all three readings succeed. It then parses back as min(gap, duration). |
| TimeTaken.TimeTakenShape | SpotifyTimeTakenUpdater.py:92 | The written text splits at `:` into exactly two parts. The first parses as the floor minutes (`actual // 60`). The second is exactly two digits denoting the seconds `actual % 60`, which are below 60. |
| TimeTaken.FormatTimeTakenExamples | SpotifyTimeTakenUpdater.py:92 | 180 seconds is written `"3:00"`, and -30 seconds is written `"-1:30"` (the sign goes on the floor minutes). |
| TimeTaken.TimeTakenRoundTrip | SpotifyTimeTakenUpdater.py:92 | The `M:SS` text of any estimate, negative ones included, parses back to that estimate via `split(":")` and `int(m) * 60 + int(s)`. |
| TimeTaken.Min | SpotifyTimeTakenUpdater.py:91 | `min(a, b)` is at most both arguments and equals one of them. |
| TimeTaken.DurationOfParts | SpotifyTimeTakenUpdater.py:88-89 | A text that splits at `:` into two integer texts reads as minutes * 60 + seconds. |
| TimeTaken.PaddedPairDuration | SpotifyTimeTakenUpdater.py:88-89 | An `MM:SS` text reads back as MM * 60 + SS seconds. |
| TimeTaken.ElapsedRoundTrip | SpotifyTimeTakenUpdater.py:104-106 | The elapsed text is at least 5 characters, exactly 5 under 100 minutes, and reads back as the elapsed seconds. |
| TimeTaken.FailedEventUnchanged | SpotifyTimeTakenUpdater.py:100-102 | A failed event had no `time_taken` and is left exactly as it was. |
| TimeTaken.PlayedAtOnly | SpotifyTimeTakenUpdater.py:85 | Reading the older event's `played_at` ignores its `time_taken`, so writes made earlier in the pass do not change it. |
| TimeTaken.SecondPassOutcome | SpotifyTimeTakenUpdater.py:78-80 | On a second pass, an event that was skipped or updated is skipped. One that failed fails the same way. |
| TimeTaken.SecondPassOutcomes | SpotifyTimeTakenUpdater.py:75-102 | The outcomes of a second pass are those of the first, with every non-failure turned into a skip. |
| TimeTaken.BackfillIdempotent | SpotifyTimeTakenUpdater.py:78-80 | Running the pass twice writes nothing the second time. |
| TimeTaken.RerunTally | SpotifyTimeTakenUpdater.py:98-102 | On a second pass, updated is 0, skipped is the first pass's updated + skipped, and errors are unchanged. |
| TimeTaken.NoErrorsNoFailures | SpotifyTimeTakenUpdater.py:100-102 | With `errors == 0`, no event failed. |
| TimeTaken.NoFailuresNoErrors | SpotifyTimeTakenUpdater.py:100-102 | Without failed events, `errors == 0`. |
| TimeTaken.RerunAfterCleanPass | SpotifyTimeTakenUpdater.py:108-114 | After a pass with no errors, every event has `time_taken`, and a second pass reports updated 0 and skipped == total_docs. |
| TimeTaken.ReadableNeverFails | SpotifyTimeTakenUpdater.py:82-102 | If every event's `played_at` and `duration` read, no event fails and the pass reports 0 errors. |
| TimeTaken.Backfill | SpotifyTimeTakenUpdater.py:75-97 | The pass keeps the number of documents. |
| Text.IntToStringParses | SpotifyTimeTakenUpdater.py:92 | `int(str(i)) == i` for every integer, negative ones included, and `str(i)` holds no colon. |
| Text.NatToStringDigits | SpotifyTimeTakenUpdater.py:92 | `str(n)` is a digit string denoting n, with a leading `0` only for 0. |
| Text.ZeroFill | SpotifyTimeTakenUpdater.py:92 | `s.zfill(w)` has length max(len(s), w). |
| Text.ZeroFillValue | SpotifyTimeTakenUpdater.py:92 | Zero-filling a digit string keeps it a digit string with the same value. |
| Text.ZeroPadDigits | spotify-lambda-fetcher.py:78 | `f"{n:0w}"` is a digit string of at least w characters denoting n. It is exactly w characters when `str(n)` fits, and `str(n)` itself otherwise. |
| Text.Pad2Digits | SpotifyTimeTakenUpdater.py:106 | `f"{n:02}"` is at least two digits denoting n, and exactly two below 100. |
| Text.Pad2Small | spotify-lambda-fetcher.py:78 | Below 100, `f"{n:02}"` is the tens digit followed by the units digit. |
| Text.Pad2Parses | SpotifyTimeTakenUpdater.py:89 | `int(f"{n:02}") == n`, and the text holds no colon. |
| Text.PaddedPairSplits | SpotifyTimeTakenUpdater.py:88-89 | `f"{a:02}:{b:02}".split(":")` gives back both fields, and each parses to its number. |
| Text.SplitJoin | SpotifyTimeTakenUpdater.py:88 | `":".join(s.split(":")) == s`. |
| Text.SplitParts | SpotifyTimeTakenUpdater.py:88 | `s.split(sep)` has one more part than there are separators, and no part contains the separator. |
| Text.SplitWithoutSeparator | SpotifyTimeTakenUpdater.py:88 | A text without the separator splits into itself alone. |
| Text.SplitAtSeparator | SpotifyTimeTakenUpdater.py:88 | `(a + ":" + b).split(":") == [a, b]` when neither side holds a colon. |
| Timestamp.DaysInMonth | SpotifyTimeTakenUpdater.py:84 | Every month has 28 to 31 days. February has 29 if and only if the year is a Gregorian leap year. |
| Timestamp.MonthsFillYear | SpotifyTimeTakenUpdater.py:86 | The days of the twelve months add up to the days of the year (365 or 366). |
| Timestamp.DayWithinYear | SpotifyTimeTakenUpdater.py:86 | The day of the year of a valid date lies between 1 and the year's length. |
| Timestamp.OrdinalGrows | SpotifyTimeTakenUpdater.py:86 | A calendar date that comes before another has a smaller day number (`toordinal`). |
| Timestamp.ToSecondsOrder | SpotifyTimeTakenUpdater.py:86 | For valid datetimes, `a < b` if and only if a's seconds are fewer than b's. Two datetimes have equal seconds if and only if they are equal. So `(a - b).total_seconds()` has the sign of the comparison. |
| TimeTaken.GapOfSortedEvents | SpotifyTimeTakenUpdater.py:84-86 | If an event's `played_at` is not earlier than the next older event's, as the descending sort orders them, the gap is non-negative. It is zero if and only if the two times are equal. |
| Timestamp.Parse | SpotifyTimeTakenUpdater.py:84-85 | `strptime` yields only valid dates and times: month 1-12, day within the month, hour < 24, minute and second < 60. |
| Timestamp.ScanRender | spotify-lambda-fetcher.py:83 | Reading back zero-padded fields written into a layout gives the values written. |
| Timestamp.ParseFormat | spotify-lambda-fetcher.py:83 | `strptime(strftime(dt))` gives back `dt` for every valid date and time. |
| Fetcher.DurationFields | spotify-lambda-fetcher.py:76-77 | The seconds field is at most 59. Minutes * 60 + seconds is the track length in whole seconds. |
| Fetcher.FormatDurationPadded | spotify-lambda-fetcher.py:78 | Under 100 minutes, the duration is exactly two minute digits, `:` and two second digits. |
| Fetcher.FormatDurationExample | spotify-lambda-fetcher.py:78 | 210000 ms is written `"03:30"`. |
| Fetcher.ToRecord | spotify-lambda-fetcher.py:68-86 | A record exists if and only if `played_at` parses and the track has a first artist. It then has exactly the five keys and no `time_taken`. |
| Fetcher.Upsert | spotify-lambda-fetcher.py:88 | `update_one(..., {'$set': data}, upsert=True)` adds the key and leaves other documents alone. On a match, the set fields overwrite and the document's other fields are kept, and it gains no field beyond the set ones. A new document holds exactly the set fields plus `played_at`, which is the key unless the fields set it. |
| Fetcher.SongCollection.constructor | spotify-lambda-fetcher.py:27 | The collection starts with the given documents. |
| Fetcher.SongCollection.UpdateOne | spotify-lambda-fetcher.py:88 | The collection after the call is the upsert of the old one. |
| Fetcher.FetchRecentTracks | spotify-lambda-fetcher.py:67-88 | After the loop, the collection and the success flag are `Ingest` of the old collection and `Records(items)`, the `data` record of each item in order. |
| Fetcher.Accepted | spotify-lambda-fetcher.py:67-88 | The loop upserts no more records than there are items. |
| Fetcher.AcceptedRecords | spotify-lambda-fetcher.py:67-88 | The upserted records are the leading ones, in order, each with a `played_at`. The record after them, if any, is the one that raised. |
| Fetcher.IngestStopsAtFirstFailure | spotify-lambda-fetcher.py:67-88 | The loop upserts exactly the records before the first failure, one by one. It reports success exactly when every record was upserted. |
| Fetcher.UpsertAllKeys | spotify-lambda-fetcher.py:88 | After a batch the keys are the old keys plus the batch's `played_at` values. Documents under other keys are unchanged. |
| Fetcher.KeysOfFirst | spotify-lambda-fetcher.py:88 | The keys of a batch are the first record's key plus the keys of the rest. |
| Fetcher.LastWriterWins | spotify-lambda-fetcher.py:88 | Among records sharing a `played_at`, the last one's fields are what the collection holds. |
| Fetcher.UpsertAllKeepsTimeTaken | spotify-lambda-fetcher.py:88 | A batch without `time_taken` keeps every stored `time_taken`. |
| Fetcher.IngestKeepsTimeTaken | spotify-lambda-fetcher.py:67-88 | A fetch never removes or rewrites a `time_taken` the updater wrote. |
| Fetcher.IngestKeys | spotify-lambda-fetcher.py:67-88 | A fetch keeps the old keys, adds one document per upserted `played_at`, and leaves other documents alone. It succeeds if and only if every item's record could be built. |
| Pipeline.DurationRoundTrip | spotify-lambda-fetcher.py:76-78 | The updater reads the fetcher's `MM:SS` duration as the track length in whole seconds. |
| Pipeline.FetchedRecordReads | spotify-lambda-fetcher.py:80-86 | A fetched record's `played_at` reads back as the local time it was written from, and its duration as the track's whole seconds. It has no `time_taken`. |
| Pipeline.FetchedRecordReadable | spotify-lambda-fetcher.py:80-86 | The updater can always estimate a fetched record. |
| Pipeline.FetchedCollectionHasNoErrors | SpotifyTimeTakenUpdater.py:100-102 | A pass over records the fetcher wrote reports 0 errors. |

## Left out

- Notifications (SNS), logging and the Lambda handlers are left out. They have no effect on the data.
- The MongoDB client is left out. The fetcher's collection is a map with one document per `played_at`, and the updater's is an array of documents. `_id` is the array index.
- `update_one` failures (database errors) are not modelled.
- Fetcher.FetchRecentTracks: returns `false` where an item's record raises. The source catches that exception, sends the failure notification and re-raises it (spotify-lambda-fetcher.py:96-102); the Lambda handler turns it into status 500. Upserts made before the failing item are kept. The notification and the status code are not modelled.
- Spotify OAuth, the token refresh and the API call are left out. The fetched items are an input.
- Parsing the UTC `played_at` in two formats and converting it to Asia/Singapore with pytz is not modelled. Each item carries its local time as an input, or `None` where both formats fail. Time-zone rules are not modelled.
- The wall clock (`time.time()`) is left out. The pass takes its elapsed whole seconds as a parameter, a `nat`. If the clock steps back during the pass, `int(elapsed)` is negative and lines 104-106 write a signed text such as `"-1:59"`; that case is not modelled.
- The sort by `played_at` descending is done by the database, so the array is given in that order. The sort compares the texts. That this matches the calendar order of zero-padded texts is not proved; `TimeTaken.GapOfSortedEvents` states the consequence for events in calendar order. The pass does not assume any order; a negative gap is formatted as Python would write it.
- Text.ParseInt: `int()` is modelled on an optional sign and ASCII digits. Surrounding whitespace, underscores and non-ASCII digits, which Python also accepts, read as errors.
- Timestamp.Parse: Python's `strptime` accepts inputs that read as per-event errors here. The fetcher never writes any of them:
  - fields with fewer digits than their width (`2024-1-5 3:4:5`);
  - a space-padded day (`" 5"`);
  - any run of whitespace where the format has one space (`"2024-01-05  10:02:00"`, or a tab);
  - non-ASCII decimal digits.
- Timestamp.Format: `%Y` for years below 1000 is written zero-padded to four digits.
- Document fields are modelled as strings only. A non-string `played_at` or `duration` in the database, and the `TypeError` it would raise, are not modelled.
- The gap `(a - b).total_seconds()` is a float in Python. It is modelled as an integer, which it always is here because both times are whole seconds.
- The track's `duration_ms` is modelled as a natural number.
- TimeTaken.ProcessEvent: one iteration is a separate method; its outcome is stated against the original data, since earlier writes never touch what it reads.
- There is no single lemma for the estimate of a freshly fetched event; it follows from `Pipeline.FetchedRecordReads` and `TimeTaken.EstimateFromReads` together.
