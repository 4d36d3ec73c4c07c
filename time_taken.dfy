/** The time-taken backfill pass (`calculate_time_taken_for_collection` of
    SpotifyTimeTakenUpdater.py): play events newest first; each event without a
    `time_taken` gets min(gap to the next older event, its duration), written `M:SS`,
    and the oldest event gets its duration text verbatim. */
module TimeTaken {
  import opened Common
  import opened Text
  import Timestamp

  /** Why one event could not be estimated (the exception the pass catches). */
  datatype Failure =
    | MissingField(field: string)   // KeyError
    | BadPlayedAt(text: string)     // strptime raised ValueError
    | BadDuration(text: string)     // unpacking the split or int() raised ValueError

  /** `minutes, seconds = duration.split(":")` then `int(minutes) * 60 + int(seconds)`. */
  function ParseDuration(text: string): Option<int>
  {
    var parts := Split(text, ':');
    if |parts| != 2 then None
    else
      match (ParseInt(parts[0]), ParseInt(parts[1]))
      case (Some(minutes), Some(seconds)) => Some(minutes * 60 + seconds)
      case _ => None
  }

  /** `f"{int(actual // 60)}:{str(int(actual % 60)).zfill(2)}"` with Python's floor
      division, so a negative estimate keeps its sign on the minutes: -30 is "-1:30". */
  function FormatTimeTaken(actual: int): string
  {
    IntToString(actual / 60) + ":" + Pad2(actual % 60)
  }

  /** Parsing a written `time_taken` back as a duration recovers the estimate exactly,
      negative estimates included. */
  lemma TimeTakenRoundTrip(actual: int)
    ensures ParseDuration(FormatTimeTaken(actual)) == Some(actual)
  {
    var minutes, seconds := IntToString(actual / 60), Pad2(actual % 60);
    IntToStringParses(actual / 60);
    Pad2Parses(actual % 60);
    SplitAtSeparator(minutes, ':', seconds);
    assert FormatTimeTaken(actual) == minutes + [':'] + seconds;
    DurationOfParts(FormatTimeTaken(actual), minutes, seconds, actual / 60, actual % 60);
  }

  /** The written `time_taken` has the `M:SS` shape: the floor minutes as a signed
      integer, a colon, then exactly two digits holding the seconds 0..59. */
  lemma TimeTakenShape(actual: int)
    ensures var parts := Split(FormatTimeTaken(actual), ':');
      && |parts| == 2
      && ParseInt(parts[0]) == Some(actual / 60)
      && |parts[1]| == 2 && AllDigits(parts[1]) && DigitsValue(parts[1]) == actual % 60 < 60
  {
    var minutes, seconds := IntToString(actual / 60), Pad2(actual % 60);
    IntToStringParses(actual / 60);
    Pad2Parses(actual % 60);
    Pad2Digits(actual % 60);
    SplitAtSeparator(minutes, ':', seconds);
    assert FormatTimeTaken(actual) == minutes + [':'] + seconds;
  }

  /** Three minutes are written `3:00`; a negative estimate of half a minute is written
      `-1:30`, Python's floor division putting the sign on the minutes. */
  lemma FormatTimeTakenExamples()
    ensures FormatTimeTaken(180) == "3:00"
    ensures FormatTimeTaken(-30) == "-1:30"
  {
    Pad2Small(0);
    Pad2Small(30);
    assert DigitChar(0) == '0' && DigitChar(1) == '1' && DigitChar(3) == '3';
  }

  /** Python's `min(a, b)`. */
  function Min(a: int, b: int): (m: int)
    ensures m <= a && m <= b && (m == a || m == b)
  {
    if b < a then b else a
  }

  /** `datetime.strptime(doc["played_at"], ...)`, as seconds. */
  function PlayedAtSeconds(doc: Doc): Result<int, Failure>
  {
    if PlayedAtKey !in doc then Err(MissingField(PlayedAtKey))
    else
      match Timestamp.Parse(doc[PlayedAtKey])
      case None => Err(BadPlayedAt(doc[PlayedAtKey]))
      case Some(dt) => Ok(Timestamp.ToSeconds(dt))
  }

  /** The duration text of a document, in seconds. */
  function DurationSeconds(doc: Doc): Result<int, Failure>
  {
    if DurationKey !in doc then Err(MissingField(DurationKey))
    else
      match ParseDuration(doc[DurationKey])
      case None => Err(BadDuration(doc[DurationKey]))
      case Some(total) => Ok(total)
  }

  /** `min(diff, duration_total)` written as `time_taken`, from this event's
      `played_at`, the older event's `played_at` and this event's duration, each already
      read or failed. Failures come in the order the source evaluates them. */
  function Estimate(current: Result<int, Failure>, previous: Result<int, Failure>,
                    duration: Result<int, Failure>): Result<string, Failure>
  {
    match current
    case Err(e) => Err(e)
    case Ok(now) =>
      match previous
      case Err(e) => Err(e)
      case Ok(before) =>
        match duration
        case Err(e) => Err(e)
        case Ok(total) => Ok(FormatTimeTaken(Min(now - before, total)))
  }

  /** The estimate exists exactly when all three inputs were read, and it parses back as
      min(gap, duration). */
  lemma EstimateParsesBack(current: Result<int, Failure>, previous: Result<int, Failure>,
                           duration: Result<int, Failure>)
    ensures Estimate(current, previous, duration).Ok? <==> current.Ok? && previous.Ok? && duration.Ok?
    ensures Estimate(current, previous, duration).Ok? ==>
      ParseDuration(Estimate(current, previous, duration).value)
        == Some(Min(current.value - previous.value, duration.value))
  {
    if current.Ok? && previous.Ok? && duration.Ok? {
      var estimate := Min(current.value - previous.value, duration.value);
      assert Estimate(current, previous, duration) == Ok(FormatTimeTaken(estimate));
      TimeTakenRoundTrip(estimate);
    }
  }

  /** The body of the `try` for one event: `next` is the next older event, absent for
      the oldest one, which gets its duration text as it is. */
  function TimeTakenFor(song: Doc, next: Option<Doc>): Result<string, Failure>
  {
    match next
    case None =>
      if DurationKey in song then Ok(song[DurationKey]) else Err(MissingField(DurationKey))
    case Some(older) =>
      Estimate(PlayedAtSeconds(song), PlayedAtSeconds(older), DurationSeconds(song))
  }

  /** What the pass does with one event (the tagged outcome each iteration has). */
  datatype Outcome = Skipped | Updated(timeTaken: string) | Failed(reason: Failure)

  function Next(data: seq<Doc>, i: nat): Option<Doc>
    requires i < |data|
  {
    if i + 1 < |data| then Some(data[i + 1]) else None
  }

  function Classify(result: Result<string, Failure>): Outcome
  {
    match result
    case Ok(text) => Updated(text)
    case Err(e) => Failed(e)
  }

  function OutcomeAt(data: seq<Doc>, i: nat): Outcome
    requires i < |data|
  {
    if TimeTakenKey in data[i] then Skipped else Classify(TimeTakenFor(data[i], Next(data, i)))
  }

  /** `update_one({"_id": ...}, {"$set": {"time_taken": ...}})` on an updated event. */
  function Apply(doc: Doc, outcome: Outcome): Doc
  {
    if outcome.Updated? then doc[TimeTakenKey := outcome.timeTaken] else doc
  }

  /** The documents after one pass over `data`. */
  function Backfill(data: seq<Doc>): (after: seq<Doc>)
    ensures |after| == |data|
  {
    seq(|data|, i requires 0 <= i < |data| => Apply(data[i], OutcomeAt(data, i)))
  }

  /** The pass writes only `time_taken`, only where it was absent, and leaves an event
      that already had one exactly as it was. */
  lemma BackfillWritesOnlyTimeTaken(data: seq<Doc>)
    ensures forall i :: 0 <= i < |data| && TimeTakenKey in data[i] ==> Backfill(data)[i] == data[i]
    ensures forall i :: 0 <= i < |data| ==> TimeTakenKey in Backfill(data)[i] || Backfill(data)[i] == data[i]
    ensures forall i :: 0 <= i < |data| ==>
      Backfill(data)[i] - {TimeTakenKey} == data[i] - {TimeTakenKey}
  {
    var after := Backfill(data);
    forall i | 0 <= i < |data|
      ensures after[i] - {TimeTakenKey} == data[i] - {TimeTakenKey}
    {
      assert after[i] == Apply(data[i], OutcomeAt(data, i));
    }
  }

  /** A sequence that holds, element by element, what the pass makes of `data`. */
  lemma BackfillElements(data: seq<Doc>, after: seq<Doc>)
    requires |after| == |data|
    requires forall k :: 0 <= k < |data| ==> after[k] == Apply(data[k], Outcomes(data)[k])
    ensures after == Backfill(data)
  {
    OutcomesAt(data);
  }

  /** The outcome at `i` reads only the event at `i` and the next older one. */
  lemma OutcomeIsLocal(a: seq<Doc>, b: seq<Doc>, i: nat)
    requires i < |a| == |b| && a[i] == b[i] && (i + 1 < |a| ==> a[i + 1] == b[i + 1])
    ensures OutcomeAt(a, i) == OutcomeAt(b, i)
  {
    assert Next(a, i) == Next(b, i);
  }

  datatype Counts = Counts(updated: nat, skipped: nat, errors: nat)

  /** The outcome of every event of a pass over `data`, by index. */
  function Outcomes(data: seq<Doc>): (outcomes: seq<Outcome>)
    ensures |outcomes| == |data|
  {
    OutcomesFrom(data, 0)
  }

  /** The outcomes of the events from index `k` on. */
  function OutcomesFrom(data: seq<Doc>, k: nat): (outcomes: seq<Outcome>)
    requires k <= |data|
    ensures |outcomes| == |data| - k
    decreases |data| - k
  {
    if k == |data| then [] else [OutcomeAt(data, k)] + OutcomesFrom(data, k + 1)
  }

  lemma {:induction false} OutcomesFromAt(data: seq<Doc>, k: nat)
    requires k <= |data|
    ensures forall i :: k <= i < |data| ==> OutcomesFrom(data, k)[i - k] == OutcomeAt(data, i)
    decreases |data| - k
  {
    if k < |data| {
      var rest := OutcomesFrom(data, k + 1);
      OutcomesFromAt(data, k + 1);
      var outcomes := [OutcomeAt(data, k)] + rest;
      assert OutcomesFrom(data, k) == outcomes;
      forall i | k < i < |data| ensures outcomes[i - k] == OutcomeAt(data, i) {
        assert outcomes[i - k] == rest[i - (k + 1)];
      }
    }
  }

  /** The outcome at index `i` is what the pass does with event `i`. */
  lemma OutcomesAt(data: seq<Doc>)
    ensures forall i :: 0 <= i < |data| ==> Outcomes(data)[i] == OutcomeAt(data, i)
  {
    OutcomesFromAt(data, 0);
    forall i | 0 <= i < |data| ensures Outcomes(data)[i] == OutcomeAt(data, i) {
      assert Outcomes(data)[i] == OutcomesFrom(data, 0)[i - 0];
    }
  }

  /** The counter one outcome increments. */
  function Bump(c: Counts, outcome: Outcome): Counts
  {
    match outcome
    case Skipped => c.(skipped := c.skipped + 1)
    case Updated(_) => c.(updated := c.updated + 1)
    case Failed(_) => c.(errors := c.errors + 1)
  }

  /** The three counters after the first `n` outcomes. */
  function Tally(outcomes: seq<Outcome>, n: nat): (c: Counts)
    requires n <= |outcomes|
    ensures c.updated + c.skipped + c.errors == n
  {
    if n == 0 then Counts(0, 0, 0) else Bump(Tally(outcomes, n - 1), outcomes[n - 1])
  }

  /** `updated` counts the events whose outcome is an update. */
  lemma {:induction false} TallyUpdated(outcomes: seq<Outcome>, n: nat)
    requires n <= |outcomes|
    ensures Tally(outcomes, n).updated == |set i | 0 <= i < n && outcomes[i].Updated?|
  {
    if n > 0 {
      TallyUpdated(outcomes, n - 1);
      var before := set i | 0 <= i < n - 1 && outcomes[i].Updated?;
      assert Tally(outcomes, n).updated == |before| + if outcomes[n - 1].Updated? then 1 else 0;
      if outcomes[n - 1].Updated? {
        assert (set i | 0 <= i < n && outcomes[i].Updated?) == before + {n - 1};
      } else {
        assert (set i | 0 <= i < n && outcomes[i].Updated?) == before;
      }
    }
  }

  /** `skipped` counts the events whose outcome is a skip. */
  lemma {:induction false} TallySkipped(outcomes: seq<Outcome>, n: nat)
    requires n <= |outcomes|
    ensures Tally(outcomes, n).skipped == |set i | 0 <= i < n && outcomes[i].Skipped?|
  {
    if n > 0 {
      TallySkipped(outcomes, n - 1);
      var before := set i | 0 <= i < n - 1 && outcomes[i].Skipped?;
      assert Tally(outcomes, n).skipped == |before| + if outcomes[n - 1].Skipped? then 1 else 0;
      if outcomes[n - 1].Skipped? {
        assert (set i | 0 <= i < n && outcomes[i].Skipped?) == before + {n - 1};
      } else {
        assert (set i | 0 <= i < n && outcomes[i].Skipped?) == before;
      }
    }
  }

  /** `errors` counts the events whose outcome is a failure. */
  lemma {:induction false} TallyErrors(outcomes: seq<Outcome>, n: nat)
    requires n <= |outcomes|
    ensures Tally(outcomes, n).errors == |set i | 0 <= i < n && outcomes[i].Failed?|
  {
    if n > 0 {
      TallyErrors(outcomes, n - 1);
      var before := set i | 0 <= i < n - 1 && outcomes[i].Failed?;
      assert Tally(outcomes, n).errors == |before| + if outcomes[n - 1].Failed? then 1 else 0;
      if outcomes[n - 1].Failed? {
        assert (set i | 0 <= i < n && outcomes[i].Failed?) == before + {n - 1};
      } else {
        assert (set i | 0 <= i < n && outcomes[i].Failed?) == before;
      }
    }
  }

  /** The statistics the pass returns. */
  datatype Summary = Summary(totalDocs: nat, updated: nat, skipped: nat, errors: nat, elapsed: string)

  /** `divmod(int(elapsed), 60)` written `f"{m:02}:{s:02}"`. */
  function FormatElapsed(elapsedSeconds: nat): string
  {
    PaddedPair(elapsedSeconds / 60, elapsedSeconds % 60)
  }

  /** A text that splits into two parts which read as numbers reads as a duration. */
  lemma DurationOfParts(text: string, minutesText: string, secondsText: string, minutes: int, seconds: int)
    requires Split(text, ':') == [minutesText, secondsText]
    requires ParseInt(minutesText) == Some(minutes) && ParseInt(secondsText) == Some(seconds)
    ensures ParseDuration(text) == Some(minutes * 60 + seconds)
  {
  }

  /** An `MM:SS` text reads back as `MM * 60 + SS` seconds. */
  lemma PaddedPairDuration(minutes: nat, seconds: nat)
    ensures ParseDuration(PaddedPair(minutes, seconds)) == Some(minutes * 60 + seconds)
  {
    PaddedPairSplits(minutes, seconds);
    DurationOfParts(PaddedPair(minutes, seconds), Pad2(minutes), Pad2(seconds), minutes, seconds);
  }

  /** The elapsed text reads back, as a duration, as the seconds it was made from. */
  lemma ElapsedRoundTrip(elapsedSeconds: nat)
    ensures |FormatElapsed(elapsedSeconds)| >= 5
    ensures elapsedSeconds < 6000 ==> |FormatElapsed(elapsedSeconds)| == 5
    ensures ParseDuration(FormatElapsed(elapsedSeconds)) == Some(elapsedSeconds)
  {
    var minutes, seconds := elapsedSeconds / 60, elapsedSeconds % 60;
    assert |FormatElapsed(elapsedSeconds)| == |Pad2(minutes)| + 1 + |Pad2(seconds)|;
    assert |Pad2(minutes)| >= 2 && (minutes < 100 ==> |Pad2(minutes)| == 2) by {
      Pad2Digits(minutes);
    }
    assert |Pad2(seconds)| == 2 by {
      Pad2Digits(seconds);
    }
    if elapsedSeconds < 6000 {
      assert minutes < 100;
    }
    assert ParseDuration(FormatElapsed(elapsedSeconds)) == Some(minutes * 60 + seconds) by {
      PaddedPairDuration(minutes, seconds);
    }
  }

  /** The summary of a pass over `data` that took `elapsedSeconds` (truncated) seconds. */
  function Report(data: seq<Doc>, elapsedSeconds: nat): (s: Summary)
    ensures s.totalDocs == |data|
    ensures s.updated + s.skipped + s.errors == s.totalDocs
    ensures data == [] ==> s == Summary(0, 0, 0, 0, "00:00")
  {
    if data == [] then Summary(0, 0, 0, 0, "00:00")
    else
      var c := Tally(Outcomes(data), |data|);
      Summary(|data|, c.updated, c.skipped, c.errors, FormatElapsed(elapsedSeconds))
  }

  /** One iteration of the loop: skip the event at `i`, or compute its `time_taken` and
      write it, or catch the failure; the outcome tells which counter to increment. */
  method ProcessEvent(data: array<Doc>, i: nat, ghost original: seq<Doc>) returns (outcome: Outcome)
    requires i < data.Length == |original|
    requires data[i] == original[i] && (i + 1 < data.Length ==> data[i + 1] == original[i + 1])
    modifies data
    ensures outcome == Outcomes(original)[i]
    ensures data[..] == old(data[..])[i := Apply(original[i], outcome)]
  {
    OutcomesAt(original);
    OutcomeIsLocal(data[..], original, i);
    var song := data[i];
    if TimeTakenKey in song {
      return Skipped;
    }
    var next := if i < data.Length - 1 then Some(data[i + 1]) else None;
    assert next == Next(data[..], i);
    var result := TimeTakenFor(song, next);
    if result.Ok? {
      data[i] := song[TimeTakenKey := result.value];
      outcome := Updated(result.value);
    } else {
      outcome := Failed(result.error);
    }
  }

  /** `calculate_time_taken_for_collection`: `data` is the collection as the driver
      returns it sorted by `played_at` descending; each update is a write to its element.
      The wall-clock time of the pass comes in as `elapsedSeconds`. */
  method CalculateTimeTakenForCollection(data: array<Doc>, elapsedSeconds: nat) returns (summary: Summary)
    modifies data
    ensures data[..] == Backfill(old(data[..]))
    ensures summary == Report(old(data[..]), elapsedSeconds)
  {
    var total := data.Length;
    if total == 0 {
      return Summary(0, 0, 0, 0, "00:00");
    }
    ghost var original := data[..];
    ghost var outcomes := Outcomes(original);
    var updated, skipped, errors := 0, 0, 0;
    for i := 0 to total
      invariant forall k :: i <= k < total ==> data[k] == original[k]
      invariant forall k :: 0 <= k < i ==> data[k] == Apply(original[k], outcomes[k])
      invariant Counts(updated, skipped, errors) == Tally(outcomes, i)
    {
      var outcome := ProcessEvent(data, i, original);
      match outcome
      case Skipped => skipped := skipped + 1;
      case Updated(_) => updated := updated + 1;
      case Failed(_) => errors := errors + 1;
    }
    BackfillElements(original, data[..]);
    summary := Summary(total, updated, skipped, errors, FormatElapsed(elapsedSeconds));
  }

  /** An event is skipped exactly when it already has a `time_taken`, and updated exactly
      when the pass changes it. */
  lemma OutcomeKinds(data: seq<Doc>, i: nat)
    requires i < |data|
    ensures OutcomeAt(data, i).Skipped? <==> TimeTakenKey in data[i]
    ensures OutcomeAt(data, i).Updated? <==> Backfill(data)[i] != data[i]
  {
    var outcome := OutcomeAt(data, i);
    assert Backfill(data)[i] == Apply(data[i], outcome);
    if outcome.Updated? {
      assert TimeTakenKey in Backfill(data)[i] && TimeTakenKey !in data[i];
    }
  }

  /** What the returned counters count among the events of `data`: `updated` the events
      the pass rewrote, `skipped` those that already had a `time_taken`, `errors` those
      that failed; a non-empty pass reports its elapsed seconds as `MM:SS`. */
  lemma ReportCounts(data: seq<Doc>, elapsedSeconds: nat)
    ensures Report(data, elapsedSeconds).updated == |set i | 0 <= i < |data| && Backfill(data)[i] != data[i]|
    ensures Report(data, elapsedSeconds).skipped == |set i | 0 <= i < |data| && TimeTakenKey in data[i]|
    ensures Report(data, elapsedSeconds).errors == |set i | 0 <= i < |data| && OutcomeAt(data, i).Failed?|
    ensures data != [] ==> Report(data, elapsedSeconds).elapsed == FormatElapsed(elapsedSeconds)
  {
    var outcomes, n := Outcomes(data), |data|;
    OutcomesAt(data);
    TallyUpdated(outcomes, n);
    TallySkipped(outcomes, n);
    TallyErrors(outcomes, n);
    forall i | 0 <= i < n
      ensures outcomes[i].Updated? <==> Backfill(data)[i] != data[i]
      ensures outcomes[i].Skipped? <==> TimeTakenKey in data[i]
    {
      OutcomeKinds(data, i);
    }
    assert (set i | 0 <= i < n && outcomes[i].Updated?) == (set i | 0 <= i < n && Backfill(data)[i] != data[i]);
    assert (set i | 0 <= i < n && outcomes[i].Skipped?) == (set i | 0 <= i < n && TimeTakenKey in data[i]);
    assert (set i | 0 <= i < n && outcomes[i].Failed?) == (set i | 0 <= i < n && OutcomeAt(data, i).Failed?);
  }

  // Properties of one pass

  /** The oldest event without a `time_taken` gets its duration text verbatim, parsed
      or not; it fails only when it has no duration at all. */
  lemma OldestGetsDurationText(data: seq<Doc>)
    requires |data| > 0 && TimeTakenKey !in data[|data| - 1]
    ensures var oldest := data[|data| - 1];
      && (OutcomeAt(data, |data| - 1).Failed? <==> DurationKey !in oldest)
      && (DurationKey in oldest ==>
            Backfill(data)[|data| - 1] == oldest[TimeTakenKey := oldest[DurationKey]])
  {
  }

  /** Every event but the oldest is updated exactly when its own `played_at`, the older
      event's `played_at` and its own duration all parse, whether the older event was
      skipped, updated or failed. */
  lemma NewerEventUpdated(data: seq<Doc>, i: nat)
    requires i + 1 < |data| && TimeTakenKey !in data[i]
    ensures OutcomeAt(data, i).Updated? <==>
      PlayedAtSeconds(data[i]).Ok? && PlayedAtSeconds(data[i + 1]).Ok? && DurationSeconds(data[i]).Ok?
  {
    var current, previous, duration := PlayedAtSeconds(data[i]), PlayedAtSeconds(data[i + 1]), DurationSeconds(data[i]);
    assert Next(data, i) == Some(data[i + 1]);
    assert OutcomeAt(data, i) == Classify(Estimate(current, previous, duration));
    EstimateParsesBack(current, previous, duration);
  }

  /** The text an updated event with an older neighbour is given parses back as
      min(gap, duration). */
  lemma UpdatedEstimate(data: seq<Doc>, i: nat)
    requires i + 1 < |data| && OutcomeAt(data, i).Updated?
    ensures PlayedAtSeconds(data[i]).Ok? && PlayedAtSeconds(data[i + 1]).Ok? && DurationSeconds(data[i]).Ok?
    ensures ParseDuration(OutcomeAt(data, i).timeTaken) ==
      Some(Min(PlayedAtSeconds(data[i]).value - PlayedAtSeconds(data[i + 1]).value, DurationSeconds(data[i]).value))
  {
    var current, previous, duration := PlayedAtSeconds(data[i]), PlayedAtSeconds(data[i + 1]), DurationSeconds(data[i]);
    assert Next(data, i) == Some(data[i + 1]);
    assert OutcomeAt(data, i) == Classify(Estimate(current, previous, duration));
    EstimateParsesBack(current, previous, duration);
  }

  /** The value written for an updated event that has an older neighbour parses back as
      min(gap, duration), so it is at most the duration and at most the gap. */
  lemma NewerEventCapped(data: seq<Doc>, i: nat)
    requires i + 1 < |data| && OutcomeAt(data, i).Updated?
    ensures PlayedAtSeconds(data[i]).Ok? && PlayedAtSeconds(data[i + 1]).Ok? && DurationSeconds(data[i]).Ok?
    ensures var gap := PlayedAtSeconds(data[i]).value - PlayedAtSeconds(data[i + 1]).value;
      var duration := DurationSeconds(data[i]).value;
      && TimeTakenKey in Backfill(data)[i]
      && ParseDuration(Backfill(data)[i][TimeTakenKey]) == Some(Min(gap, duration))
      && Min(gap, duration) <= duration
      && Min(gap, duration) <= gap
  {
    UpdatedEstimate(data, i);
    assert Backfill(data)[i] == data[i][TimeTakenKey := OutcomeAt(data, i).timeTaken];
  }

  /** When an event's `played_at` is not earlier than the next older event's, as the
      descending sort puts them, the gap between them is non-negative, and zero exactly
      when both are the same time. */
  lemma GapOfSortedEvents(newer: Doc, older: Doc, a: Timestamp.DateTime, b: Timestamp.DateTime)
    requires PlayedAtKey in newer && Timestamp.Parse(newer[PlayedAtKey]) == Some(a)
    requires PlayedAtKey in older && Timestamp.Parse(older[PlayedAtKey]) == Some(b)
    requires !Timestamp.Earlier(a, b)
    ensures PlayedAtSeconds(newer).Ok? && PlayedAtSeconds(older).Ok?
    ensures PlayedAtSeconds(newer).value - PlayedAtSeconds(older).value >= 0
    ensures PlayedAtSeconds(newer).value == PlayedAtSeconds(older).value <==> a == b
  {
    Timestamp.ToSecondsOrder(b, a);
  }

  /** An event without a `time_taken` whose `played_at` and duration read, followed by
      an older event whose `played_at` reads, is updated with min(gap, duration). */
  lemma EstimateFromReads(data: seq<Doc>, i: nat, now: int, before: int, duration: int)
    requires i + 1 < |data| && TimeTakenKey !in data[i]
    requires PlayedAtSeconds(data[i]) == Ok(now) && PlayedAtSeconds(data[i + 1]) == Ok(before)
    requires DurationSeconds(data[i]) == Ok(duration)
    ensures TimeTakenKey in Backfill(data)[i]
    ensures ParseDuration(Backfill(data)[i][TimeTakenKey]) == Some(Min(now - before, duration))
  {
    NewerEventUpdated(data, i);
    NewerEventCapped(data, i);
  }

  /** A failed event is counted and left exactly as it was. */
  lemma FailedEventUnchanged(data: seq<Doc>, i: nat)
    requires i < |data| && OutcomeAt(data, i).Failed?
    ensures Backfill(data)[i] == data[i] && TimeTakenKey !in data[i]
  {
  }

  // Idempotence: a second pass

  /** An event's outcome reads only the older event's `played_at`. */
  lemma PlayedAtOnly(a: Doc, b: Doc)
    requires a - {TimeTakenKey} == b - {TimeTakenKey}
    ensures PlayedAtSeconds(a) == PlayedAtSeconds(b)
  {
    assert PlayedAtKey in a <==> PlayedAtKey in a - {TimeTakenKey};
    assert PlayedAtKey in b <==> PlayedAtKey in b - {TimeTakenKey};
    if PlayedAtKey in a {
      assert a[PlayedAtKey] == (a - {TimeTakenKey})[PlayedAtKey];
      assert b[PlayedAtKey] == (b - {TimeTakenKey})[PlayedAtKey];
    }
  }

  /** On a second pass, what was skipped or updated is skipped, and what failed fails
      again for the same reason. */
  lemma SecondPassOutcome(data: seq<Doc>, i: nat)
    requires i < |data|
    ensures OutcomeAt(Backfill(data), i) == if OutcomeAt(data, i).Failed? then OutcomeAt(data, i) else Skipped
  {
    var after := Backfill(data);
    if OutcomeAt(data, i).Failed? {
      assert after[i] == data[i];
      if i + 1 < |data| {
        PlayedAtOnly(after[i + 1], data[i + 1]);
      }
    }
  }

  /** A second pass writes nothing. */
  lemma BackfillIdempotent(data: seq<Doc>)
    ensures Backfill(Backfill(data)) == Backfill(data)
  {
    var after := Backfill(data);
    forall i | 0 <= i < |after|
      ensures Apply(after[i], OutcomeAt(after, i)) == after[i]
    {
      SecondPassOutcome(data, i);
    }
    OutcomesAt(after);
    BackfillElements(after, after);
  }

  /** The outcomes of a second pass: failures stay, everything else becomes skipped. */
  function Rerun(outcomes: seq<Outcome>): (again: seq<Outcome>)
    ensures |again| == |outcomes|
  {
    seq(|outcomes|, i requires 0 <= i < |outcomes| => if outcomes[i].Failed? then outcomes[i] else Skipped)
  }

  lemma SecondPassOutcomes(data: seq<Doc>)
    ensures Outcomes(Backfill(data)) == Rerun(Outcomes(data))
  {
    forall i | 0 <= i < |data|
      ensures Outcomes(Backfill(data))[i] == Rerun(Outcomes(data))[i]
    {
      OutcomesAt(data);
      OutcomesAt(Backfill(data));
      SecondPassOutcome(data, i);
    }
  }

  /** The counters of a second pass: nothing updated, everything the first pass skipped
      or updated now skipped, the same errors. */
  lemma {:induction false} RerunTally(outcomes: seq<Outcome>, n: nat)
    requires n <= |outcomes|
    ensures var first := Tally(outcomes, n);
      Tally(Rerun(outcomes), n) == Counts(0, first.updated + first.skipped, first.errors)
  {
    if n > 0 {
      RerunTally(outcomes, n - 1);
    }
  }

  /** Without errors no outcome is a failure. */
  lemma {:induction false} NoErrorsNoFailures(outcomes: seq<Outcome>, n: nat)
    requires n <= |outcomes| && Tally(outcomes, n).errors == 0
    ensures forall i :: 0 <= i < n ==> !outcomes[i].Failed?
  {
    if n > 0 {
      NoErrorsNoFailures(outcomes, n - 1);
    }
  }

  /** A pass with `errors == 0` leaves every event with a `time_taken`, and a second pass
      then reports `updated == 0` and `skipped == total_docs`. */
  lemma RerunAfterCleanPass(data: seq<Doc>, elapsed: nat, elapsedAgain: nat)
    requires Report(data, elapsed).errors == 0
    ensures forall i :: 0 <= i < |data| ==> TimeTakenKey in Backfill(data)[i]
    ensures var again := Report(Backfill(data), elapsedAgain);
      again.updated == 0 && again.skipped == again.totalDocs == |data| && again.errors == 0
  {
    if data != [] {
      var outcomes := Outcomes(data);
      OutcomesAt(data);
      NoErrorsNoFailures(outcomes, |data|);
      SecondPassOutcomes(data);
      RerunTally(outcomes, |data|);
    }
  }

  // Events that can always be estimated

  /** An event whose `played_at` and duration both read. */
  predicate Readable(doc: Doc)
  {
    PlayedAtSeconds(doc).Ok? && DurationSeconds(doc).Ok?
  }

  /** A pass over readable events fails on none of them: each is skipped or updated. */
  lemma ReadableNeverFails(data: seq<Doc>, elapsedSeconds: nat)
    requires forall i :: 0 <= i < |data| ==> Readable(data[i])
    ensures forall i :: 0 <= i < |data| ==> !OutcomeAt(data, i).Failed?
    ensures Report(data, elapsedSeconds).errors == 0
  {
    forall i | 0 <= i < |data| ensures !OutcomeAt(data, i).Failed? {
      if TimeTakenKey !in data[i] {
        if i + 1 < |data| {
          NewerEventUpdated(data, i);
        } else {
          OldestGetsDurationText(data);
        }
      }
    }
    if data != [] {
      OutcomesAt(data);
      NoFailuresNoErrors(Outcomes(data), |data|);
    }
  }

  /** Without failures there are no errors. */
  lemma {:induction false} NoFailuresNoErrors(outcomes: seq<Outcome>, n: nat)
    requires n <= |outcomes| && forall i :: 0 <= i < n ==> !outcomes[i].Failed?
    ensures Tally(outcomes, n).errors == 0
  {
    if n > 0 {
      NoFailuresNoErrors(outcomes, n - 1);
    }
  }
}
