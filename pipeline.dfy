/** How the two components meet in the `songs` collection: the fetcher writes
    `played_at` and `duration`, the time-taken pass reads them back. */
module Pipeline {
  import opened Common
  import opened Text
  import Timestamp
  import TimeTaken
  import Fetcher

  /** The updater's `int(minutes) * 60 + int(seconds)` of the fetcher's `MM:SS` duration
      is the track length in whole seconds. */
  lemma DurationRoundTrip(ms: nat)
    ensures TimeTaken.ParseDuration(Fetcher.FormatDuration(ms)) == Some(ms / 1000)
  {
    Fetcher.DurationFields(ms);
    TimeTaken.PaddedPairDuration(ms / 60000, (ms % 60000) / 1000);
  }

  /** A record the fetcher builds reads back in the updater: its `played_at` as the local
      time it was written from, its duration as the track length in whole seconds; and it
      has no `time_taken` yet. */
  lemma FetchedRecordReads(item: Fetcher.PlayHistory)
    requires Fetcher.Fetchable(item)
    ensures var record := Fetcher.ToRecord(item).value;
      && TimeTaken.PlayedAtSeconds(record) == Ok(Timestamp.ToSeconds(item.localTime.value))
      && TimeTaken.DurationSeconds(record) == Ok(item.track.durationMs / 1000)
      && TimeTakenKey !in record
  {
    var local := item.localTime.value;
    Timestamp.ParseFormat(local);
    DurationRoundTrip(item.track.durationMs);
  }

  /** A fetched record is one the updater can always estimate. */
  lemma FetchedRecordReadable(item: Fetcher.PlayHistory)
    requires Fetcher.Fetchable(item)
    ensures TimeTaken.Readable(Fetcher.ToRecord(item).value)
  {
    FetchedRecordReads(item);
  }

  /** A collection holding only what the fetcher wrote is backfilled without errors. */
  lemma FetchedCollectionHasNoErrors(items: seq<Fetcher.PlayHistory>, elapsedSeconds: nat)
    requires forall i :: 0 <= i < |items| ==> Fetcher.Fetchable(items[i])
    ensures var data := seq(|items|, i requires 0 <= i < |items| => Fetcher.ToRecord(items[i]).value);
      TimeTaken.Report(data, elapsedSeconds).errors == 0
  {
    var data := seq(|items|, i requires 0 <= i < |items| => Fetcher.ToRecord(items[i]).value);
    forall i | 0 <= i < |data| ensures TimeTaken.Readable(data[i]) {
      FetchedRecordReadable(items[i]);
    }
    TimeTaken.ReadableNeverFails(data, elapsedSeconds);
  }
}
