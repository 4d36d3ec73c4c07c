/** The ingest loop of `fetch_recent_tracks` (spotify-lambda-fetcher.py): each recently
    played item becomes a record of five text fields, upserted into the `songs`
    collection under its local `played_at` with `$set` merge semantics. */
module Fetcher {
  import opened Common
  import opened Text
  import Timestamp

  /** The parts of a Spotify track object the loop reads. */
  datatype Track = Track(artists: seq<string>, name: string, durationMs: nat, album: string)

  /** One item of `recent_tracks['items']`. `localTime` is its `played_at` converted to
      Asia/Singapore time, or `None` when the text matches neither of the two UTC
      layouts tried (the second `strptime` raises and the whole fetch aborts). */
  datatype PlayHistory = PlayHistory(track: Track, localTime: Option<Timestamp.LocalTime>)

  /** `duration_ms // 60000` and `(duration_ms % 60000) // 1000`: the seconds field is a
      clock second, and together the fields are the duration in whole seconds, the
      milliseconds below one second dropped. */
  lemma DurationFields(ms: nat)
    ensures (ms % 60000) / 1000 <= 59
    ensures (ms / 60000) * 60 + (ms % 60000) / 1000 == ms / 1000
  {
    var minutes, rest := ms / 60000, ms % 60000;
    var seconds, millis := rest / 1000, rest % 1000;
    assert ms == 1000 * (minutes * 60 + seconds) + millis;
  }

  /** `f"{minutes:02}:{seconds:02}"` of a track length in milliseconds. */
  function FormatDuration(ms: nat): string
  {
    PaddedPair(ms / 60000, (ms % 60000) / 1000)
  }

  /** Under 100 minutes, a track length is written as exactly two minute digits, a colon
      and two second digits, each field zero-padded. */
  lemma FormatDurationPadded(ms: nat)
    requires ms / 60000 < 100
    ensures var minutes, seconds := ms / 60000, (ms % 60000) / 1000;
      FormatDuration(ms) == [DigitChar(minutes / 10), DigitChar(minutes % 10), ':',
                             DigitChar(seconds / 10), DigitChar(seconds % 10)]
  {
    DurationFields(ms);
    Pad2Small(ms / 60000);
    Pad2Small((ms % 60000) / 1000);
  }

  /** A track of 3 minutes 30 seconds is written with both fields zero-padded. */
  lemma FormatDurationExample()
    ensures FormatDuration(210000) == "03:30"
  {
    FormatDurationPadded(210000);
    assert DigitChar(0) == '0' && DigitChar(3) == '3';
  }

  /** Building the record of an item does not raise: its `played_at` parses and its
      track has a first artist (`track['artists'][0]`). */
  predicate Fetchable(item: PlayHistory)
  {
    item.localTime.Some? && |item.track.artists| > 0
  }

  /** The document `data` the loop builds for one item, or `None` where building it
      raises. */
  function ToRecord(item: PlayHistory): (r: Option<Doc>)
    ensures r.Some? <==> Fetchable(item)
    ensures r.Some? ==> r.value.Keys == {ArtistKey, TitleKey, PlayedAtKey, DurationKey, AlbumKey}
    ensures r.Some? ==> TimeTakenKey !in r.value
  {
    match item.localTime
    case None => None
    case Some(local) =>
      if |item.track.artists| == 0 then None
      else
        Some(map[ArtistKey := item.track.artists[0],
                 TitleKey := item.track.name,
                 PlayedAtKey := Timestamp.Format(local),
                 DurationKey := FormatDuration(item.track.durationMs),
                 AlbumKey := item.track.album])
  }

  /** `update_one({'played_at': key}, {'$set': fields}, upsert=True)` on a collection
      holding at most one document per `played_at`: the fields overwrite those of the
      matching document and every other field of it is kept; without a match a new
      document holds the filter's field and the fields. */
  function Upsert(store: map<string, Doc>, key: string, fields: Doc): (after: map<string, Doc>)
    ensures after.Keys == store.Keys + {key}
    ensures forall k :: k in store && k != key ==> after[k] == store[k]
    ensures forall f :: f in fields ==> f in after[key] && after[key][f] == fields[f]
    ensures forall f :: key in store && f in store[key] && f !in fields ==>
      f in after[key] && after[key][f] == store[key][f]
    ensures key in store ==> after[key].Keys == store[key].Keys + fields.Keys
    ensures key !in store ==> after[key].Keys == fields.Keys + {PlayedAtKey}
    ensures key !in store && PlayedAtKey !in fields ==> after[key][PlayedAtKey] == key
  {
    var existing := if key in store then store[key] else map[PlayedAtKey := key];
    store[key := existing + fields]
  }

  /** The record of each fetched item in order, `None` for an item whose record raises. */
  function Records(items: seq<PlayHistory>): seq<Option<Doc>>
  {
    seq(|items|, i requires 0 <= i < |items| => ToRecord(items[i]))
  }

  /** The collection after the loop, and whether the loop ran to the end. */
  datatype Ingested = Ingested(store: map<string, Doc>, ok: bool)

  /** The whole loop over the items' records: each is upserted in turn under its
      `played_at`; the first one that raises aborts the loop, keeping the upserts
      already made. */
  function Ingest(store: map<string, Doc>, records: seq<Option<Doc>>): Ingested
    decreases |records|
  {
    if records == [] then Ingested(store, true)
    else
      match records[0]
      case None => Ingested(store, false)
      case Some(data) =>
        if PlayedAtKey in data then Ingest(Upsert(store, data[PlayedAtKey], data), records[1..])
        else Ingested(store, false)
  }

  /** The `songs` collection: documents by `played_at`. */
  class SongCollection {
    var records: map<string, Doc>

    constructor (initial: map<string, Doc>)
      ensures records == initial
    {
      records := initial;
    }

    /** `collection.update_one({'played_at': key}, {'$set': fields}, upsert=True)`. */
    method UpdateOne(key: string, fields: Doc)
      modifies this
      ensures records == Upsert(old(records), key, fields)
    {
      records := Upsert(records, key, fields);
    }
  }

  /** The loop of `fetch_recent_tracks` over the fetched items; `false` where it raises. */
  method FetchRecentTracks(collection: SongCollection, items: seq<PlayHistory>) returns (ok: bool)
    modifies collection
    ensures Ingested(collection.records, ok) == Ingest(old(collection.records), Records(items))
  {
    ghost var records := Records(items);
    for i := 0 to |items|
      invariant Ingest(old(collection.records), records) == Ingest(collection.records, records[i..])
    {
      assert records[i..][1..] == records[i + 1..];
      var data := ToRecord(items[i]);
      if data.None? {
        return false;
      }
      collection.UpdateOne(data.value[PlayedAtKey], data.value);
    }
    return true;
  }

  // The loop as a whole

  /** The records the loop upserts, in order: those before the first one that raises. */
  function Accepted(records: seq<Option<Doc>>): (accepted: seq<Doc>)
    ensures |accepted| <= |records|
    decreases |records|
  {
    if records == [] || records[0].None? || PlayedAtKey !in records[0].value then []
    else [records[0].value] + Accepted(records[1..])
  }

  /** The accepted records are the leading ones, in order, each with a `played_at`; the
      record after them, if any, is the one that raises. */
  lemma {:induction false} AcceptedRecords(records: seq<Option<Doc>>)
    ensures forall j :: 0 <= j < |Accepted(records)| ==>
      records[j] == Some(Accepted(records)[j]) && PlayedAtKey in Accepted(records)[j]
    ensures |Accepted(records)| < |records| ==>
      records[|Accepted(records)|].None? || PlayedAtKey !in records[|Accepted(records)|].value
    decreases |records|
  {
    if records != [] && records[0].Some? && PlayedAtKey in records[0].value {
      var rest := records[1..];
      AcceptedRecords(rest);
      var accepted := Accepted(records);
      assert accepted == [records[0].value] + Accepted(rest);
      forall j | 1 <= j < |accepted|
        ensures records[j] == Some(accepted[j]) && PlayedAtKey in accepted[j]
      {
        assert records[j] == rest[j - 1];
      }
      if |accepted| < |records| {
        assert records[|accepted|] == rest[|Accepted(rest)|];
      }
    }
  }

  /** Upserting records one after another, each under its own `played_at`. */
  function UpsertAll(store: map<string, Doc>, records: seq<Doc>): map<string, Doc>
    requires forall j :: 0 <= j < |records| ==> PlayedAtKey in records[j]
    decreases |records|
  {
    if records == [] then store
    else UpsertAll(Upsert(store, records[0][PlayedAtKey], records[0]), records[1..])
  }

  /** The loop upserts exactly the records before the first one that raises, and
      reports success exactly when none does. */
  lemma {:induction false} IngestStopsAtFirstFailure(store: map<string, Doc>, records: seq<Option<Doc>>)
    ensures forall j :: 0 <= j < |Accepted(records)| ==> PlayedAtKey in Accepted(records)[j]
    ensures Ingest(store, records) ==
      Ingested(UpsertAll(store, Accepted(records)), |Accepted(records)| == |records|)
    decreases |records|
  {
    AcceptedRecords(records);
    if records != [] && records[0].Some? && PlayedAtKey in records[0].value {
      var data := records[0].value;
      IngestStopsAtFirstFailure(Upsert(store, data[PlayedAtKey], data), records[1..]);
      assert Accepted(records)[1..] == Accepted(records[1..]);
    }
  }

  /** The keys of a batch of records. */
  function KeysOf(records: seq<Doc>): set<string>
    requires forall j :: 0 <= j < |records| ==> PlayedAtKey in records[j]
  {
    set j | 0 <= j < |records| :: records[j][PlayedAtKey]
  }

  /** After a batch the collection holds its old keys and the batch's keys, one
      document each, and a document under any other key is as it was. */
  lemma {:induction false} UpsertAllKeys(store: map<string, Doc>, records: seq<Doc>)
    requires forall j :: 0 <= j < |records| ==> PlayedAtKey in records[j]
    ensures UpsertAll(store, records).Keys == store.Keys + KeysOf(records)
    ensures forall k :: k in store && k !in KeysOf(records) ==> UpsertAll(store, records)[k] == store[k]
    decreases |records|
  {
    if records != [] {
      var rest := records[1..];
      var key := records[0][PlayedAtKey];
      UpsertAllKeys(Upsert(store, key, records[0]), rest);
      KeysOfFirst(records);
    }
  }

  /** The keys of a batch are the first record's key and the keys of the rest. */
  lemma KeysOfFirst(records: seq<Doc>)
    requires |records| > 0 && forall j :: 0 <= j < |records| ==> PlayedAtKey in records[j]
    ensures KeysOf(records) == {records[0][PlayedAtKey]} + KeysOf(records[1..])
  {
    var rest := records[1..];
    forall k | k in KeysOf(records) ensures k in {records[0][PlayedAtKey]} + KeysOf(rest) {
      var j :| 0 <= j < |records| && records[j][PlayedAtKey] == k;
      if j > 0 { assert rest[j - 1] == records[j]; }
    }
    forall k | k in KeysOf(rest) ensures k in KeysOf(records) {
      var j :| 0 <= j < |rest| && rest[j][PlayedAtKey] == k;
      assert records[j + 1] == rest[j];
    }
  }

  /** When two records of a batch share a `played_at`, the later one's fields win: the
      last record under a key leaves each of its fields in the collection. */
  lemma {:induction false} LastWriterWins(store: map<string, Doc>, records: seq<Doc>, j: nat)
    requires forall i :: 0 <= i < |records| ==> PlayedAtKey in records[i]
    requires j < |records|
    requires forall i :: j < i < |records| ==> records[i][PlayedAtKey] != records[j][PlayedAtKey]
    ensures var key := records[j][PlayedAtKey];
      key in UpsertAll(store, records) &&
      forall f :: f in records[j] ==> f in UpsertAll(store, records)[key] && UpsertAll(store, records)[key][f] == records[j][f]
    decreases |records|
  {
    var rest := records[1..];
    var first := Upsert(store, records[0][PlayedAtKey], records[0]);
    if j == 0 {
      var key := records[0][PlayedAtKey];
      UpsertAllKeys(first, rest);
      forall i | 0 <= i < |rest| ensures rest[i][PlayedAtKey] != key {
        assert rest[i] == records[i + 1];
      }
    } else {
      forall i | j - 1 < i < |rest| ensures rest[i][PlayedAtKey] != rest[j - 1][PlayedAtKey] {
        assert rest[i] == records[i + 1];
      }
      LastWriterWins(first, rest, j - 1);
    }
  }

  /** A batch whose records carry no `time_taken` keeps every `time_taken` already in the
      collection. */
  lemma {:induction false} UpsertAllKeepsTimeTaken(store: map<string, Doc>, records: seq<Doc>, key: string)
    requires forall j :: 0 <= j < |records| ==> PlayedAtKey in records[j] && TimeTakenKey !in records[j]
    requires key in store && TimeTakenKey in store[key]
    ensures key in UpsertAll(store, records) && TimeTakenKey in UpsertAll(store, records)[key]
    ensures UpsertAll(store, records)[key][TimeTakenKey] == store[key][TimeTakenKey]
    decreases |records|
  {
    if records != [] {
      UpsertAllKeepsTimeTaken(Upsert(store, records[0][PlayedAtKey], records[0]), records[1..], key);
    }
  }

  /** A fetch never removes or rewrites a `time_taken` the updater has written. */
  lemma IngestKeepsTimeTaken(store: map<string, Doc>, items: seq<PlayHistory>, key: string)
    requires key in store && TimeTakenKey in store[key]
    ensures key in Ingest(store, Records(items)).store
    ensures TimeTakenKey in Ingest(store, Records(items)).store[key]
    ensures Ingest(store, Records(items)).store[key][TimeTakenKey] == store[key][TimeTakenKey]
  {
    var records := Records(items);
    IngestStopsAtFirstFailure(store, records);
    AcceptedRecords(records);
    UpsertAllKeepsTimeTaken(store, Accepted(records), key);
  }

  /** A fetch holds the old keys and one document per `played_at` it upserted, leaves
      documents under other keys as they were, and runs to the end exactly when every
      item's record could be built. */
  lemma IngestKeys(store: map<string, Doc>, items: seq<PlayHistory>)
    ensures var accepted := Accepted(Records(items));
      && (forall j :: 0 <= j < |accepted| ==> PlayedAtKey in accepted[j])
      && Ingest(store, Records(items)).store.Keys == store.Keys + KeysOf(accepted)
      && (forall k :: k in store && k !in KeysOf(accepted) ==> Ingest(store, Records(items)).store[k] == store[k])
      && (Ingest(store, Records(items)).ok <==>
            forall i :: 0 <= i < |items| ==> Fetchable(items[i]))
  {
    var records := Records(items);
    IngestStopsAtFirstFailure(store, records);
    AcceptedRecords(records);
    UpsertAllKeys(store, Accepted(records));
    var accepted := Accepted(records);
    if |accepted| < |records| {
      assert records[|accepted|] == ToRecord(items[|accepted|]);
    } else {
      forall i | 0 <= i < |items| ensures Fetchable(items[i]) {
        assert ToRecord(items[i]) == records[i] == Some(accepted[i]);
      }
    }
  }
}
