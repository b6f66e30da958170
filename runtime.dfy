/**
 * What the indexing Lambda talks to: the bucket (objects to read, listing
 * responses, keys whose upload is refused), the libraries it calls as black
 * boxes, and the record of what one run wrote before it stopped.
 *
 * The concurrent fan-outs of the source run here one task after another; the
 * first failure ends the run, and uploads done before it stay done.
 */
module Runtime {
  import opened Strings
  import opened Config

  datatype Error =
    | NoSuchKey(key: string)            // getObject on a key the bucket does not hold
    | ListFailed(prefix: string)        // a listObjectsV2 call failed
    | ListingExhausted(prefix: string)  // a truncated page with no further response
    | PutRefused(key: string)           // a putObject call failed
    | HighlightFailed(key: string)      // highlightAuto threw
    | NoRecords                         // event.Records[0] is undefined

  datatype Result<T> = Ok(value: T) | Err(error: Error)

  /** An object as getObject returns it; STANDARD objects come without a storage class. */
  datatype StoredObject = StoredObject(body: string, storageClass: Option<string>)

  /** One entry of a listing's Contents. */
  datatype ObjectSummary = ObjectSummary(key: string, size: nat, lastModified: string)

  /** One listObjectsV2 response: CommonPrefixes, Contents and IsTruncated. */
  datatype Page = Page(commonPrefixes: seq<string>, contents: seq<ObjectSummary>, isTruncated: bool)

  datatype Bucket = Bucket(
    objects: map<string, StoredObject>,
    // the responses to the successive listing calls for a prefix, each call
    // passing the continuation token of the response before it
    listing: string -> seq<Result<Page>>,
    denied: set<string>)

  /** highlight.js, filesize and moment, as opaque functions. */
  datatype Libraries = Libraries(
    highlightAuto: string -> Option<string>,  // the `value` of the result; None when it throws
    fileSize: nat -> string,                  // filesize(size)
    epochMillis: string -> string,            // moment(lastModified).valueOf()
    isoTime: string -> string)                // moment(lastModified).toISOString()

  /** One putObject request. A body of None is a request whose Body is undefined. */
  datatype Put = Put(key: string, body: Option<string>, storageClass: string)

  datatype Outcome = Pass | Fail(error: Error)

  /** The uploads a run completed, in order, and how it ended. */
  datatype Run = Run(puts: seq<Put>, outcome: Outcome)

  const Done := Run([], Pass)

  /** `a`, then `b` unless `a` failed. */
  function Then(a: Run, b: Run): (r: Run)
    ensures r.outcome.Pass? <==> a.outcome.Pass? && b.outcome.Pass?
    ensures a.outcome.Fail? ==> r == a
    ensures a.outcome.Pass? ==> r.puts == a.puts + b.puts
    ensures a.outcome.Pass? ==> r.outcome == b.outcome
  {
    if a.outcome.Fail? then a else Run(a.puts + b.puts, b.outcome)
  }

  /** A run made of two that succeeds: both succeeded, and every upload of either is in it. */
  lemma ThenParts(a: Run, b: Run)
    requires Then(a, b).outcome.Pass?
    ensures a.outcome.Pass? && b.outcome.Pass?
    ensures forall p :: p in a.puts || p in b.puts ==> p in Then(a, b).puts
  {
  }

  /** The runs of `work` on each item, in order, stopping at the first failure. */
  function Sequence<T>(items: seq<T>, work: T -> Run): Run {
    if items == [] then Done
    else Then(Sequence(items[..|items| - 1], work), work(items[|items| - 1]))
  }

  /** The sequence of one more item is the sequence so far followed by the item's run. */
  lemma SequenceSnoc<T>(items: seq<T>, i: nat, work: T -> Run)
    requires i < |items|
    ensures Sequence(items[..i + 1], work) == Then(Sequence(items[..i], work), work(items[i]))
  {
    assert items[..i + 1][..i] == items[..i];
  }

  /** Once the run of one item has failed, the later items change nothing. */
  lemma {:induction false} SequenceStops<T>(items: seq<T>, k: nat, work: T -> Run)
    requires k <= |items|
    requires Sequence(items[..k], work).outcome.Fail?
    ensures Sequence(items, work) == Sequence(items[..k], work)
    decreases |items| - k
  {
    if k < |items| {
      var shorter := items[..|items| - 1];
      assert shorter[..k] == items[..k];
      SequenceStops(shorter, k, work);
    } else {
      assert items[..k] == items;
    }
  }

  /** When the whole sequence succeeds, so did the run of each item, and its uploads are in the whole. */
  lemma {:induction false} SequencePart<T>(items: seq<T>, j: nat, work: T -> Run)
    requires j < |items|
    requires Sequence(items, work).outcome.Pass?
    ensures work(items[j]).outcome.Pass?
    ensures forall p :: p in work(items[j]).puts ==> p in Sequence(items, work).puts
  {
    var n := |items|;
    ThenParts(Sequence(items[..n - 1], work), work(items[n - 1]));
    if j < n - 1 {
      SequencePart(items[..n - 1], j, work);
      assert items[..n - 1][j] == items[j];
    }
  }

  /** Every upload of the sequence is an upload of the run of one of its items. */
  lemma {:induction false} SequencePuts<T>(items: seq<T>, work: T -> Run)
    ensures forall p :: p in Sequence(items, work).puts ==>
              exists j :: 0 <= j < |items| && p in work(items[j]).puts
  {
    if items != [] {
      var n := |items|;
      var init := items[..n - 1];
      SequencePuts(init, work);
      forall p | p in Sequence(items, work).puts
        ensures exists j :: 0 <= j < |items| && p in work(items[j]).puts
      {
        if p in Sequence(init, work).puts {
          var j :| 0 <= j < |init| && p in work(init[j]).puts;
          assert init[j] == items[j];
        } else {
          assert p in work(items[n - 1]).puts;
        }
      }
    }
  }

  /** When the whole sequence succeeds, an upload with a given key by one item's run is in the whole. */
  lemma SequenceCovers<T>(items: seq<T>, j: nat, work: T -> Run, key: string)
    requires j < |items|
    requires Sequence(items, work).outcome.Pass?
    requires work(items[j]).outcome.Pass? ==> exists p :: p in work(items[j]).puts && p.key == key
    ensures exists p :: p in Sequence(items, work).puts && p.key == key
  {
    SequencePart(items, j, work);
    var p :| p in work(items[j]).puts && p.key == key;
    assert p in Sequence(items, work).puts;
  }

  /** When no item uploads more than once, neither does the sequence per item. */
  lemma {:induction false} SequenceAtMostOne<T>(items: seq<T>, work: T -> Run)
    requires forall t :: t in items ==> |work(t).puts| <= 1
    ensures |Sequence(items, work).puts| <= |items|
  {
    if items != [] {
      var init := items[..|items| - 1];
      assert forall t :: t in init ==> t in items;
      SequenceAtMostOne(init, work);
      assert items[|items| - 1] in items;
    }
  }

  function GetObject(bucket: Bucket, key: string): (r: Result<StoredObject>)
    ensures r.Ok? <==> key in bucket.objects
    ensures r.Ok? ==> r.value == bucket.objects[key]
    ensures r.Err? ==> r.error == NoSuchKey(key)
  {
    if key in bucket.objects then Ok(bucket.objects[key]) else Err(NoSuchKey(key))
  }

  /** `data.StorageClass || STORAGECLASS`: an absent or empty class falls back to the configured one. */
  function StorageClassOf(given: Option<string>, cfg: Config): (r: string)
    ensures given.Some? && given.value != "" ==> r == given.value
    ensures given.None? || given.value == "" ==> r == cfg.storageClass
  {
    if given.Some? && given.value != "" then given.value else cfg.storageClass
  }

  /** `exports.putObject`: one upload, recorded when the bucket accepts it. */
  function PutObject(bucket: Bucket, key: string, body: Option<string>, storageClass: Option<string>, cfg: Config): (r: Run)
    ensures r.outcome.Pass? <==> key !in bucket.denied
    ensures r.outcome.Pass? ==> |r.puts| == 1 && r.puts[0].key == key && r.puts[0].body == body
    ensures r.outcome.Pass? ==> r.puts[0].storageClass == StorageClassOf(storageClass, cfg)
    ensures r.outcome.Fail? ==> r.puts == [] && r.outcome.error == PutRefused(key)
  {
    if key in bucket.denied then Run([], Fail(PutRefused(key)))
    else Run([Put(key, body, StorageClassOf(storageClass, cfg))], Pass)
  }
}
