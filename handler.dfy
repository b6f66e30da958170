/**
 * `exports.index` (lambda/functions/index.js:52-94), the entry point of the
 * indexing Lambda: ignore a batch whose first notification is about one of
 * its own artifacts, group the notified keys by directory, highlight the
 * candidates of each directory and then rebuild the indexes of the directory
 * and of all directories above it.
 *
 * The grouping reduce fills one accumulator object; here it is a sequence of
 * entries in insertion order. Directory names always contain "/", so none of
 * them is an integer-like property name or a property inherited from
 * `Object.prototype`, and the object's key order is insertion order.
 */
module Handler {
  import opened Strings
  import opened Paths
  import opened Config
  import opened Runtime
  import opened Highlighter
  import opened IndexBuilder
  import opened Batch

  const PartialSuffix := ".partial"
  const CreatedPrefix := "ObjectCreated:"

  /** One S3 event notification: its eventName, its bucket's name and its object key. */
  datatype Record = Record(eventName: string, bucketName: string, key: string)

  /** A directory registered by the grouping, with the keys to highlight in it. */
  datatype Entry = Entry(dir: string, keys: seq<string>)

  /** The keys the Lambda itself writes, which the guard recognises. */
  predicate IsArtifactKey(key: string) {
    EndsWith(key, PartialSuffix) || EndsWith(key, HighlightSuffix)
  }

  /** A creation event for a key whose extension is highlightable. */
  predicate IsCandidate(rec: Record, cfg: Config) {
    StartsWith(rec.eventName, CreatedPrefix) && Extension(rec.key) in cfg.languages
  }

  /**
   * What the reduce looks at in a record: the directory of its key, whether it
   * is a highlight candidate and whether its base name is excluded.
   */
  datatype Class = Class(dir: string, candidate: bool, excluded: bool)

  function Classify(cfg: Config): Record -> Class {
    (rec: Record) => Class(Directory(rec.key), IsCandidate(rec, cfg), Basename(rec.key) in cfg.excludes)
  }

  /** A record registers its directory when it is a candidate or its base name is not excluded. */
  predicate Registers(c: Class) {
    c.candidate || !c.excluded
  }

  /** Position of directory `d` in the entries, or -1: the `accumulator[key]` lookup. */
  function Find(groups: seq<Entry>, d: string): (i: int)
    ensures -1 <= i < |groups|
    ensures i >= 0 ==> groups[i].dir == d
    ensures i < 0 ==> forall j :: 0 <= j < |groups| ==> groups[j].dir != d
  {
    if groups == [] then -1
    else if groups[|groups| - 1].dir == d then |groups| - 1
    else Find(groups[..|groups| - 1], d)
  }

  /** One step of the reduce: the accumulator after one more record. */
  function Register(groups: seq<Entry>, rec: Record, classify: Record -> Class): seq<Entry> {
    var c := classify(rec);
    var i := Find(groups, c.dir);
    if c.candidate then
      if i >= 0 then groups[i := Entry(c.dir, groups[i].keys + [rec.key])]
      else groups + [Entry(c.dir, [rec.key])]
    else if c.excluded then groups
    else if i >= 0 then groups
    else groups + [Entry(c.dir, [])]
  }

  /** The accumulator after reducing over all of `records`. */
  function Grouped(records: seq<Record>, classify: Record -> Class): seq<Entry> {
    if records == [] then []
    else Register(Grouped(records[..|records| - 1], classify), records[|records| - 1], classify)
  }

  /** Reference definition: the keys of the candidates among `records` in directory `d`, in arrival order. */
  function CandidateKeys(records: seq<Record>, d: string, classify: Record -> Class): seq<string> {
    if records == [] then []
    else
      var rec := records[|records| - 1];
      var before := CandidateKeys(records[..|records| - 1], d, classify);
      if classify(rec).candidate && classify(rec).dir == d then before + [rec.key] else before
  }

  /** Some record of `records` registers directory `d`. */
  predicate RegisteredIn(records: seq<Record>, d: string, classify: Record -> Class) {
    exists k :: 0 <= k < |records| && Registers(classify(records[k])) && classify(records[k]).dir == d
  }

  /** Each directory has at most one entry. */
  predicate DistinctDirs(groups: seq<Entry>) {
    forall i, j :: 0 <= i < j < |groups| ==> groups[i].dir != groups[j].dir
  }

  /** Every entry's directory is registered by some record. */
  predicate OnlyRegistered(groups: seq<Entry>, records: seq<Record>, classify: Record -> Class) {
    forall i :: 0 <= i < |groups| ==> RegisteredIn(records, groups[i].dir, classify)
  }

  /** Every registering record's directory has an entry. */
  predicate AllRegistered(groups: seq<Entry>, records: seq<Record>, classify: Record -> Class) {
    forall k :: 0 <= k < |records| && Registers(classify(records[k])) ==> Find(groups, classify(records[k]).dir) >= 0
  }

  /** Every entry holds the keys of exactly its directory's candidates, in arrival order. */
  predicate KeysOf(groups: seq<Entry>, records: seq<Record>, classify: Record -> Class) {
    forall i :: 0 <= i < |groups| ==> groups[i].keys == CandidateKeys(records, groups[i].dir, classify)
  }

  /**
   * What the grouping promises: each directory at most once; exactly the
   * directories some record registers; and for each, the keys of exactly its
   * candidates in arrival order, whatever non-candidates came later.
   */
  predicate GroupsOf(groups: seq<Entry>, records: seq<Record>, classify: Record -> Class) {
    && DistinctDirs(groups)
    && OnlyRegistered(groups, records, classify)
    && AllRegistered(groups, records, classify)
    && KeysOf(groups, records, classify)
  }

  lemma CandidateKeysSnoc(records: seq<Record>, rec: Record, d: string, classify: Record -> Class)
    ensures CandidateKeys(records + [rec], d, classify)
         == CandidateKeys(records, d, classify)
            + (if classify(rec).candidate && classify(rec).dir == d then [rec.key] else [])
  {
    assert (records + [rec])[..|records|] == records;
  }

  /** A directory with a candidate is registered by that candidate. */
  lemma {:induction false} CandidateKeysRegistered(records: seq<Record>, d: string, classify: Record -> Class)
    requires CandidateKeys(records, d, classify) != []
    ensures RegisteredIn(records, d, classify)
  {
    var n := |records|;
    var rec := records[n - 1];
    if classify(rec).candidate && classify(rec).dir == d {
      assert Registers(classify(records[n - 1]));
    } else {
      var init := records[..n - 1];
      CandidateKeysRegistered(init, d, classify);
      var k :| 0 <= k < n - 1 && Registers(classify(init[k])) && classify(init[k]).dir == d;
      assert init[k] == records[k];
    }
  }

  /** A key is among its directory's candidate keys exactly when a candidate record carries it. */
  lemma {:induction false} CandidateKeysMembers(records: seq<Record>, d: string, classify: Record -> Class, key: string)
    ensures key in CandidateKeys(records, d, classify) <==>
      exists k :: 0 <= k < |records| && classify(records[k]).candidate && records[k].key == key
                  && classify(records[k]).dir == d
  {
    if records != [] {
      var n := |records|;
      var init := records[..n - 1];
      var last := records[n - 1];
      CandidateKeysMembers(init, d, classify, key);
      var tail := if classify(last).candidate && classify(last).dir == d then [last.key] else [];
      assert CandidateKeys(records, d, classify) == CandidateKeys(init, d, classify) + tail;
      if key in CandidateKeys(records, d, classify) {
        if key in CandidateKeys(init, d, classify) {
          var k :| 0 <= k < |init| && classify(init[k]).candidate && init[k].key == key && classify(init[k]).dir == d;
          assert init[k] == records[k];
        } else {
          assert key in tail;
          assert classify(records[n - 1]).candidate && records[n - 1].key == key;
        }
      }
      if exists k :: 0 <= k < |records| && classify(records[k]).candidate && records[k].key == key
                     && classify(records[k]).dir == d {
        var k :| 0 <= k < |records| && classify(records[k]).candidate && records[k].key == key
                 && classify(records[k]).dir == d;
        if k < n - 1 {
          assert init[k] == records[k];
        } else {
          assert key in tail;
        }
      }
    }
  }

  /** The entries after one step are those before, one of them updated or one added at the end. */
  lemma RegisterShape(groups: seq<Entry>, rec: Record, classify: Record -> Class)
    ensures var next := Register(groups, rec, classify);
      var c := classify(rec);
      && |groups| <= |next| <= |groups| + 1
      && (forall j :: 0 <= j < |groups| ==> next[j].dir == groups[j].dir)
      && (|next| > |groups| ==> next[|groups|].dir == c.dir && Find(groups, c.dir) < 0 && Registers(c))
  {
  }

  lemma RegisterDistinct(groups: seq<Entry>, rec: Record, classify: Record -> Class)
    requires DistinctDirs(groups)
    ensures DistinctDirs(Register(groups, rec, classify))
  {
    RegisterShape(groups, rec, classify);
  }

  lemma RegisterOnlyRegistered(groups: seq<Entry>, records: seq<Record>, rec: Record, classify: Record -> Class)
    requires OnlyRegistered(groups, records, classify)
    ensures OnlyRegistered(Register(groups, rec, classify), records + [rec], classify)
  {
    var all := records + [rec];
    var next := Register(groups, rec, classify);
    RegisterShape(groups, rec, classify);
    forall j | 0 <= j < |next|
      ensures RegisteredIn(all, next[j].dir, classify)
    {
      if j < |groups| {
        var k :| 0 <= k < |records| && Registers(classify(records[k])) && classify(records[k]).dir == groups[j].dir;
        assert all[k] == records[k];
      } else {
        assert all[|records|] == rec;
      }
    }
  }

  lemma RegisterAllRegistered(groups: seq<Entry>, records: seq<Record>, rec: Record, classify: Record -> Class)
    requires AllRegistered(groups, records, classify)
    ensures AllRegistered(Register(groups, rec, classify), records + [rec], classify)
  {
    var all := records + [rec];
    var next := Register(groups, rec, classify);
    RegisterShape(groups, rec, classify);
    forall k | 0 <= k < |all| && Registers(classify(all[k]))
      ensures Find(next, classify(all[k]).dir) >= 0
    {
      if k < |records| {
        assert all[k] == records[k];
        var f := Find(groups, classify(all[k]).dir);
        assert next[f].dir == classify(all[k]).dir;
      } else {
        assert all[k] == rec;
        var f := Find(groups, classify(rec).dir);
        if f >= 0 {
          assert next[f].dir == classify(rec).dir;
        } else {
          assert next[|groups|].dir == classify(rec).dir;
        }
      }
    }
  }

  lemma RegisterKeys(groups: seq<Entry>, records: seq<Record>, rec: Record, classify: Record -> Class)
    requires DistinctDirs(groups)
    requires OnlyRegistered(groups, records, classify)
    requires AllRegistered(groups, records, classify)
    requires KeysOf(groups, records, classify)
    ensures KeysOf(Register(groups, rec, classify), records + [rec], classify)
  {
    var all := records + [rec];
    var c := classify(rec);
    var i := Find(groups, c.dir);
    var next := Register(groups, rec, classify);
    CandidateKeysSnoc(records, rec, c.dir, classify);
    assert i >= 0 || CandidateKeys(records, c.dir, classify) == [] by {
      if CandidateKeys(records, c.dir, classify) != [] {
        CandidateKeysRegistered(records, c.dir, classify);
        var k :| 0 <= k < |records| && Registers(classify(records[k])) && classify(records[k]).dir == c.dir;
      }
    }
    forall j | 0 <= j < |next|
      ensures next[j].keys == CandidateKeys(all, next[j].dir, classify)
    {
      CandidateKeysSnoc(records, rec, next[j].dir, classify);
      if j < |groups| && j != i {
        assert next[j] == groups[j];
        assert c.dir != groups[j].dir by {
          if i >= 0 {
            assert groups[i].dir == c.dir;
          }
        }
      }
    }
  }

  /** One step of the reduce keeps what the grouping promises. */
  lemma RegisterStep(groups: seq<Entry>, records: seq<Record>, rec: Record, classify: Record -> Class)
    requires GroupsOf(groups, records, classify)
    ensures GroupsOf(Register(groups, rec, classify), records + [rec], classify)
  {
    RegisterDistinct(groups, rec, classify);
    RegisterOnlyRegistered(groups, records, rec, classify);
    RegisterAllRegistered(groups, records, rec, classify);
    RegisterKeys(groups, records, rec, classify);
  }

  /** The same step, for the last record of a non-empty sequence. */
  lemma RegisterLast(groups: seq<Entry>, records: seq<Record>, classify: Record -> Class)
    requires records != []
    requires GroupsOf(groups, records[..|records| - 1], classify)
    ensures GroupsOf(Register(groups, records[|records| - 1], classify), records, classify)
  {
    var n := |records|;
    RegisterStep(groups, records[..n - 1], records[n - 1], classify);
    assert records[..n - 1] + [records[n - 1]] == records;
  }

  /** The reduce over all records delivers what the grouping promises. */
  lemma {:induction false} GroupedCorrect(records: seq<Record>, classify: Record -> Class)
    ensures GroupsOf(Grouped(records, classify), records, classify)
  {
    if records != [] {
      var n := |records|;
      GroupedCorrect(records[..n - 1], classify);
      RegisterLast(Grouped(records[..n - 1], classify), records, classify);
    }
  }

  /**
   * The reduce as a loop over the records, updating one entry in place for a
   * candidate of a known directory and adding an entry for a new directory.
   */
  method Group(records: seq<Record>, cfg: Config) returns (groups: seq<Entry>)
    ensures groups == Grouped(records, Classify(cfg))
  {
    groups := [];
    for n := 0 to |records|
      invariant groups == Grouped(records[..n], Classify(cfg))
    {
      var rec := records[n];
      assert Grouped(records[..n + 1], Classify(cfg)) == Register(groups, rec, Classify(cfg)) by {
        assert records[..n + 1][..n] == records[..n];
      }
      assert Classify(cfg)(rec) == Class(Directory(rec.key), IsCandidate(rec, cfg), Basename(rec.key) in cfg.excludes);
      var d := Directory(rec.key);
      var i := Find(groups, d);
      if StartsWith(rec.eventName, CreatedPrefix) && Extension(rec.key) in cfg.languages {
        if i >= 0 {
          groups := groups[i := Entry(d, groups[i].keys + [rec.key])];
        } else {
          groups := groups + [Entry(d, [rec.key])];
        }
      } else if Basename(rec.key) in cfg.excludes {
      } else if i < 0 {
        groups := groups + [Entry(d, [])];
      }
    }
    assert records[..|records|] == records;
  }

  /** The work for one directory: its highlights, then, if they all succeeded, its batch. */
  function DirectoryRun(e: Entry, cfg: Config, bucket: Bucket, libs: Libraries): Run {
    if |e.keys| > 0 then Then(HighlightAll(e.keys, cfg, bucket, libs), BatchSpec(e.dir, cfg, bucket, libs))
    else BatchSpec(e.dir, cfg, bucket, libs)
  }

  /** The work for one directory, as a value for `Sequence`. */
  function Work(cfg: Config, bucket: Bucket, libs: Libraries): Entry -> Run {
    e => DirectoryRun(e, cfg, bucket, libs)
  }

  /** The handler: no first record is an error, a first artifact key ends the run, otherwise all the work. */
  function IndexSpec(records: seq<Record>, cfg: Config, bucket: Bucket, libs: Libraries): Run {
    if records == [] then Run([], Fail(NoRecords))
    else if IsArtifactKey(records[0].key) then Done
    else Sequence(Grouped(records, Classify(cfg)), Work(cfg, bucket, libs))
  }

  /** One directory's work: highlight its candidate keys, then, when that succeeded, batch its index rebuild. */
  method RunDirectory(e: Entry, cfg: Config, bucket: Bucket, libs: Libraries) returns (step: Run)
    ensures step == Work(cfg, bucket, libs)(e)
  {
    if |e.keys| > 0 {
      var highlighted := HighlightAll(e.keys, cfg, bucket, libs);
      if highlighted.outcome.Pass? {
        var batch := RunBatch(e.dir, cfg, bucket, libs);
        step := Then(highlighted, batch);
      } else {
        step := highlighted;
      }
    } else {
      step := RunBatch(e.dir, cfg, bucket, libs);
    }
  }

  /** The handler as a loop over the grouped directories. */
  method Index(records: seq<Record>, cfg: Config, bucket: Bucket, libs: Libraries) returns (run: Run)
    ensures run == IndexSpec(records, cfg, bucket, libs)
  {
    if |records| == 0 {
      return Run([], Fail(NoRecords));
    }
    if EndsWith(records[0].key, PartialSuffix) || EndsWith(records[0].key, HighlightSuffix) {
      return Done;
    }
    var groups := Group(records, cfg);
    ghost var work := Work(cfg, bucket, libs);
    run := Done;
    var i := 0;
    while i < |groups|
      invariant 0 <= i <= |groups|
      invariant run == Sequence(groups[..i], work)
      invariant run.outcome.Pass?
    {
      var step := RunDirectory(groups[i], cfg, bucket, libs);
      SequenceSnoc(groups, i, work);
      run := Then(run, step);
      if run.outcome.Fail? {
        SequenceStops(groups, i + 1, work);
        return;
      }
      i := i + 1;
    }
    assert groups[..i] == groups;
  }

  /** Every upload of a directory's work is a highlight artifact or an index. */
  lemma DirectoryRunPuts(e: Entry, cfg: Config, bucket: Bucket, libs: Libraries)
    ensures forall p :: p in DirectoryRun(e, cfg, bucket, libs).puts ==> IsArtifactKey(p.key)
  {
    var highlights := HighlightAll(e.keys, cfg, bucket, libs);
    var batch := BatchSpec(e.dir, cfg, bucket, libs);
    assert forall p :: p in highlights.puts ==> IsArtifactKey(p.key) by {
      HighlightAllPuts(e.keys, cfg, bucket, libs);
      forall p | p in highlights.puts
        ensures IsArtifactKey(p.key)
      {
        var k :| k in e.keys && p.key == k + HighlightSuffix;
        ArtifactKeys(k);
      }
    }
    assert forall p :: p in batch.puts ==> IsArtifactKey(p.key) by {
      BatchIndexes(e.dir, cfg, bucket, libs);
      forall p | p in batch.puts
        ensures IsArtifactKey(p.key)
      {
        var a :| a in AncestorFolders(e.dir) && p.key == StripLeadingSlash(a) + IndexName;
        ArtifactKeys(StripLeadingSlash(a));
      }
    }
    assert DirectoryRun(e, cfg, bucket, libs) == (if |e.keys| > 0 then Then(highlights, batch) else batch);
  }

  /** Highlight artifacts and indexes have artifact keys. */
  lemma ArtifactKeys(s: string)
    ensures IsArtifactKey(s + HighlightSuffix) && IsArtifactKey(s + IndexName)
  {
    var h := s + HighlightSuffix;
    assert h[|h| - |HighlightSuffix|..] == HighlightSuffix;
    var i := s + IndexName;
    assert i[|i| - |PartialSuffix|..] == PartialSuffix;
  }

  /**
   * The self-invoke guard works: every object the handler writes has a key
   * that, as the first record of a later notification, makes the handler stop
   * without doing anything.
   */
  lemma OwnWritesAreGuarded(records: seq<Record>, cfg: Config, bucket: Bucket, libs: Libraries)
    ensures forall p :: p in IndexSpec(records, cfg, bucket, libs).puts ==> IsArtifactKey(p.key)
    ensures forall p, more: seq<Record>, ev: string, name: string ::
      p in IndexSpec(records, cfg, bucket, libs).puts ==>
        IndexSpec([Record(ev, name, p.key)] + more, cfg, bucket, libs) == Done
  {
    if records != [] && !IsArtifactKey(records[0].key) {
      var groups := Grouped(records, Classify(cfg));
      SequencePuts(groups, Work(cfg, bucket, libs));
      forall p | p in IndexSpec(records, cfg, bucket, libs).puts
        ensures IsArtifactKey(p.key)
      {
        var j :| 0 <= j < |groups| && p in Work(cfg, bucket, libs)(groups[j]).puts;
        DirectoryRunPuts(groups[j], cfg, bucket, libs);
      }
    }
  }

  /** The entry of the directory a registering record falls in. */
  lemma EntryOf(records: seq<Record>, k: nat, cfg: Config) returns (j: nat)
    requires k < |records| && Registers(Classify(cfg)(records[k]))
    ensures var groups := Grouped(records, Classify(cfg));
      && j < |groups|
      && groups[j].dir == Directory(records[k].key)
      && groups[j].keys == CandidateKeys(records, groups[j].dir, Classify(cfg))
  {
    GroupedCorrect(records, Classify(cfg));
    j := Find(Grouped(records, Classify(cfg)), Directory(records[k].key));
  }

  /** When the handler succeeds, every candidate record has been highlighted. */
  lemma EveryCandidateHighlighted(records: seq<Record>, k: nat, cfg: Config, bucket: Bucket, libs: Libraries)
    requires k < |records| && IsCandidate(records[k], cfg)
    requires !IsArtifactKey(records[0].key)
    requires IndexSpec(records, cfg, bucket, libs).outcome.Pass?
    ensures exists p :: p in IndexSpec(records, cfg, bucket, libs).puts && p.key == records[k].key + HighlightSuffix
  {
    var groups := Grouped(records, Classify(cfg));
    var j := EntryOf(records, k, cfg);
    var e := groups[j];
    SequencePart(groups, j, Work(cfg, bucket, libs));
    CandidateKeysMembers(records, e.dir, Classify(cfg), records[k].key);
    HighlightAllCovers(e.keys, cfg, bucket, libs, records[k].key);
    var p :| p in HighlightAll(e.keys, cfg, bucket, libs).puts && p.key == records[k].key + HighlightSuffix;
    assert p in DirectoryRun(e, cfg, bucket, libs).puts;
  }

  /**
   * When the handler succeeds, the index of the directory of every
   * registering record, and of every directory above it, has been rebuilt.
   */
  lemma EveryAncestorIndexed(records: seq<Record>, k: nat, a: string, cfg: Config, bucket: Bucket, libs: Libraries)
    requires k < |records| && (IsCandidate(records[k], cfg) || Basename(records[k].key) !in cfg.excludes)
    requires !IsArtifactKey(records[0].key)
    requires IndexSpec(records, cfg, bucket, libs).outcome.Pass?
    requires a in AncestorFolders(Directory(records[k].key))
    ensures exists p :: p in IndexSpec(records, cfg, bucket, libs).puts && p.key == StripLeadingSlash(a) + IndexName
  {
    var groups := Grouped(records, Classify(cfg));
    var j := EntryOf(records, k, cfg);
    var e := groups[j];
    SequencePart(groups, j, Work(cfg, bucket, libs));
    BatchCovers(e.dir, a, cfg, bucket, libs);
    var p :| p in BatchSpec(e.dir, cfg, bucket, libs).puts && p.key == StripLeadingSlash(a) + IndexName;
    assert p in DirectoryRun(e, cfg, bucket, libs).puts;
  }
}
