/**
 * `exports.batch` (lambda/functions/index.js:241-249): rebuild the index of a
 * directory and of every directory above it. The directory is split on "/"
 * and, for every position of the split, the pieces before it are joined back
 * with a trailing "/"; `build` runs on each such folder.
 *
 * The builds run here one after another, and the first failing build ends
 * the batch.
 */
module Batch {
  import opened Strings
  import opened Paths
  import opened Config
  import opened Runtime
  import opened IndexBuilder

  /** `folders.slice(0, i).join('/').concat('/')` for every index `i` of `folders = folder.split('/')`. */
  function AncestorFolders(folder: string): (r: seq<string>)
    ensures |r| == Count(folder, '/') + 1
  {
    var parts := Split(folder, '/');
    seq(|parts|, i requires 0 <= i < |parts| => Join(parts[..i], "/") + "/")
  }

  /**
   * The first folder is "/", the root; every later one is the prefix of
   * `folder` that ends with its i-th slash.
   */
  lemma AncestorFolder(folder: string, i: nat)
    requires i < |AncestorFolders(folder)|
    ensures var a := AncestorFolders(folder)[i];
      && EndsWith(a, "/")
      && (i == 0 ==> a == "/")
      && (i > 0 ==> StartsWith(folder, a) && Count(a, '/') == i)
  {
    var parts := Split(folder, '/');
    var a := AncestorFolders(folder)[i];
    var head := Join(parts[..i], "/");
    assert a == head + "/";
    if i == 0 {
      assert parts[..0] == [];
    } else {
      JoinSplit(folder, '/');
      JoinAt(parts, "/", i);
      assert folder == a + Join(parts[i..], "/");
      assert forall k :: 0 <= k < i ==> parts[..i][k] == parts[k];
      CountJoin(parts[..i], '/');
      CountAppend(head, "/", '/');
    }
  }

  /** For a directory (a folder ending in "/") the last folder rebuilt is the directory itself. */
  lemma LastAncestorIsFolder(folder: string)
    requires EndsWith(folder, "/")
    ensures var r := AncestorFolders(folder);
      |r| >= 2 && r[|r| - 1] == folder
  {
    var init := folder[..|folder| - 1];
    assert folder == init + "/";
    SplitTrailing(init, '/');
    JoinSplit(init, '/');
    var parts := Split(folder, '/');
    assert parts[..|parts| - 1] == Split(init, '/');
  }

  lemma SplitSlashExamples()
    ensures Split("/", '/') == ["", ""]
    ensures Split("a/b/", '/') == ["a", "b", ""]
  {
    assert Split("/", '/') == ["", ""] by { assert "/"[1..] == ""; }
    assert Split("b/", '/') == ["b", ""] by {
      assert "b/"[1..] == "/";
      assert ['b'] + "" == "b";
    }
    assert Split("/b/", '/') == ["", "b", ""] by { assert "/b/"[1..] == "b/"; }
    assert "a/b/"[1..] == "/b/";
    assert ['a'] + "" == "a";
  }

  /** `"a/b/"` rebuilds the root, "a/" and "a/b/"; `"/"` rebuilds the root twice. */
  lemma AncestorFoldersExamples()
    ensures AncestorFolders("a/b/") == ["/", "a/", "a/b/"]
    ensures AncestorFolders("/") == ["/", "/"]
  {
    NestedAncestors();
    RootAncestors();
  }

  lemma NestedAncestors()
    ensures AncestorFolders("a/b/") == ["/", "a/", "a/b/"]
  {
    SplitSlashExamples();
    var parts := ["a", "b", ""];
    var r := AncestorFolders("a/b/");
    assert parts[..0] == [] && parts[..1] == ["a"] && parts[..2] == ["a", "b"];
    assert ["a", "b"][1..] == ["b"];
    assert Join(["a", "b"], "/") == "a/b";
    assert r[0] == "/" && r[1] == "a/" && r[2] == "a/b/";
  }

  lemma RootAncestors()
    ensures AncestorFolders("/") == ["/", "/"]
  {
    SplitSlashExamples();
    var two := ["", ""];
    var q := AncestorFolders("/");
    assert two[..0] == [] && two[..1] == [""];
    assert q[0] == "/" && q[1] == "/";
  }

  /** The build of one folder, as one step of a batch. */
  function Builds(cfg: Config, bucket: Bucket, libs: Libraries): string -> Run {
    folder => BuildSpec(folder, cfg, bucket, libs)
  }

  /** The batch of a directory: the builds of all its ancestor folders, from the root down, stopping at the first failure. */
  function BatchSpec(folder: string, cfg: Config, bucket: Bucket, libs: Libraries): Run {
    Sequence(AncestorFolders(folder), Builds(cfg, bucket, libs))
  }

  /** Steps that upload the folder's own index once when they succeed, and nothing else. */
  ghost predicate WritesIndexOnly(work: string -> Run) {
    forall folder ::
      && |work(folder).puts| == (if work(folder).outcome.Pass? then 1 else 0)
      && forall p :: p in work(folder).puts ==> p.key == StripLeadingSlash(folder) + IndexName
  }

  /** The build is such a step. */
  lemma BuildsWriteIndexOnly(cfg: Config, bucket: Bucket, libs: Libraries)
    ensures WritesIndexOnly(Builds(cfg, bucket, libs))
  {
    var work := Builds(cfg, bucket, libs);
    forall folder
      ensures |work(folder).puts| == (if work(folder).outcome.Pass? then 1 else 0)
      ensures forall p :: p in work(folder).puts ==> p.key == StripLeadingSlash(folder) + IndexName
    {
      BuildSpecPuts(folder, cfg, bucket, libs);
    }
  }

  /**
   * Every upload of a run of such steps is the index of one of its folders,
   * and there is at most one per folder.
   */
  lemma BuildsPuts(folders: seq<string>, work: string -> Run)
    requires WritesIndexOnly(work)
    ensures var r := Sequence(folders, work);
      && |r.puts| <= |folders|
      && forall p :: p in r.puts ==> exists a :: a in folders && p.key == StripLeadingSlash(a) + IndexName
  {
    SequenceAtMostOne(folders, work);
    SequencePuts(folders, work);
    forall p | p in Sequence(folders, work).puts
      ensures exists a :: a in folders && p.key == StripLeadingSlash(a) + IndexName
    {
      var j :| 0 <= j < |folders| && p in work(folders[j]).puts;
      assert folders[j] in folders;
    }
  }

  /** A run of such steps that succeeds has written the index of every one of its folders. */
  lemma BuildsCover(folders: seq<string>, j: nat, work: string -> Run)
    requires WritesIndexOnly(work)
    requires j < |folders|
    requires Sequence(folders, work).outcome.Pass?
    ensures exists p :: p in Sequence(folders, work).puts && p.key == StripLeadingSlash(folders[j]) + IndexName
  {
    var r := work(folders[j]);
    if r.outcome.Pass? {
      assert r.puts[0] in r.puts;
    }
    SequenceCovers(folders, j, work, StripLeadingSlash(folders[j]) + IndexName);
  }

  /** A batch that succeeds has rebuilt the index of every ancestor folder. */
  lemma BatchCovers(folder: string, a: string, cfg: Config, bucket: Bucket, libs: Libraries)
    requires BatchSpec(folder, cfg, bucket, libs).outcome.Pass?
    requires a in AncestorFolders(folder)
    ensures exists p :: p in BatchSpec(folder, cfg, bucket, libs).puts && p.key == StripLeadingSlash(a) + IndexName
  {
    var folders := AncestorFolders(folder);
    var j :| 0 <= j < |folders| && folders[j] == a;
    BuildsWriteIndexOnly(cfg, bucket, libs);
    BuildsCover(folders, j, Builds(cfg, bucket, libs));
  }

  /** A run of such steps over the ancestor folders that succeeds has written the root index. */
  lemma RootCover(folder: string, work: string -> Run)
    requires WritesIndexOnly(work)
    requires Sequence(AncestorFolders(folder), work).outcome.Pass?
    ensures exists p :: p in Sequence(AncestorFolders(folder), work).puts && p.key == IndexName
  {
    RootIndexKey(folder);
    BuildsCover(AncestorFolders(folder), 0, work);
  }

  /** The first folder of a batch is the root, whose index is stored at the top of the bucket. */
  lemma RootIndexKey(folder: string)
    ensures StripLeadingSlash(AncestorFolders(folder)[0]) + IndexName == IndexName
  {
    AncestorFolder(folder, 0);
    assert StripLeadingSlash("/") == "";
    assert "" + IndexName == IndexName;
  }

  /** Such a run over the ancestors of a directory that succeeds has written the directory's own index. */
  lemma OwnCover(folder: string, work: string -> Run)
    requires WritesIndexOnly(work)
    requires EndsWith(folder, "/")
    requires Sequence(AncestorFolders(folder), work).outcome.Pass?
    ensures exists p :: p in Sequence(AncestorFolders(folder), work).puts && p.key == StripLeadingSlash(folder) + IndexName
  {
    LastAncestorIsFolder(folder);
    BuildsCover(AncestorFolders(folder), |AncestorFolders(folder)| - 1, work);
  }

  /**
   * A batch that succeeds has rebuilt the root index and, for a directory,
   * the directory's own index; it writes nothing but indexes of ancestors.
   */
  lemma BatchIndexes(folder: string, cfg: Config, bucket: Bucket, libs: Libraries)
    ensures var r := BatchSpec(folder, cfg, bucket, libs);
      forall p :: p in r.puts ==> exists a :: a in AncestorFolders(folder) && p.key == StripLeadingSlash(a) + IndexName
    ensures var r := BatchSpec(folder, cfg, bucket, libs);
      r.outcome.Pass? ==> exists p :: p in r.puts && p.key == IndexName
    ensures var r := BatchSpec(folder, cfg, bucket, libs);
      r.outcome.Pass? && EndsWith(folder, "/") ==>
        exists p :: p in r.puts && p.key == StripLeadingSlash(folder) + IndexName
  {
    var work := Builds(cfg, bucket, libs);
    BuildsWriteIndexOnly(cfg, bucket, libs);
    BuildsPuts(AncestorFolders(folder), work);
    if Sequence(AncestorFolders(folder), work).outcome.Pass? {
      RootCover(folder, work);
      if EndsWith(folder, "/") {
        OwnCover(folder, work);
      }
    }
  }

  /** The batch loop: one build per ancestor folder, from the root down, stopping at the first failure. */
  method RunBatch(folder: string, cfg: Config, bucket: Bucket, libs: Libraries) returns (run: Run)
    ensures run == BatchSpec(folder, cfg, bucket, libs)
  {
    var folders := AncestorFolders(folder);
    ghost var work := Builds(cfg, bucket, libs);
    run := Done;
    var i := 0;
    while i < |folders|
      invariant 0 <= i <= |folders|
      invariant run == Sequence(folders[..i], work)
      invariant run.outcome.Pass?
    {
      var built := Build(folders[i], cfg, bucket, libs);
      SequenceSnoc(folders, i, work);
      run := Then(run, built);
      if run.outcome.Fail? {
        SequenceStops(folders, i + 1, work);
        return;
      }
      i := i + 1;
    }
    assert folders[..i] == folders;
  }
}
