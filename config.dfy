/**
 * The process-wide configuration of the indexing Lambda, read once from the
 * environment variables LANGUAGES, STORAGECLASS and EXCLUDES. An unset
 * variable and an empty one are the same here, as JavaScript's `||` treats
 * both as falsy.
 */
module Config {
  import opened Strings

  /** Name of the directory-index artifact, always excluded from listings. */
  const IndexName := "index.partial"

  /** The storage class used when none is configured. */
  const DefaultStorageClass := "STANDARD"

  datatype Config = Config(
    languages: seq<string>,  // highlightable extensions, without the dot
    storageClass: string,    // storage class of generated artifacts
    excludes: seq<string>)   // base names left out of listings

  /**
   * The configuration for the given variable values: LANGUAGES and EXCLUDES are
   * colon-separated lists, and EXCLUDES always ends with the index name.
   */
  function Load(languages: string, storageClass: string, excludes: string): (c: Config)
    ensures Join(c.languages, ":") == languages
    ensures forall i :: 0 <= i < |c.languages| ==> ':' !in c.languages[i]
    ensures c.storageClass != ""
    ensures storageClass != "" ==> c.storageClass == storageClass
    ensures storageClass == "" ==> c.storageClass == DefaultStorageClass
    ensures |c.excludes| >= 2 && c.excludes[|c.excludes| - 1] == IndexName
    ensures Join(c.excludes[..|c.excludes| - 1], ":") == excludes
    ensures forall i :: 0 <= i < |c.excludes| - 1 ==> ':' !in c.excludes[i]
  {
    JoinSplit(languages, ':');
    JoinSplit(excludes, ':');
    var ex := Split(excludes, ':') + [IndexName];
    assert ex[..|ex| - 1] == Split(excludes, ':');
    Config(
      Split(languages, ':'),
      if storageClass == "" then DefaultStorageClass else storageClass,
      ex)
  }

  /**
   * With no variable set, only extensionless keys are highlightable, artifacts
   * are STANDARD and the empty name and the index name are excluded.
   */
  lemma LoadDefaults()
    ensures Load("", "", "") == Config([""], DefaultStorageClass, ["", IndexName])
  {
  }
}
