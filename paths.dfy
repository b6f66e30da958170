/**
 * Path arithmetic of the indexing Lambda: Node's POSIX `path.basename` and
 * `path.extname`, the directory of an object key computed by the regular
 * expression replacement at lambda/functions/index.js:67, and the removal of a
 * leading slash from a folder at lambda/functions/index.js:148.
 */
module Paths {
  import opened Strings

  /** Index of the last `c` in `s`, or -1 when there is none. */
  function LastIndexOf(s: string, c: char): (i: int)
    ensures -1 <= i < |s|
    ensures i >= 0 ==> s[i] == c
    ensures forall j :: i < j < |s| ==> s[j] != c
  {
    if s == [] then -1
    else if s[|s| - 1] == c then |s| - 1
    else LastIndexOf(s[..|s| - 1], c)
  }

  function StripTrailingSlashes(p: string): (r: string)
    ensures StartsWith(p, r)
    ensures r == [] || r[|r| - 1] != '/'
    ensures forall i :: |r| <= i < |p| ==> p[i] == '/'
  {
    if p != [] && p[|p| - 1] == '/' then StripTrailingSlashes(p[..|p| - 1]) else p
  }

  /**
   * `path.basename(p)`: the last component of `p` once trailing slashes are
   * removed ("a/b/" gives "b", "/" gives "").
   */
  function Basename(p: string): (r: string)
    ensures '/' !in r
    ensures r == [] || r[|r| - 1] != '/'
  {
    LastComponent(StripTrailingSlashes(p))
  }

  /**
   * The base name ends the path once trailing slashes are removed, and it is
   * either all of that or preceded there by a slash.
   */
  lemma BasenameOf(p: string)
    ensures var q := StripTrailingSlashes(p);
      && EndsWith(q, Basename(p))
      && (|Basename(p)| < |q| ==> q[|q| - |Basename(p)| - 1] == '/')
  {
    LastComponentAfterSlash(StripTrailingSlashes(p));
  }

  /** The last component is all of `q` or comes right after a slash. */
  lemma {:induction false} LastComponentAfterSlash(q: string)
    ensures var r := LastComponent(q); |r| < |q| ==> q[|q| - |r| - 1] == '/'
  {
    if q != [] && q[|q| - 1] != '/' {
      LastComponentAfterSlash(q[..|q| - 1]);
    }
  }

  /** The characters of `q` after its last slash. */
  function LastComponent(q: string): (r: string)
    ensures '/' !in r
    ensures EndsWith(q, r)
    ensures r == [] || r[|r| - 1] == q[|q| - 1]
  {
    if q == [] || q[|q| - 1] == '/' then []
    else
      var init := q[..|q| - 1];
      var r := LastComponent(init);
      assert q[|q| - |r| - 1..] == init[|init| - |r|..] + [q[|q| - 1]];
      r + [q[|q| - 1]]
  }

  /**
   * `path.extname(p)`: the base name from its last dot to its end. It is empty
   * when the base name has no dot, when its last dot is its first character
   * (".bashrc") and when the base name is "..".
   */
  function Extname(p: string): (r: string)
    ensures r == [] || r[0] == '.'
    ensures EndsWith(Basename(p), r)
    ensures r != [] ==> '.' !in r[1..]
  {
    var b := Basename(p);
    var d := LastIndexOf(b, '.');
    if d <= 0 || b == ".." then "" else LastDotSuffix(b, d); b[d..]
  }

  /** The end of `b` from its last dot is a suffix with no further dot. */
  lemma LastDotSuffix(b: string, d: int)
    requires 0 <= d < |b| && b[d] == '.'
    requires forall j :: d < j < |b| ==> b[j] != '.'
    ensures EndsWith(b, b[d..]) && '.' !in b[d..][1..]
  {
    assert b[d..][1..] == b[d + 1..];
  }

  /**
   * The extension is non-empty exactly when the base name is not ".." and has
   * a dot after its first character; it then runs from the last such dot.
   */
  lemma ExtnameNonEmpty(p: string)
    ensures var b := Basename(p);
      Extname(p) != [] <==> b != ".." && exists i :: 0 < i < |b| && b[i] == '.'
  {
    var b := Basename(p);
    assert Extname(p) != [] <==> LastIndexOf(b, '.') > 0 && b != "..";
    LastDotPositive(b);
  }

  /** The last dot is after the first character iff some dot is. */
  lemma LastDotPositive(b: string)
    ensures LastIndexOf(b, '.') > 0 <==> exists i :: 0 < i < |b| && b[i] == '.'
  {
    var d := LastIndexOf(b, '.');
    if exists i :: 0 < i < |b| && b[i] == '.' {
      var i :| 0 < i < |b| && b[i] == '.';
      assert d >= i;
    }
  }

  /** `path.extname(p).replace('.', '')`: the extension without its dot. */
  function Extension(p: string): (r: string)
    ensures '.' !in r && '/' !in r
    ensures r != [] ==> EndsWith(Basename(p), "." + r)
    ensures Extname(p) == [] ==> r == []
    ensures Extname(p) != [] ==> "." + r == Extname(p)
  {
    var e := Extname(p);
    if e == [] then []
    else
      DottedSuffix(Basename(p), e);
      e[1..]
  }

  /** A suffix of a slash-free name that starts with its only dot, split at that dot. */
  lemma DottedSuffix(b: string, e: string)
    requires EndsWith(b, e) && e != [] && e[0] == '.' && '.' !in e[1..]
    requires '/' !in b
    ensures '.' !in e[1..] && '/' !in e[1..]
    ensures "." + e[1..] == e
  {
    assert forall i :: 0 <= i < |e| ==> e[i] == b[|b| - |e| + i];
    assert "." + e[1..] == e;
  }

  /** Length of the first line of `s`: the index of its first line terminator, or `|s|`. */
  function FirstLineLength(s: string): (n: nat)
    ensures n <= |s|
    ensures forall i :: 0 <= i < n ==> !IsLineTerminator(s[i])
    ensures n < |s| ==> IsLineTerminator(s[n])
  {
    if s == [] || IsLineTerminator(s[0]) then 0 else 1 + FirstLineLength(s[1..])
  }

  /**
   * `key.replace(/(.*)\/(.*)|(.*)/, '$1/')`. The match starts at index 0 and,
   * since `.` stops at a line terminator, covers only the first line: when that
   * line has a slash it is cut after its last slash, otherwise it becomes "/".
   * The rest of the key, from the first line terminator on, is kept.
   */
  function Directory(key: string): (d: string)
    ensures '/' in d
    ensures (forall i :: 0 <= i < |key| ==> !IsLineTerminator(key[i])) ==>
              && EndsWith(d, "/")
              && ('/' in key ==> StartsWith(key, d) && '/' !in key[|d|..])
              && ('/' !in key ==> d == "/")
  {
    var n := FirstLineLength(key);
    var line := key[..n];
    var slash := LastIndexOf(line, '/');
    assert slash >= 0 ==> line[slash] == '/';
    var head := if slash < 0 then "/" else line[..slash + 1];
    assert head[|head| - 1] == '/';
    head + key[n..]
  }

  /** `folder.replace(/^\//, '')`: one leading slash removed. */
  function StripLeadingSlash(folder: string): (r: string)
    ensures r == folder || "/" + r == folder
    ensures StartsWith(folder, "/") ==> "/" + r == folder
  {
    if StartsWith(folder, "/") then folder[1..] else folder
  }
}
