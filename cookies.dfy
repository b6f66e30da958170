/**
 * `CookieStorage` (src/CookieStorage.js): the Web Storage interface
 * (`getItem`, `setItem`, `removeItem`, `clear`) over `document.cookie`.
 *
 * Reading `document.cookie` gives a `name=value; name=value` string that
 * `toObject` parses into a plain object; writing assigns one Set-Cookie
 * string, which the browser merges into its cookie jar. Here the string a
 * read returns is the field `cookie`, and every assignment is appended to the
 * field `written`; how the browser merges an assignment is not modelled, so
 * a write leaves `cookie` as it was.
 *
 * A plain object is the sequence of its own properties in insertion order.
 */
module Cookies {
  import opened Strings

  /** One own property of a plain object. */
  datatype Entry = Entry(key: string, value: string)

  /** The key whose assignment on a plain object goes to the prototype setter, which ignores a string. */
  const ProtoKey := "__proto__"

  const DefaultPath := "/"
  const DefaultSameSite := "strict"
  /** One hour, in seconds. */
  const DefaultMaxAge := 3600

  /** `given || fallback` for a string argument: undefined and '' are falsy. */
  function StringOr(given: Option<string>, fallback: string): (r: string)
    ensures given.Some? && given.value != "" ==> r == given.value
    ensures given.None? || given.value == "" ==> r == fallback
  {
    if given.Some? && given.value != "" then given.value else fallback
  }

  /** `given || fallback` for an integer argument: undefined and 0 are falsy. */
  function IntOr(given: Option<int>, fallback: int): (r: int)
    ensures given.Some? && given.value != 0 ==> r == given.value
    ensures given.None? || given.value == 0 ==> r == fallback
  {
    if given.Some? && given.value != 0 then given.value else fallback
  }

  /** Every setting falls back to its default exactly when the argument is missing or falsy. */
  lemma SettingsDefaults(path: Option<string>, maxAge: Option<int>, sameSite: Option<string>)
    ensures StringOr(path, DefaultPath) != ""
    ensures StringOr(sameSite, DefaultSameSite) != ""
    ensures IntOr(maxAge, DefaultMaxAge) != 0
    ensures StringOr(None, DefaultPath) == "/" && IntOr(None, DefaultMaxAge) == 3600
    ensures StringOr(None, DefaultSameSite) == "strict"
  {
  }

  // ---------------------------------------------------------------------------
  // Plain objects

  /** No key occurs twice. */
  predicate DistinctKeys(es: seq<Entry>) {
    forall i, j :: 0 <= i < j < |es| ==> es[i].key != es[j].key
  }

  /** Position of `key` among the properties, or -1. */
  function IndexOf(es: seq<Entry>, key: string): (i: int)
    ensures -1 <= i < |es|
    ensures i >= 0 ==> es[i].key == key
    ensures i < 0 ==> forall j :: 0 <= j < |es| ==> es[j].key != key
  {
    if es == [] then -1
    else if es[|es| - 1].key == key then |es| - 1
    else IndexOf(es[..|es| - 1], key)
  }

  /** `object[key]` for an own property: its value, or undefined. */
  function Lookup(es: seq<Entry>, key: string): Option<string> {
    var i := IndexOf(es, key);
    if i >= 0 then Some(es[i].value) else None
  }

  /**
   * `object[key] = value` on a plain object with a string value: an existing
   * property keeps its place and takes the new value, a new one goes last,
   * and `__proto__` changes nothing.
   */
  function Assign(es: seq<Entry>, key: string, value: string): seq<Entry> {
    if key == ProtoKey then es
    else
      var i := IndexOf(es, key);
      if i >= 0 then es[i := Entry(key, value)] else es + [Entry(key, value)]
  }

  /** The position of a key depends on the keys alone. */
  lemma {:induction false} IndexOfKeys(a: seq<Entry>, b: seq<Entry>, k: string)
    requires |a| == |b|
    requires forall i :: 0 <= i < |a| ==> a[i].key == b[i].key
    ensures IndexOf(a, k) == IndexOf(b, k)
  {
    var n := |a|;
    if n > 0 && a[n - 1].key != k {
      IndexOfKeys(a[..n - 1], b[..n - 1], k);
    }
  }

  lemma IndexOfUpdate(es: seq<Entry>, i: nat, value: string, k: string)
    requires i < |es|
    ensures IndexOf(es[i := Entry(es[i].key, value)], k) == IndexOf(es, k)
  {
    IndexOfKeys(es[i := Entry(es[i].key, value)], es, k);
  }

  lemma IndexOfAppend(es: seq<Entry>, e: Entry, k: string)
    ensures IndexOf(es + [e], k) == if e.key == k then |es| else IndexOf(es, k)
  {
    assert (es + [e])[..|es|] == es;
  }

  /** After an assignment the key reads the new value, unless it is `__proto__`, and every other key reads as before. */
  lemma AssignLookup(es: seq<Entry>, key: string, value: string, k: string)
    ensures Lookup(Assign(es, key, value), k)
         == if k == key && key != ProtoKey then Some(value) else Lookup(es, k)
  {
    if key != ProtoKey {
      var i := IndexOf(es, key);
      if i >= 0 {
        IndexOfUpdate(es, i, value, k);
      } else {
        IndexOfAppend(es, Entry(key, value), k);
      }
    }
  }

  /** An assignment keeps the keys distinct and `__proto__` out of the own keys. */
  lemma AssignKeys(es: seq<Entry>, key: string, value: string)
    requires DistinctKeys(es)
    ensures DistinctKeys(Assign(es, key, value))
    ensures forall j :: 0 <= j < |Assign(es, key, value)| ==>
      Assign(es, key, value)[j].key == key || Assign(es, key, value)[j] in es
  {
  }

  // ---------------------------------------------------------------------------
  // toObject

  /** `pair[0].trim()` for `pair = piece.split('=')`. */
  function KeyOf(piece: string): string {
    Trim(Split(piece, '=')[0])
  }

  /** `(pair[1] || '').trim()`: the text between the first and the second '=', or '' without one. */
  function ValueOf(piece: string): string {
    var pair := Split(piece, '=');
    if |pair| >= 2 then Trim(pair[1]) else ""
  }

  /** The property one `;`-piece assigns. */
  function PieceEntry(piece: string): Entry {
    Entry(KeyOf(piece), ValueOf(piece))
  }

  /** `PieceEntry` as a value, so that the parse below can be reasoned about piece by piece. */
  function ReadPiece(): string -> Entry {
    piece => PieceEntry(piece)
  }

  lemma ReadPieceOf(piece: string)
    ensures ReadPiece()(piece) == Entry(KeyOf(piece), ValueOf(piece))
  {
  }

  /** The object the parsing loop builds from the pieces, one assignment of `read(piece)` per piece. */
  function Parsed(pieces: seq<string>, read: string -> Entry): seq<Entry> {
    if pieces == [] then []
    else
      var e := read(pieces[|pieces| - 1]);
      Assign(Parsed(pieces[..|pieces| - 1], read), e.key, e.value)
  }

  /** Parsing one more piece is one more assignment. */
  lemma ParsedSnoc(pieces: seq<string>, i: nat, read: string -> Entry)
    requires i < |pieces|
    ensures Parsed(pieces[..i + 1], read)
         == Assign(Parsed(pieces[..i], read), read(pieces[i]).key, read(pieces[i]).value)
  {
    assert pieces[..i + 1][..i] == pieces[..i];
  }

  /** `toObject()` on the cookie string `s`: the empty string gives an empty object. */
  function ParseCookie(s: string): seq<Entry> {
    if |s| == 0 then [] else Parsed(Split(s, ';'), ReadPiece())
  }

  /**
   * A key reads a value exactly when some piece carries it and it is not
   * `__proto__`; the value is that of the last such piece.
   */
  lemma ParsedLookup(pieces: seq<string>, read: string -> Entry, k: string)
    ensures Lookup(Parsed(pieces, read), k).None? <==>
      k == ProtoKey || forall i :: 0 <= i < |pieces| ==> read(pieces[i]).key != k
    ensures Lookup(Parsed(pieces, read), k).Some? ==>
      exists i :: 0 <= i < |pieces| && read(pieces[i]) == Entry(k, Lookup(Parsed(pieces, read), k).value)
                  && forall j :: i < j < |pieces| ==> read(pieces[j]).key != k
  {
    ParsedAbsent(pieces, read, k);
    ParsedLast(pieces, read, k);
  }

  lemma {:induction false} ParsedAbsent(pieces: seq<string>, read: string -> Entry, k: string)
    ensures Lookup(Parsed(pieces, read), k).None? <==>
      k == ProtoKey || forall i :: 0 <= i < |pieces| ==> read(pieces[i]).key != k
  {
    if pieces != [] {
      var n := |pieces|;
      var init := pieces[..n - 1];
      var last := read(pieces[n - 1]);
      ParsedAbsent(init, read, k);
      AssignLookup(Parsed(init, read), last.key, last.value, k);
      assert forall i :: 0 <= i < n - 1 ==> init[i] == pieces[i];
    }
  }

  /** Some piece reads as `k` with value `v`, and no later piece reads as `k`. */
  ghost predicate LastWith(pieces: seq<string>, read: string -> Entry, k: string, v: string) {
    exists i :: 0 <= i < |pieces| && read(pieces[i]) == Entry(k, v)
                && forall j :: i < j < |pieces| ==> read(pieces[j]).key != k
  }

  /** A last piece with another key keeps the earlier last piece for `k`. */
  lemma LastWithSnoc(pieces: seq<string>, read: string -> Entry, k: string, v: string)
    requires pieces != []
    requires read(pieces[|pieces| - 1]).key != k
    requires LastWith(pieces[..|pieces| - 1], read, k, v)
    ensures LastWith(pieces, read, k, v)
  {
    var n := |pieces|;
    var init := pieces[..n - 1];
    var i :| 0 <= i < n - 1 && read(init[i]) == Entry(k, v)
             && forall j :: i < j < n - 1 ==> read(init[j]).key != k;
    assert forall j :: i < j < n - 1 ==> init[j] == pieces[j];
    assert init[i] == pieces[i];
  }

  lemma {:induction false} ParsedLast(pieces: seq<string>, read: string -> Entry, k: string)
    ensures Lookup(Parsed(pieces, read), k).Some? ==> LastWith(pieces, read, k, Lookup(Parsed(pieces, read), k).value)
  {
    if pieces != [] {
      var n := |pieces|;
      var init := pieces[..n - 1];
      var last := read(pieces[n - 1]);
      var found := Lookup(Parsed(pieces, read), k);
      AssignLookup(Parsed(init, read), last.key, last.value, k);
      if last.key == k && k != ProtoKey {
        assert read(pieces[n - 1]) == Entry(k, found.value);
      } else if found.Some? {
        ParsedAbsent(init, read, k);
        ParsedLast(init, read, k);
        LastWithSnoc(pieces, read, k, found.value);
      }
    }
  }

  /** The parsed object has distinct keys, none of them `__proto__`, each read from some piece. */
  lemma {:induction false} ParsedKeys(pieces: seq<string>, read: string -> Entry)
    ensures DistinctKeys(Parsed(pieces, read))
    ensures forall j :: 0 <= j < |Parsed(pieces, read)| ==> Parsed(pieces, read)[j].key != ProtoKey
    ensures forall j :: 0 <= j < |Parsed(pieces, read)| ==>
      exists i :: 0 <= i < |pieces| && Parsed(pieces, read)[j].key == read(pieces[i]).key
  {
    if pieces != [] {
      var n := |pieces|;
      var init := pieces[..n - 1];
      var last := read(pieces[n - 1]);
      ParsedKeys(init, read);
      AssignKeys(Parsed(init, read), last.key, last.value);
      var r := Parsed(pieces, read);
      forall j | 0 <= j < |r|
        ensures exists i :: 0 <= i < n && r[j].key == read(pieces[i]).key
      {
        if r[j].key == last.key {
          assert r[j].key == read(pieces[n - 1]).key;
        } else {
          var j' :| 0 <= j' < |Parsed(init, read)| && Parsed(init, read)[j'] == r[j];
          var i :| 0 <= i < n - 1 && Parsed(init, read)[j'].key == read(init[i]).key;
          assert init[i] == pieces[i];
        }
      }
    }
  }

  lemma {:induction false} ParseCookieNonEmpty(s: string)
    requires s != ""
    ensures ParseCookie(s) == Parsed(Split(s, ';'), ReadPiece())
  {
  }

  /** `getItem(k)` on a cookie string: undefined for the empty string; otherwise the last piece carrying `k` decides. */
  lemma CookieLookup(s: string, k: string)
    ensures s == "" ==> Lookup(ParseCookie(s), k) == None
    ensures s != "" ==> var pieces := Split(s, ';');
      && (Lookup(ParseCookie(s), k).None? <==> k == ProtoKey || forall i :: 0 <= i < |pieces| ==> KeyOf(pieces[i]) != k)
      && (Lookup(ParseCookie(s), k).Some? ==>
          exists i :: 0 <= i < |pieces| && KeyOf(pieces[i]) == k && ValueOf(pieces[i]) == Lookup(ParseCookie(s), k).value
                      && forall j :: i < j < |pieces| ==> KeyOf(pieces[j]) != k)
  {
    if s != "" {
      CookieAbsent(s, k);
      CookieLast(s, k);
    }
  }

  lemma {:induction false} CookieAbsent(s: string, k: string)
    requires s != ""
    ensures var pieces := Split(s, ';');
      Lookup(ParseCookie(s), k).None? <==> k == ProtoKey || forall i :: 0 <= i < |pieces| ==> KeyOf(pieces[i]) != k
  {
    var pieces := Split(s, ';');
    ParseCookieNonEmpty(s);
    ParsedAbsent(pieces, ReadPiece(), k);
    forall i | 0 <= i < |pieces|
      ensures ReadPiece()(pieces[i]).key == KeyOf(pieces[i])
    {
      ReadPieceOf(pieces[i]);
    }
  }

  lemma {:induction false} CookieLast(s: string, k: string)
    requires s != ""
    ensures var pieces := Split(s, ';');
      Lookup(ParseCookie(s), k).Some? ==>
        exists i :: 0 <= i < |pieces| && KeyOf(pieces[i]) == k && ValueOf(pieces[i]) == Lookup(ParseCookie(s), k).value
                    && forall j :: i < j < |pieces| ==> KeyOf(pieces[j]) != k
  {
    var pieces := Split(s, ';');
    ParseCookieNonEmpty(s);
    var found := Lookup(ParseCookie(s), k);
    if found.Some? {
      ParsedLast(pieces, ReadPiece(), k);
      var i :| 0 <= i < |pieces| && ReadPiece()(pieces[i]) == Entry(k, found.value)
               && forall j :: i < j < |pieces| ==> ReadPiece()(pieces[j]).key != k;
      forall j | i < j < |pieces|
        ensures KeyOf(pieces[j]) != k
      {
        ReadPieceOf(pieces[j]);
      }
      ReadPieceOf(pieces[i]);
    }
  }

  /** Parsing a string with no ';' and with no '=' gives one property: the whole trimmed string, with an empty value. */
  lemma ParseBareName(s: string)
    requires s != "" && ';' !in s && '=' !in s && Trim(s) != ProtoKey
    ensures ParseCookie(s) == [Entry(Trim(s), "")]
  {
    SplitNoSeparator(s, ';');
    SplitNoSeparator(s, '=');
    assert PieceEntry(s) == Entry(Trim(s), "");
    assert [s][..0] == [];
    assert Parsed([s][..0], ReadPiece()) == [];
  }

  // ---------------------------------------------------------------------------
  // toString

  /** `key + '=' + map[key]`. */
  function PairText(e: Entry): string {
    e.key + "=" + e.value
  }

  function Pairs(es: seq<Entry>): seq<string> {
    seq(|es|, i requires 0 <= i < |es| => PairText(es[i]))
  }

  /** The `flatten` string the `for…in` loop builds: every `key=value` followed by "; ". */
  function Flatten(es: seq<Entry>): string {
    if es == [] then "" else Flatten(es[..|es| - 1]) + PairText(es[|es| - 1]) + "; "
  }

  /**
   * `s.replace(/;\s$|\s$|;$/, '')`: the leftmost match wins, so a final ';'
   * and white space go together, and otherwise a final white space or ';' alone.
   */
  function StripTrailingSeparator(s: string): (r: string)
    ensures StartsWith(s, r) && |s| - 2 <= |r|
  {
    if |s| >= 2 && s[|s| - 2] == ';' && IsJsSpace(s[|s| - 1]) then s[..|s| - 2]
    else if |s| >= 1 && (IsJsSpace(s[|s| - 1]) || s[|s| - 1] == ';') then s[..|s| - 1]
    else s
  }

  /** `toString(map)`. */
  function Serialize(es: seq<Entry>): string {
    StripTrailingSeparator(Flatten(es))
  }

  lemma {:induction false} FlattenJoins(es: seq<Entry>)
    requires es != []
    ensures Flatten(es) == Join(Pairs(es), "; ") + "; "
  {
    var n := |es|;
    var init := es[..n - 1];
    if n == 1 {
      assert Flatten(init) == "";
      assert Pairs(es) == [PairText(es[0])];
    } else {
      FlattenJoins(init);
      assert Pairs(es)[..n - 1] == Pairs(init);
      assert Pairs(es)[n - 1..] == [PairText(es[n - 1])];
      JoinAt(Pairs(es), "; ", n - 1);
    }
  }

  /** `toString(map)` is the `key=value` pairs joined by "; ", with no separator after the last one. */
  lemma SerializeJoins(es: seq<Entry>)
    ensures Serialize(es) == Join(Pairs(es), "; ")
  {
    if es != [] {
      FlattenJoins(es);
      var t := Join(Pairs(es), "; ");
      assert (t + "; ")[..|t|] == t;
    }
  }

  /** Text the parser reads back unchanged as a key or a value. */
  predicate Plain(s: string) {
    ';' !in s && '=' !in s && IsTrimmed(s)
  }

  /** An object whose string form parses back to it. */
  predicate Serializable(es: seq<Entry>) {
    && DistinctKeys(es)
    && forall i :: 0 <= i < |es| ==> Plain(es[i].key) && Plain(es[i].value) && es[i].key != ProtoKey
  }

  /** The texts, every one but the first behind a space. */
  function Spaced(xs: seq<string>): seq<string> {
    seq(|xs|, i requires 0 <= i < |xs| => if i == 0 then xs[i] else " " + xs[i])
  }

  lemma SpacedCons(xs: seq<string>)
    requires |xs| >= 2
    ensures Spaced(xs) == [xs[0]] + ([" " + Spaced(xs[1..])[0]] + Spaced(xs[1..])[1..])
  {
  }

  /** A leading space stays with the first piece of a split on ';'. */
  lemma SplitLeadingSpace(t: string)
    ensures Split(" " + t, ';') == [" " + Split(t, ';')[0]] + Split(t, ';')[1..]
  {
    assert (" " + t)[1..] == t;
  }

  /** The pieces of a "; "-join of ';'-free texts: the first as it is, every later one behind a space. */
  lemma {:induction false} SplitSpacedJoin(xs: seq<string>)
    requires |xs| >= 1
    requires forall i :: 0 <= i < |xs| ==> ';' !in xs[i]
    ensures Split(Join(xs, "; "), ';') == Spaced(xs)
  {
    if |xs| == 1 {
      SplitNoSeparator(xs[0], ';');
    } else {
      var tail := Join(xs[1..], "; ");
      SplitSpacedJoin(xs[1..]);
      assert Join(xs, "; ") == xs[0] + [';'] + (" " + tail);
      SplitAfterPiece(xs[0], " " + tail, ';');
      SplitLeadingSpace(tail);
      SpacedCons(xs);
    }
  }

  /** A piece "key=value", with or without a leading space, yields that key and that value. */
  lemma PieceFields(e: Entry, lead: string)
    requires lead == "" || lead == " "
    requires Plain(e.key) && Plain(e.value)
    ensures KeyOf(lead + PairText(e)) == e.key
    ensures ValueOf(lead + PairText(e)) == e.value
  {
    var a := lead + e.key;
    assert '=' !in a;
    assert lead + PairText(e) == a + ['='] + e.value;
    SplitAfterPiece(a, e.value, '=');
    SplitNoSeparator(e.value, '=');
    TrimTrimmed(e.key);
    TrimTrimmed(e.value);
    if lead == " " {
      TrimLeadingSpace(' ', e.key);
      assert a == [' '] + e.key;
    } else {
      assert a == e.key;
    }
  }

  /** Parsing pieces that read as distinct keys gives one property per piece, in order. */
  lemma {:induction false} ParsedExact(pieces: seq<string>, read: string -> Entry, es: seq<Entry>)
    requires |pieces| == |es|
    requires forall i :: 0 <= i < |es| ==> read(pieces[i]) == es[i]
    requires DistinctKeys(es)
    requires forall i :: 0 <= i < |es| ==> es[i].key != ProtoKey
    ensures Parsed(pieces, read) == es
  {
    if pieces != [] {
      var n := |es|;
      ParsedExact(pieces[..n - 1], read, es[..n - 1]);
      assert IndexOf(es[..n - 1], es[n - 1].key) < 0;
      assert es[..n - 1] + [es[n - 1]] == es;
    }
  }

  /** Round trip: parsing the string form of an object gives the object back. */
  lemma RoundTrip(es: seq<Entry>)
    requires Serializable(es)
    ensures ParseCookie(Serialize(es)) == es
  {
    SerializeJoins(es);
    if es != [] {
      var xs := Pairs(es);
      var s := Join(xs, "; ");
      assert |s| > 0 by {
        if |xs| > 1 {
          assert s == xs[0] + "; " + Join(xs[1..], "; ");
        }
        assert |xs[0]| > 0;
      }
      SplitSpacedJoin(xs);
      var pieces := Split(s, ';');
      forall i | 0 <= i < |es|
        ensures ReadPiece()(pieces[i]) == es[i]
      {
        var lead := if i == 0 then "" else " ";
        assert pieces[i] == lead + PairText(es[i]);
        PieceFields(es[i], lead);
        assert PieceEntry(pieces[i]) == Entry(es[i].key, es[i].value);
      }
      ParsedExact(pieces, ReadPiece(), es);
    }
  }

  // ---------------------------------------------------------------------------
  // Assignments to document.cookie, and how a user agent reads them

  const Epoch := "Thu, 01 Jan 1970 00:00:00 GMT"

  /** `key + '=' + (value || '') + '; max-age=' + maxAge + '; path' + path`, as written. */
  function SetLineAsWritten(key: string, value: Option<string>, maxAge: int, path: string): string {
    key + "=" + StringOr(value, "") + "; max-age=" + IntString(maxAge) + "; path" + path
  }

  /** The assignment `setItem` evidently intends: the same with "; path=". */
  function SetLine(key: string, value: Option<string>, maxAge: int, path: string): string {
    key + "=" + StringOr(value, "") + "; max-age=" + IntString(maxAge) + "; path=" + path
  }

  /** `key + '=; expires=Thu, 01 Jan 1970 00:00:00 GMT ;path=' + path`. */
  function RemoveLine(key: string, path: string): string {
    key + "=; expires=" + Epoch + " ;path=" + path
  }

  /** WSP of RFC 5234: space and horizontal tab. */
  predicate IsWsp(ch: char) {
    ch == ' ' || ch == '\t'
  }

  /** Removal of leading and trailing WSP, as section 5.2 of RFC 6265 asks. */
  function TrimWsp(s: string): (r: string)
    ensures r == [] || (!IsWsp(r[0]) && !IsWsp(r[|r| - 1]))
    decreases |s|
  {
    if s != [] && IsWsp(s[0]) then TrimWsp(s[1..])
    else if s != [] && IsWsp(s[|s| - 1]) then TrimWsp(s[..|s| - 1])
    else s
  }

  /** The characters before the first `c`, or all of `s`. */
  function Before(s: string, c: char): (r: string)
    ensures StartsWith(s, r) && c !in r
    ensures |r| < |s| ==> s[|r|] == c
  {
    if s == [] || s[0] == c then [] else [s[0]] + Before(s[1..], c)
  }

  lemma {:induction false} BeforeSeparator(a: string, b: string, c: char)
    requires c !in a
    ensures Before(a + [c] + b, c) == a
  {
    if a != [] {
      assert (a + [c] + b)[1..] == a[1..] + [c] + b;
      BeforeSeparator(a[1..], b, c);
      assert [a[0]] + a[1..] == a;
    }
  }

  datatype Attribute = Attribute(name: string, value: string)

  /** A Set-Cookie string as a user agent reads it: the cookie's name and value and its attributes, in order. */
  datatype SetCookie = SetCookie(name: string, value: string, attributes: seq<Attribute>)

  /**
   * One cookie-av (section 5.2 of RFC 6265): the name is what comes before
   * the first '=' and the value what comes after it; with no '=' the whole
   * text is the name and the value is empty; both lose their surrounding WSP.
   */
  function ParseAttribute(av: string): Attribute {
    var name := Before(av, '=');
    if |name| < |av| then Attribute(TrimWsp(name), TrimWsp(av[|name| + 1..]))
    else Attribute(TrimWsp(av), "")
  }

  function Attributes(avs: seq<string>): seq<Attribute> {
    seq(|avs|, i requires 0 <= i < |avs| => ParseAttribute(avs[i]))
  }

  /**
   * A set-cookie-string (section 5.2 of RFC 6265), cut at every ';': the
   * first piece is the name-value pair, ignored as a whole when it has no '='
   * or an empty name; every later piece is one cookie-av.
   */
  function ParseParts(parts: seq<string>): Option<SetCookie>
    requires |parts| >= 1
  {
    var pair := parts[0];
    var name := Before(pair, '=');
    if |name| == |pair| || TrimWsp(name) == "" then None
    else Some(SetCookie(TrimWsp(name), TrimWsp(pair[|name| + 1..]), Attributes(parts[1..])))
  }

  /** What a user agent reads from one assignment to `document.cookie`. */
  function ParseSetCookie(line: string): Option<SetCookie> {
    ParseParts(Split(line, ';'))
  }

  /** ASCII lower case, for the case-insensitive match of attribute names. */
  function Lower(s: string): (r: string)
    ensures |r| == |s|
  {
    if s == [] then []
    else [if 'A' <= s[0] <= 'Z' then (s[0] as int + 32) as char else s[0]] + Lower(s[1..])
  }

  /**
   * The cookie path (sections 5.2.4 and 5.3 of RFC 6265): the last Path
   * attribute decides; a value that does not start with '/' means the
   * default path, and so does having no Path attribute (None).
   */
  function PathOf(attributes: seq<Attribute>): (r: Option<string>)
    ensures r.Some? ==> exists i :: 0 <= i < |attributes| && Lower(attributes[i].name) == "path" && attributes[i].value == r.value
    ensures (forall i :: 0 <= i < |attributes| ==> Lower(attributes[i].name) != "path") ==> r.None?
  {
    if attributes == [] then None
    else
      var last := attributes[|attributes| - 1];
      if Lower(last.name) == "path" then
        if last.value != "" && last.value[0] == '/' then Some(last.value) else None
      else PathOf(attributes[..|attributes| - 1])
  }

  lemma TrimWspTrimmed(s: string)
    requires s == [] || (!IsWsp(s[0]) && !IsWsp(s[|s| - 1]))
    ensures TrimWsp(s) == s
  {
  }

  lemma TrimWspLeading(s: string)
    requires s == [] || (!IsWsp(s[0]) && !IsWsp(s[|s| - 1]))
    ensures TrimWsp(" " + s) == s
  {
    assert (" " + s)[1..] == s;
  }

  /** Text that keeps its place through the Set-Cookie parse: no ';' and no WSP at either end. */
  predicate AttributeText(s: string) {
    ';' !in s && (s == [] || (!IsWsp(s[0]) && !IsWsp(s[|s| - 1])))
  }

  lemma IntStringText(i: int)
    ensures AttributeText(IntString(i)) && '=' !in IntString(i)
  {
    var d := Decimal(if i < 0 then -i else i);
    var s := IntString(i);
    var sign := if i < 0 then "-" else "";
    assert s == sign + d;
    assert ';' !in d && '=' !in d by {
      DigitsText(d);
    }
    assert ';' !in sign && '=' !in sign;
    assert !IsWsp(s[0]) by {
      if i >= 0 {
        assert s[0] == d[0];
      }
    }
    assert s[|s| - 1] == d[|d| - 1];
  }

  lemma DigitsText(d: string)
    requires forall k :: 0 <= k < |d| ==> '0' <= d[k] <= '9'
    ensures ';' !in d && '=' !in d
  {
    assert forall k :: 0 <= k < |d| ==> d[k] != ';' && d[k] != '=';
  }

  /** A line of three ';'-free pieces joined by ';' cuts back into those pieces. */
  lemma SplitThree(a: string, b: string, c: string)
    requires ';' !in a && ';' !in b && ';' !in c
    ensures Split(Line(a, b, c), ';') == [a, b, c]
  {
    assert Line(a, b, c) == a + [';'] + (b + [';'] + c);
    SplitAfterPiece(a, b + [';'] + c, ';');
    SplitAfterPiece(b, c, ';');
    SplitNoSeparator(c, ';');
  }

  lemma {:induction false} BeforeAbsent(s: string, c: char)
    requires c !in s
    ensures Before(s, c) == s
  {
    if s != [] {
      BeforeAbsent(s[1..], c);
      assert [s[0]] + s[1..] == s;
    }
  }

  /** A cookie-av `name=value` is read as that name and that value, without their surrounding WSP. */
  lemma ParseAttributeOf(name: string, value: string)
    requires '=' !in name
    ensures ParseAttribute(Av(name, value)) == Attribute(TrimWsp(name), TrimWsp(value))
  {
    var av := Av(name, value);
    assert av == name + ['='] + value;
    BeforeSeparator(name, value, '=');
    assert av[|name| + 1..] == value;
  }

  /** A name-value pair with a non-empty name, followed by cookie-avs, sets that cookie with those attributes. */
  lemma ParsePartsOf(name: string, value: string, avs: seq<string>)
    requires '=' !in name && TrimWsp(name) != ""
    ensures ParseParts([Av(name, value)] + avs) == Some(SetCookie(TrimWsp(name), TrimWsp(value), Attributes(avs)))
  {
    var pair := Av(name, value);
    assert pair == name + ['='] + value;
    BeforeSeparator(name, value, '=');
    assert pair[|name| + 1..] == value;
    assert ([pair] + avs)[1..] == avs;
  }

  /** `name=value`. */
  function Av(name: string, value: string): string {
    name + "=" + value
  }

  /** Three pieces joined by ';'. */
  function Line(a: string, b: string, c: string): string {
    a + ";" + b + ";" + c
  }

  /** A line of three ';'-free pieces is read as those three pieces. */
  lemma LineParts(a: string, b: string, c: string)
    requires ';' !in a && ';' !in b && ';' !in c
    ensures ParseSetCookie(Line(a, b, c)) == ParseParts([a, b, c])
  {
    SplitThree(a, b, c);
  }

  /** Pieces `name=value`, `b` and `c` set that cookie, with the attributes `b` and `c` read as. */
  lemma PartsOf(name: string, value: string, b: string, c: string, attrs: seq<Attribute>)
    requires '=' !in name && TrimWsp(name) != ""
    requires Attributes([b, c]) == attrs
    ensures ParseParts([Av(name, value), b, c]) == Some(SetCookie(TrimWsp(name), TrimWsp(value), attrs))
  {
    assert [Av(name, value), b, c] == [Av(name, value)] + [b, c];
    ParsePartsOf(name, value, [b, c]);
  }

  lemma AttributesOfTwo(b: string, c: string)
    ensures Attributes([b, c]) == [ParseAttribute(b), ParseAttribute(c)]
  {
    var attrs := Attributes([b, c]);
    assert attrs[0] == ParseAttribute(b);
    assert attrs[1] == ParseAttribute(c);
  }

  /** Two cookie-avs `name1=value1` and `name2=value2` are read as those two attributes. */
  lemma AttributesOf(name1: string, value1: string, name2: string, value2: string)
    requires '=' !in name1 && '=' !in name2
    ensures Attributes([Av(name1, value1), Av(name2, value2)])
         == [Attribute(TrimWsp(name1), TrimWsp(value1)), Attribute(TrimWsp(name2), TrimWsp(value2))]
  {
    AttributesOfTwo(Av(name1, value1), Av(name2, value2));
    ParseAttributeOf(name1, value1);
    ParseAttributeOf(name2, value2);
  }

  lemma TrimWspName(name: string)
    requires name != [] && !IsWsp(name[0]) && !IsWsp(name[|name| - 1])
    ensures TrimWsp(" " + name) == name
  {
    assert (" " + name)[1..] == name;
  }

  /** The attribute names the storage writes, as the user agent reads them. */
  lemma AttributeNames()
    ensures TrimWsp(" max-age") == "max-age" && TrimWsp(" expires") == "expires"
    ensures TrimWsp(" path") == "path" && TrimWsp("path") == "path" && TrimWsp(" path/") == "path/"
  {
    TrimWspName("max-age");
    TrimWspName("expires");
    TrimWspName("path");
    TrimWspName("path/");
  }

  /** The last attribute, when it is a Path attribute with a value starting with '/', gives the cookie path. */
  lemma PathOfLast(attributes: seq<Attribute>, path: string)
    requires attributes != [] && attributes[|attributes| - 1] == Attribute("path", path)
    requires path != "" && path[0] == '/'
    ensures PathOf(attributes) == Some(path)
  {
    assert Lower("path") == "path";
  }

  /** The pieces of the corrected `setItem` line. */
  lemma SetLineShape(key: string, value: Option<string>, maxAge: int, path: string)
    ensures SetLine(key, value, maxAge, path)
         == Line(Av(key, StringOr(value, "")), Av(" max-age", IntString(maxAge)), Av(" path", path))
  {
  }

  /**
   * The corrected `setItem` line sets the cookie `key` with its value, a
   * Max-Age of `maxAge` and a Path of `path`.
   */
  lemma SetLineParses(key: string, value: Option<string>, maxAge: int, path: string)
    requires ';' !in key && '=' !in key && TrimWsp(key) != ""
    requires ';' !in StringOr(value, "")
    requires AttributeText(path) && path != "" && path[0] == '/'
    ensures var sc := ParseSetCookie(SetLine(key, value, maxAge, path));
      && sc == Some(SetCookie(TrimWsp(key), TrimWsp(StringOr(value, "")),
                              [Attribute("max-age", IntString(maxAge)), Attribute("path", path)]))
      && PathOf(sc.value.attributes) == Some(path)
  {
    var n := IntString(maxAge);
    var attrs := [Attribute("max-age", n), Attribute("path", path)];
    SetLineSplits(key, value, maxAge, path);
    SetLineAttributes(maxAge, path);
    PartsOf(key, StringOr(value, ""), Av(" max-age", n), Av(" path", path), attrs);
    PathOfLast(attrs, path);
  }

  /** The corrected `setItem` line is cut into its pair and two cookie-avs. */
  lemma SetLineSplits(key: string, value: Option<string>, maxAge: int, path: string)
    requires ';' !in key && ';' !in StringOr(value, "") && ';' !in path
    ensures ParseSetCookie(SetLine(key, value, maxAge, path))
         == ParseParts([Av(key, StringOr(value, "")), Av(" max-age", IntString(maxAge)), Av(" path", path)])
  {
    var pair := Av(key, StringOr(value, ""));
    var b := Av(" max-age", IntString(maxAge));
    var c := Av(" path", path);
    assert ';' !in pair && ';' !in c;
    assert ';' !in b by {
      IntStringText(maxAge);
    }
    SetLineShape(key, value, maxAge, path);
    LineParts(pair, b, c);
  }

  /** The cookie-avs of the corrected `setItem` line are a Max-Age and a Path attribute. */
  lemma SetLineAttributes(maxAge: int, path: string)
    requires AttributeText(path)
    ensures Attributes([Av(" max-age", IntString(maxAge)), Av(" path", path)])
         == [Attribute("max-age", IntString(maxAge)), Attribute("path", path)]
  {
    var n := IntString(maxAge);
    assert TrimWsp(n) == n by {
      IntStringText(maxAge);
      TrimWspTrimmed(n);
    }
    assert TrimWsp(path) == path by {
      TrimWspTrimmed(path);
    }
    AttributesOf(" max-age", n, " path", path);
    AttributeNames();
  }

  /** The pieces of the `setItem` line as written: the last one is " path" glued to the path. */
  lemma SetLineAsWrittenShape(key: string, value: Option<string>, maxAge: int, path: string)
    ensures SetLineAsWritten(key, value, maxAge, path)
         == Line(Av(key, StringOr(value, "")), Av(" max-age", IntString(maxAge)), " path" + path)
  {
  }

  lemma NotPath(name: string)
    requires |name| != 4
    ensures Lower(name) != "path"
  {
  }

  /**
   * The `setItem` line as written, for any non-empty path (the default "/"
   * included): the user agent reads an attribute named "path" followed by the
   * path, such as "path/", rather than a Path attribute, so the cookie gets the
   * default path of the page that set it.
   */
  lemma SetLineAsWrittenLosesPath(key: string, value: Option<string>, maxAge: int, path: string)
    requires ';' !in key && '=' !in key && TrimWsp(key) != ""
    requires ';' !in StringOr(value, "")
    requires AttributeText(path) && '=' !in path && path != ""
    ensures var sc := ParseSetCookie(SetLineAsWritten(key, value, maxAge, path));
      && sc == Some(SetCookie(TrimWsp(key), TrimWsp(StringOr(value, "")),
                              [Attribute("max-age", IntString(maxAge)), Attribute("path" + path, "")]))
      && PathOf(sc.value.attributes) == None
  {
    var n := IntString(maxAge);
    var attrs := [Attribute("max-age", n), Attribute("path" + path, "")];
    AsWrittenSplits(key, value, maxAge, path);
    AsWrittenAttributeList(maxAge, path);
    PartsOf(key, StringOr(value, ""), Av(" max-age", n), " path" + path, attrs);
    AsWrittenNoPath(n, path);
  }

  /** Neither "max-age" nor "path" followed by a non-empty path names a Path attribute. */
  lemma AsWrittenNoPath(n: string, path: string)
    requires path != ""
    ensures PathOf([Attribute("max-age", n), Attribute("path" + path, "")]) == None
  {
    var attrs := [Attribute("max-age", n), Attribute("path" + path, "")];
    forall i | 0 <= i < |attrs|
      ensures Lower(attrs[i].name) != "path"
    {
      NotPath(attrs[i].name);
    }
  }

  /** The as-written `setItem` line is cut into its pair and two cookie-avs. */
  lemma AsWrittenSplits(key: string, value: Option<string>, maxAge: int, path: string)
    requires ';' !in key && ';' !in StringOr(value, "") && ';' !in path
    ensures ParseSetCookie(SetLineAsWritten(key, value, maxAge, path))
         == ParseParts([Av(key, StringOr(value, "")), Av(" max-age", IntString(maxAge)), " path" + path])
  {
    var pair := Av(key, StringOr(value, ""));
    var b := Av(" max-age", IntString(maxAge));
    var c := " path" + path;
    assert ';' !in pair && ';' !in c;
    assert ';' !in b by {
      IntStringText(maxAge);
    }
    SetLineAsWrittenShape(key, value, maxAge, path);
    LineParts(pair, b, c);
  }

  /** The second cookie-av of the as-written line has no '=', so all of it is the attribute's name. */
  lemma AsWrittenAttributeList(maxAge: int, path: string)
    requires AttributeText(path) && '=' !in path
    ensures Attributes([Av(" max-age", IntString(maxAge)), " path" + path])
         == [Attribute("max-age", IntString(maxAge)), Attribute("path" + path, "")]
  {
    var n := IntString(maxAge);
    AttributesOfTwo(Av(" max-age", n), " path" + path);
    MaxAgeAttribute(maxAge);
    BareAttribute(path);
  }

  /** The Max-Age cookie-av reads as a Max-Age attribute carrying the decimal text. */
  lemma MaxAgeAttribute(maxAge: int)
    ensures ParseAttribute(Av(" max-age", IntString(maxAge))) == Attribute("max-age", IntString(maxAge))
  {
    var n := IntString(maxAge);
    ParseAttributeOf(" max-age", n);
    AttributeNames();
    IntStringText(maxAge);
    TrimWspTrimmed(n);
  }

  /** " path" glued to a path with no '=' reads as a valueless attribute of that name. */
  lemma BareAttribute(path: string)
    requires AttributeText(path) && '=' !in path
    ensures ParseAttribute(" path" + path) == Attribute("path" + path, "")
  {
    var name := "path" + path;
    assert " path" + path == " " + name;
    assert name[|name| - 1] == if path == "" then 'h' else path[|path| - 1];
    BeforeAbsent(" " + name, '=');
    TrimWspName(name);
  }

  /** The pieces of the `removeItem` line. */
  lemma RemoveLineShape(key: string, path: string)
    ensures RemoveLine(key, path) == Line(Av(key, ""), Av(" expires", Epoch + " "), Av("path", path))
  {
  }

  lemma EpochTrimmed()
    ensures ';' !in Epoch + " " && TrimWsp(Epoch + " ") == Epoch
  {
    assert (Epoch + " ")[..|Epoch|] == Epoch;
  }

  /**
   * The `removeItem` line sets the cookie `key` with an empty value, an
   * expiry date in 1970 (so the user agent deletes it) and a Path of `path`.
   */
  lemma RemoveLineParses(key: string, path: string)
    requires ';' !in key && '=' !in key && TrimWsp(key) != ""
    requires AttributeText(path) && path != "" && path[0] == '/'
    ensures var sc := ParseSetCookie(RemoveLine(key, path));
      && sc == Some(SetCookie(TrimWsp(key), "", [Attribute("expires", Epoch), Attribute("path", path)]))
      && PathOf(sc.value.attributes) == Some(path)
  {
    var attrs := [Attribute("expires", Epoch), Attribute("path", path)];
    RemoveLineSplits(key, path);
    RemoveLineAttributes(path);
    PartsOf(key, "", Av(" expires", Epoch + " "), Av("path", path), attrs);
    assert TrimWsp("") == "";
    PathOfLast(attrs, path);
  }

  /** The `removeItem` line is cut into its pair and two cookie-avs. */
  lemma RemoveLineSplits(key: string, path: string)
    requires ';' !in key && ';' !in path
    ensures ParseSetCookie(RemoveLine(key, path))
         == ParseParts([Av(key, ""), Av(" expires", Epoch + " "), Av("path", path)])
  {
    var pair := Av(key, "");
    var b := Av(" expires", Epoch + " ");
    var c := Av("path", path);
    assert ';' !in pair && ';' !in c;
    assert ';' !in b by {
      EpochTrimmed();
    }
    RemoveLineShape(key, path);
    LineParts(pair, b, c);
  }

  /** The cookie-avs of the `removeItem` line are an Expires and a Path attribute. */
  lemma RemoveLineAttributes(path: string)
    requires AttributeText(path)
    ensures Attributes([Av(" expires", Epoch + " "), Av("path", path)])
         == [Attribute("expires", Epoch), Attribute("path", path)]
  {
    assert TrimWsp(path) == path by {
      TrimWspTrimmed(path);
    }
    EpochTrimmed();
    AttributesOf(" expires", Epoch + " ", "path", path);
    AttributeNames();
  }

  /** The `removeItem` lines `clear` writes, one per property, in order. */
  function RemoveLines(es: seq<Entry>, path: string): seq<string> {
    seq(|es|, i requires 0 <= i < |es| => RemoveLine(es[i].key, path))
  }

  /**
   * `clear` writes one `removeItem` line per key of the parsed cookie string,
   * each key once, and only for keys the string holds.
   */
  lemma ClearLines(s: string, path: string)
    ensures var es := ParseCookie(s);
      && |RemoveLines(es, path)| == |es|
      && DistinctKeys(es)
      && (forall k :: Lookup(es, k).Some? <==> RemoveLine(k, path) in RemoveLines(es, path))
  {
    var es := ParseCookie(s);
    if s != "" {
      ParsedKeys(Split(s, ';'), ReadPiece());
    }
    var lines := RemoveLines(es, path);
    forall k
      ensures Lookup(es, k).Some? <==> RemoveLine(k, path) in lines
    {
      var i := IndexOf(es, k);
      if i >= 0 {
        assert lines[i] == RemoveLine(k, path);
      }
      if RemoveLine(k, path) in lines {
        var j :| 0 <= j < |lines| && lines[j] == RemoveLine(k, path);
        RemoveLineInjective(es[j].key, k, path);
      }
    }
  }

  /** One more property adds its `removeItem` line at the end. */
  lemma RemoveLinesSnoc(es: seq<Entry>, i: nat, path: string)
    requires i < |es|
    ensures RemoveLines(es[..i + 1], path) == RemoveLines(es[..i], path) + [RemoveLine(es[i].key, path)]
  {
    var lines := RemoveLines(es[..i + 1], path);
    assert lines[..i] == RemoveLines(es[..i], path);
  }

  lemma RemoveLineInjective(a: string, b: string, path: string)
    requires RemoveLine(a, path) == RemoveLine(b, path)
    ensures a == b
  {
    assert |a| == |b|;
    forall k | 0 <= k < |a|
      ensures a[k] == b[k]
    {
      assert RemoveLine(a, path)[k] == a[k];
      assert RemoveLine(b, path)[k] == b[k];
    }
  }

  // ---------------------------------------------------------------------------
  // The storage object

  class CookieStorage {
    const path: string
    const sameSite: string
    const maxAge: int
    /** What reading `document.cookie` returns. */
    var cookie: string
    /** Every string written to `document.cookie`, oldest first. */
    var written: seq<string>

    /** `CookieStorage(path, maxAge, samesite)` over a document whose cookie string reads `cookie`. */
    constructor (path: Option<string>, maxAge: Option<int>, sameSite: Option<string>, cookie: string)
      ensures this.path == StringOr(path, DefaultPath)
      ensures this.maxAge == IntOr(maxAge, DefaultMaxAge)
      ensures this.sameSite == StringOr(sameSite, DefaultSameSite)
      ensures this.cookie == cookie && written == []
    {
      this.path := StringOr(path, DefaultPath);
      this.maxAge := IntOr(maxAge, DefaultMaxAge);
      this.sameSite := StringOr(sameSite, DefaultSameSite);
      this.cookie := cookie;
      written := [];
    }

    /** `toObject()`: one assignment per ';'-piece of the cookie string. */
    method ToObject() returns (entries: seq<Entry>)
      ensures entries == ParseCookie(cookie)
    {
      if |cookie| == 0 {
        return [];
      }
      entries := [];
      var pairs := Split(cookie, ';');
      for i := 0 to |pairs|
        invariant entries == Parsed(pairs[..i], ReadPiece())
      {
        var pair := Split(pairs[i], '=');
        var value := if |pair| >= 2 then pair[1] else "";
        ghost var e := ReadPiece()(pairs[i]);
        assert e == Entry(Trim(pair[0]), Trim(value));
        ParsedSnoc(pairs, i, ReadPiece());
        entries := Assign(entries, Trim(pair[0]), Trim(value));
      }
      assert pairs[..|pairs|] == pairs;
    }

    /** `toString(map)`; with no argument, the cookie string itself. */
    method ToString(given: Option<seq<Entry>>) returns (s: string)
      ensures given.None? ==> s == cookie
      ensures given.Some? ==> s == Serialize(given.value)
    {
      if given.None? {
        return cookie;
      }
      var es := given.value;
      var flatten := "";
      for i := 0 to |es|
        invariant flatten == Flatten(es[..i])
      {
        assert es[..i + 1][..i] == es[..i];
        flatten := flatten + (es[i].key + "=" + es[i].value) + "; ";
      }
      assert es[..|es|] == es;
      s := StripTrailingSeparator(flatten);
    }

    /** `getItem(key)`: the key's value in `toObject()`, or undefined. */
    method GetItem(key: string) returns (r: Option<string>)
      ensures r == Lookup(ParseCookie(cookie), key)
    {
      var entries := ToObject();
      r := Lookup(entries, key);
    }

    /** `setItem(key, value)`, with the corrected "; path=" attribute. */
    method SetItem(key: string, value: Option<string>) returns (self: CookieStorage)
      modifies this
      ensures written == old(written) + [SetLine(key, value, maxAge, path)]
      ensures cookie == old(cookie)
      ensures self == this
    {
      written := written + [SetLine(key, value, maxAge, path)];
      self := this;
    }

    /** `removeItem(key)`: an assignment that expires the cookie. */
    method RemoveItem(key: string) returns (self: CookieStorage)
      modifies this
      ensures written == old(written) + [RemoveLine(key, path)]
      ensures cookie == old(cookie)
      ensures self == this
    {
      written := written + [RemoveLine(key, path)];
      self := this;
    }

    /** `clear()`: `removeItem` for every key of `toObject()`, in order. */
    method Clear() returns (self: CookieStorage)
      modifies this
      ensures written == old(written) + RemoveLines(ParseCookie(old(cookie)), path)
      ensures cookie == old(cookie)
      ensures self == this
    {
      var entries := ToObject();
      ghost var start := written;
      for i := 0 to |entries|
        invariant written == start + RemoveLines(entries[..i], path)
        invariant cookie == old(cookie)
      {
        RemoveLinesSnoc(entries, i, path);
        var _ := RemoveItem(entries[i].key);
      }
      assert entries[..|entries|] == entries;
      self := this;
    }
  }
}
