/**
 * `exports.highlight` (lambda/functions/index.js:103-134): fetch an object,
 * run its body through the highlighter, wrap the highlighted text in a
 * line-number gutter and upload the result beside the object.
 */
module Highlighter {
  import opened Strings
  import opened Config
  import opened Runtime

  /** Suffix of the highlighted rendition of an object. */
  const HighlightSuffix := ".highlight"

  /**
   * `s.split(/\r\n|\n/)`: the lines of `s`. A CR LF pair and a lone LF both end
   * a line; a lone CR does not.
   */
  function SplitLines(s: string): (r: seq<string>)
    ensures |r| == Count(s, '\n') + 1
    ensures forall i :: 0 <= i < |r| ==> '\n' !in r[i]
  {
    if s == [] then [[]]
    else if |s| >= 2 && s[0] == '\r' && s[1] == '\n' then
      assert s[1..][1..] == s[2..];
      [[]] + SplitLines(s[2..])
    else if s[0] == '\n' then [[]] + SplitLines(s[1..])
    else
      var rest := SplitLines(s[1..]);
      [[s[0]] + rest[0]] + rest[1..]
  }

  /** The gutter entry for line `n`, its number padded with spaces to `width`. */
  function Span(n: nat, width: nat): string {
    "<span>" + PadStart(Decimal(n), width, ' ') + "</span>"
  }

  /** One span per line, numbered from 1, all padded to the digit count of the last number. */
  function Spans(lineCount: nat): (r: seq<string>)
    ensures |r| == lineCount
  {
    seq(lineCount, i requires 0 <= i < lineCount => Span(i + 1, |Decimal(lineCount)|))
  }

  /** Body of the highlight artifact: the gutter block, then the highlighted text in a code block. */
  function Wrap(value: string): string {
    "<pre>" + Join(Spans(|SplitLines(value)|), "\n") + "</pre><pre><code>" + value + "</code></pre>"
  }

  /** Span `i` shows the number i + 1 right-aligned in exactly as many columns as the last number has digits. */
  lemma SpanAt(lineCount: nat, i: nat)
    requires i < lineCount
    ensures |Decimal(i + 1)| <= |Decimal(lineCount)|
    ensures Spans(lineCount)[i]
         == "<span>" + (Repeat(' ', |Decimal(lineCount)| - |Decimal(i + 1)|) + Decimal(i + 1)) + "</span>"
    ensures DecimalValue(Decimal(i + 1)) == i + 1
  {
    var width := |Decimal(lineCount)|;
    SpanIndex(lineCount, i);
    DecimalLengthMonotone(i + 1, lineCount);
    SpanText(i + 1, width);
    DecimalRoundTrip(i + 1);
  }

  lemma SpanIndex(lineCount: nat, i: nat)
    requires i < lineCount
    ensures Spans(lineCount)[i] == Span(i + 1, |Decimal(lineCount)|)
  {
  }

  /** The span of a number no wider than `width` pads it with exactly the missing spaces. */
  lemma SpanText(n: nat, width: nat)
    requires |Decimal(n)| <= width
    ensures Span(n, width) == "<span>" + (Repeat(' ', width - |Decimal(n)|) + Decimal(n)) + "</span>"
  {
    PadStartShort(Decimal(n), width, ' ');
  }

  /** Padding a string no wider than `width` puts exactly the missing columns in front. */
  lemma PadStartShort(s: string, width: nat, ch: char)
    requires |s| <= width
    ensures PadStart(s, width, ch) == Repeat(ch, width - |s|) + s
  {
    if |s| == width {
      assert Repeat(ch, 0) + s == s;
    }
  }

  /**
   * The wrapped body holds one gutter span per line of the highlighted text,
   * that is one more than its line feeds (each laid out as `SpanAt` states),
   * and then the text itself unchanged between `<pre><code>` and `</code></pre>`.
   */
  lemma WrapShape(value: string)
    ensures Wrap(value)
         == "<pre>" + Join(Spans(Count(value, '\n') + 1), "\n") + "</pre><pre><code>" + value + "</code></pre>"
  {
    var lines := SplitLines(value);
    assert Spans(|lines|) == Spans(Count(value, '\n') + 1);
  }

  /**
   * The highlight pipeline for one key: getObject, highlightAuto, wrap, then
   * putObject of the wrapped text under the key plus ".highlight", with the
   * object's own storage class or else the configured one.
   */
  function Highlight(key: string, cfg: Config, bucket: Bucket, libs: Libraries): Run {
    match GetObject(bucket, key)
    case Err(e) => Run([], Fail(e))
    case Ok(obj) =>
      match libs.highlightAuto(obj.body)
      case None => Run([], Fail(HighlightFailed(key)))
      case Some(value) =>
        PutObject(bucket, key + HighlightSuffix, Some(Wrap(value)), obj.storageClass, cfg)
  }

  /**
   * A highlight succeeds exactly when the object exists, the highlighter does
   * not throw and the upload is accepted; it then writes the one artifact, and
   * nothing is written otherwise.
   */
  lemma HighlightWrites(key: string, cfg: Config, bucket: Bucket, libs: Libraries)
    ensures var r := Highlight(key, cfg, bucket, libs);
      && (r.outcome.Pass? <==>
            && key in bucket.objects
            && libs.highlightAuto(bucket.objects[key].body).Some?
            && key + HighlightSuffix !in bucket.denied)
      && (r.outcome.Pass? ==>
            var obj := bucket.objects[key];
            var cls := obj.storageClass;
            r.puts == [Put(key + HighlightSuffix,
                           Some(Wrap(libs.highlightAuto(obj.body).value)),
                           if cls.Some? && cls.value != "" then cls.value else cfg.storageClass)])
      && (r.outcome.Fail? ==> r.puts == [])
  {
  }

  /** `async.each(keys, exports.highlight, ...)`, one key after another, stopping at the first failure. */
  function HighlightAll(keys: seq<string>, cfg: Config, bucket: Bucket, libs: Libraries): Run {
    if keys == [] then Done
    else Then(Highlight(keys[0], cfg, bucket, libs), HighlightAll(keys[1..], cfg, bucket, libs))
  }

  /** Every upload of a highlight run is the artifact of one of its keys. */
  lemma {:induction false} HighlightAllPuts(keys: seq<string>, cfg: Config, bucket: Bucket, libs: Libraries)
    ensures forall p :: p in HighlightAll(keys, cfg, bucket, libs).puts ==>
              exists k :: k in keys && p.key == k + HighlightSuffix
  {
    if keys != [] {
      HighlightAllPuts(keys[1..], cfg, bucket, libs);
      var h := Highlight(keys[0], cfg, bucket, libs);
      HighlightWrites(keys[0], cfg, bucket, libs);
      var r := HighlightAll(keys, cfg, bucket, libs);
      forall p | p in r.puts ensures exists k :: k in keys && p.key == k + HighlightSuffix {
        if p in h.puts {
          assert keys[0] in keys;
        } else {
          var k :| k in keys[1..] && p.key == k + HighlightSuffix;
          assert k in keys;
        }
      }
    }
  }

  /** When a highlight run succeeds, every key got its artifact. */
  lemma {:induction false} HighlightAllCovers(keys: seq<string>, cfg: Config, bucket: Bucket, libs: Libraries, k: string)
    requires HighlightAll(keys, cfg, bucket, libs).outcome.Pass?
    requires k in keys
    ensures exists p :: p in HighlightAll(keys, cfg, bucket, libs).puts && p.key == k + HighlightSuffix
  {
    var h := Highlight(keys[0], cfg, bucket, libs);
    HighlightWrites(keys[0], cfg, bucket, libs);
    var r := HighlightAll(keys, cfg, bucket, libs);
    if k == keys[0] {
      assert h.puts[0] in r.puts;
    } else {
      HighlightAllCovers(keys[1..], cfg, bucket, libs, k);
      var p :| p in HighlightAll(keys[1..], cfg, bucket, libs).puts && p.key == k + HighlightSuffix;
      assert p in r.puts;
    }
  }
}
