/**
 * The three rewrite passes of html_converter.py (`replace_images`, `replace_css`,
 * `replace_js`): every match of the pattern is replaced by what `replace_func` returns,
 * scanning left to right as `re.sub` does. Within one pass a replacement is not scanned
 * again, but each pass scans the output of the passes before it: a script reference
 * inside an inlined stylesheet is inlined by the script pass.
 */
module Inliner {
  import opened Wrappers
  import opened Text
  import opened Paths
  import opened Base64
  import opened Patterns
  import opened Store

  /** URLs the passes never touch. */
  predicate IsRemote(url: string) {
    StartsWith(url, "http://") || StartsWith(url, "https://") || StartsWith(url, "data:")
  }

  /** The path a relative URL names: joined to the folder, then normalised. */
  function Resolve(base: string, url: string): string {
    NormPath(Join(base, url))
  }

  /** The guessed type of an image, `image/unknown` when guessing gives nothing. */
  function MimeOf(host: Foreign, path: string): string {
    match host.guessMime(path)
    case Some(m) => if m != "" then m else "image/unknown"
    case None => "image/unknown"
  }

  /** A `data:` URL (RFC 2397) carrying `data` in base 64. */
  function DataUri(mime: string, data: seq<byte>): string {
    "data:" + mime + ";base64," + Encode(data)
  }

  /** An image tag `whole` rebuilt around its inner text: `<img`, the text between `<img` and the final character with every copy of `url` replaced by `uri`, then `>`. */
  function ImageTag(whole: string, url: string, uri: string): string
    requires |url| > 0
  {
    "<img" + ReplaceAll(Trim(whole, 4, 1), url, uri) + ">"
  }

  /** The inlined form of a match `whole` whose resource at `path` was read as `data`. */
  function Embed(k: Kind, whole: string, url: string, path: string, data: seq<byte>, host: Foreign): string
    requires |url| > 0
  {
    match k
    case Image => ImageTag(whole, url, DataUri(MimeOf(host, path), data))
    case Stylesheet => "<style>\n" + host.decode(data) + "\n</style>"
    case Script => "<script>\n" + host.decode(data) + "\n</script>"
  }

  /** The match's URL is remote, or its resource is missing or cannot be read. */
  predicate Inert(t: string, m: Match, base: string, fs: Fs) {
    m.urlStart <= m.urlEnd <= |t| &&
    var url := t[m.urlStart..m.urlEnd];
    IsRemote(url) || Read(fs, Resolve(base, url)).None?
  }

  /** `replace_func`: what one match becomes. */
  function Replacement(k: Kind, t: string, m: Match, base: string, fs: Fs, host: Foreign): (r: string)
    requires Spans(t, m)
    ensures Inert(t, m, base, fs) ==> r == t[m.start..m.end]
  {
    var whole := t[m.start..m.end];
    var url := t[m.urlStart..m.urlEnd];
    if IsRemote(url) then whole
    else
      var path := Resolve(base, url);
      if !Exists(fs, path) then whole
      else
        match Read(fs, path)
        case None => whole
        case Some(data) => Embed(k, whole, url, path, data, host)
  }

  /** `pattern.sub(replace_func, t[pos..])`. */
  function Pass(k: Kind, t: string, pos: nat, base: string, fs: Fs, host: Foreign): string
    requires pos <= |t|
    decreases |t| - pos
  {
    match Search(PatternOf(k), t, pos)
    case None => t[pos..]
    case Some(m) =>
      SearchFound(PatternOf(k), t, pos);
      t[pos..m.start] + Replacement(k, t, m, base, fs, host) + Pass(k, t, m.end, base, fs, host)
  }

  /**
   * The text of `t` from `pos` on with the chained matches `ms` replaced: the text before
   * the first match as it is, that match's replacement, and so on, then the text after the
   * last match as it is.
   */
  function Spliced(k: Kind, t: string, pos: nat, ms: seq<Match>, base: string, fs: Fs, host: Foreign): string
    requires pos <= |t| && Chained(PatternOf(k), t, pos, ms)
    decreases |ms|
  {
    if ms == [] then t[pos..]
    else
      MatchAtWellFormed(PatternOf(k), t, ms[0].start);
      WellFormedBounds(PatternOf(k), t, ms[0]);
      t[pos..ms[0].start] + Replacement(k, t, ms[0], base, fs, host) + Spliced(k, t, ms[0].end, ms[1..], base, fs, host)
  }

  /**
   * A pass keeps the text between the matches of its pattern as it is and puts each
   * match's replacement in its place; the matches are those `Scan` lists (leftmost first,
   * none overlapping, see `Patterns.ScanMatches`).
   */
  lemma {:induction false} PassIsSpliced(k: Kind, t: string, pos: nat, base: string, fs: Fs, host: Foreign)
    requires pos <= |t|
    ensures Chained(PatternOf(k), t, pos, Scan(PatternOf(k), t, pos))
    ensures Pass(k, t, pos, base, fs, host) == Spliced(k, t, pos, Scan(PatternOf(k), t, pos), base, fs, host)
    decreases |t| - pos
  {
    ScanChained(PatternOf(k), t, pos);
    var r := Search(PatternOf(k), t, pos);
    if r.Some? {
      var m := r.value;
      PassStep(k, t, pos, base, fs, host, m);
      PassIsSpliced(k, t, m.end, base, fs, host);
      var ms := Scan(PatternOf(k), t, pos);
      assert ms[0] == m && ms[1..] == Scan(PatternOf(k), t, m.end);
    }
  }

  /** Images, then stylesheets, then scripts, each pass over the previous pass's output. */
  function Inline(html: string, base: string, fs: Fs, host: Foreign): string {
    var afterImages := Pass(Image, html, 0, base, fs, host);
    var afterCss := Pass(Stylesheet, afterImages, 0, base, fs, host);
    Pass(Script, afterCss, 0, base, fs, host)
  }

  /** Every match in `ms` is inert. */
  predicate EachInert(t: string, ms: seq<Match>, base: string, fs: Fs) {
    forall i :: 0 <= i < |ms| ==> Inert(t, ms[i], base, fs)
  }

  /** Every match of pattern `k` in `t` is inert. */
  predicate AllInert(k: Kind, t: string, base: string, fs: Fs) {
    EachInert(t, Scan(PatternOf(k), t, 0), base, fs)
  }

  /** Every match of pattern `k` in `t` has a remote URL. */
  predicate AllRemote(k: Kind, t: string) {
    forall i :: 0 <= i < |Scan(PatternOf(k), t, 0)| ==>
      var m := Scan(PatternOf(k), t, 0)[i];
      m.urlStart <= m.urlEnd <= |t| && IsRemote(t[m.urlStart..m.urlEnd])
  }

  /** One step of a pass: the text before the first match, its replacement, then the rest. */
  lemma PassStep(k: Kind, t: string, pos: nat, base: string, fs: Fs, host: Foreign, m: Match)
    requires pos <= |t| && Search(PatternOf(k), t, pos) == Some(m)
    ensures WellFormed(PatternOf(k), t, m) && pos <= m.start
    ensures Scan(PatternOf(k), t, pos) == [m] + Scan(PatternOf(k), t, m.end)
    ensures Pass(k, t, pos, base, fs, host)
         == t[pos..m.start] + Replacement(k, t, m, base, fs, host) + Pass(k, t, m.end, base, fs, host)
  {
    SearchFound(PatternOf(k), t, pos);
  }

  lemma EachInertSplit(t: string, m: Match, rest: seq<Match>, base: string, fs: Fs)
    requires EachInert(t, [m] + rest, base, fs)
    ensures Inert(t, m, base, fs) && EachInert(t, rest, base, fs)
  {
    assert ([m] + rest)[0] == m;
    forall i | 0 <= i < |rest| ensures Inert(t, rest[i], base, fs) {
      assert rest[i] == ([m] + rest)[i + 1];
    }
  }

  lemma SlicesJoin(t: string, a: nat, b: nat, c: nat)
    requires a <= b <= c <= |t|
    ensures t[a..b] + t[b..c] + t[c..] == t[a..]
  {
  }

  /** A pass whose every match is inert gives back its input: nothing is dropped or changed. */
  lemma {:induction false} InertPassIsIdentity(k: Kind, t: string, pos: nat, base: string, fs: Fs, host: Foreign)
    requires pos <= |t|
    requires EachInert(t, Scan(PatternOf(k), t, pos), base, fs)
    ensures Pass(k, t, pos, base, fs, host) == t[pos..]
    decreases |t| - pos
  {
    var r := Search(PatternOf(k), t, pos);
    if r.Some? {
      var m := r.value;
      PassStep(k, t, pos, base, fs, host, m);
      EachInertSplit(t, m, Scan(PatternOf(k), t, m.end), base, fs);
      InertPassIsIdentity(k, t, m.end, base, fs, host);
      assert Replacement(k, t, m, base, fs, host) == t[m.start..m.end];
      SlicesJoin(t, pos, m.start, m.end);
    }
  }

  /**
   * When every reference in the document, of all three kinds, is remote or has no
   * readable resource, the three passes give back the document unchanged.
   */
  lemma InlineKeepsInertDocument(html: string, base: string, fs: Fs, host: Foreign)
    requires AllInert(Image, html, base, fs)
    requires AllInert(Stylesheet, html, base, fs)
    requires AllInert(Script, html, base, fs)
    ensures Inline(html, base, fs, host) == html
  {
    InertPassIsIdentity(Image, html, 0, base, fs, host);
    assert html[0..] == html;
    InertPassIsIdentity(Stylesheet, html, 0, base, fs, host);
    InertPassIsIdentity(Script, html, 0, base, fs, host);
  }

  /** A document whose references are all `http://`, `https://` or `data:` passes through unchanged. */
  lemma InlineKeepsRemoteDocument(html: string, base: string, fs: Fs, host: Foreign)
    requires AllRemote(Image, html) && AllRemote(Stylesheet, html) && AllRemote(Script, html)
    ensures Inline(html, base, fs, host) == html
  {
    InlineKeepsInertDocument(html, base, fs, host);
  }

  /** A local match whose resource was read is replaced by its embedding. */
  lemma ReplacementOfReadable(k: Kind, t: string, m: Match, base: string, fs: Fs, host: Foreign, data: seq<byte>)
    requires Spans(t, m)
    requires var url := t[m.urlStart..m.urlEnd];
             !IsRemote(url) && Read(fs, Resolve(base, url)) == Some(data)
    ensures var url := t[m.urlStart..m.urlEnd];
            Replacement(k, t, m, base, fs, host) == Embed(k, t[m.start..m.end], url, Resolve(base, url), data, host)
  {
  }

  /** A rewritten image tag opens with `<img` and closes with `>`. */
  lemma ImageTagShape(whole: string, url: string, uri: string)
    requires |url| > 0
    ensures StartsWith(ImageTag(whole, url, uri), "<img") && EndsWith(ImageTag(whole, url, uri), ">")
  {
    var r := ImageTag(whole, url, uri);
    assert r[..4] == "<img";
    assert r[|r| - 1..] == ">";
  }

  /**
   * The data URL of an image names the guessed type, `image/unknown` when guessing gives
   * nothing; its payload is the base-64 text of the file's bytes, four characters per
   * started group of three, and decodes back to them.
   */
  lemma ImageDataUri(path: string, data: seq<byte>, host: Foreign)
    ensures host.guessMime(path) == None || host.guessMime(path) == Some("") ==>
              MimeOf(host, path) == "image/unknown"
    ensures host.guessMime(path).Some? && host.guessMime(path).value != "" ==>
              MimeOf(host, path) == host.guessMime(path).value
    ensures Decode(Encode(data)) == Some(data) && |Encode(data)| == 4 * ((|data| + 2) / 3)
  {
    DecodeEncode(data);
  }

  /**
   * The positions of an image match as the embedding uses them: `<img` and then text
   * ending with a quote before the value, the closing quote right after it, `>` after
   * that, and no quote in the value.
   */
  predicate ImageShaped(t: string, m: Match) {
    Spans(t, m) && m.start + 5 <= m.urlStart && t[m.urlStart - 1] == '"' &&
    m.urlEnd < m.end - 1 && t[m.urlEnd] == '"' && '"' !in t[m.urlStart..m.urlEnd]
  }

  /** Every match of the image pattern is shaped so. */
  lemma ImageMatchShaped(t: string, m: Match)
    requires WellFormed(PatternOf(Image), t, m)
    ensures ImageShaped(t, m)
  {
    WellFormedBounds(PatternOf(Image), t, m);
    ValueHasNoQuote(PatternOf(Image), t, m);
    OccursAtIff(t, "src=\"", m.urlStart - 5);
    assert t[m.urlStart - 5..m.urlStart][4] == '"';
  }

  /** The attribute value of a match holds no quote. */
  lemma ValueHasNoQuote(pat: Pattern, t: string, m: Match)
    requires WellFormed(pat, t, m)
    ensures m.urlStart < m.urlEnd <= |t| && '"' !in t[m.urlStart..m.urlEnd]
  {
    WellFormedBounds(pat, t, m);
    var url := t[m.urlStart..m.urlEnd];
    forall j | 0 <= j < |url| ensures url[j] != '"' {
      assert url[j] == At(t, m.urlStart + j);
    }
  }

  /** A local, readable image becomes its tag rewritten with the data URL of its bytes. */
  lemma ImageInlining(t: string, m: Match, base: string, fs: Fs, host: Foreign, data: seq<byte>)
    requires Spans(t, m)
    requires var url := t[m.urlStart..m.urlEnd];
             !IsRemote(url) && Read(fs, Resolve(base, url)) == Some(data)
    ensures var url := t[m.urlStart..m.urlEnd];
            Replacement(Image, t, m, base, fs, host)
              == ImageTag(t[m.start..m.end], url, DataUri(MimeOf(host, Resolve(base, url)), data))
  {
    ReplacementOfReadable(Image, t, m, base, fs, host, data);
  }

  /**
   * The rewritten tag is `<img`, then the tag's text between `<img` and its closing `>`
   * with EVERY copy of the value replaced (`str.replace` on the whole tag, not only on
   * the `src` attribute), then `>`.
   */
  lemma ImageTagParts(t: string, m: Match, uri: string)
    requires ImageShaped(t, m)
    ensures var url := t[m.urlStart..m.urlEnd];
            ImageTag(t[m.start..m.end], url, uri)
              == "<img" + ReplaceAll(t[m.start + 4..m.urlStart] + url + "\"" + t[m.urlEnd + 1..m.end - 1], url, uri) + ">"
  {
    assert Trim(t[m.start..m.end], 4, 1) == t[m.start + 4..m.end - 1] by {
      SliceOfSlice(t, m.start, m.end, 4, m.end - m.start - 1);
    }
    QuoteParts(t, m.start + 4, m.urlStart, m.urlEnd, m.end - 1);
  }

  /**
   * The rewritten tag in full: `<img`, the text before the value (which ends with
   * `src="`) with every copy of the value replaced, the data URL in place of the value,
   * the closing quote, the rest of the tag with every copy replaced, then `>`. A copy of
   * the value in an attribute before `src`, such as `alt`, is replaced too; without one
   * the text before the value is kept as it was.
   */
  lemma ImageTagCarriesUri(t: string, m: Match, uri: string)
    requires ImageShaped(t, m)
    ensures var url := t[m.urlStart..m.urlEnd];
            var head := t[m.start + 4..m.urlStart];
            var tail := t[m.urlEnd + 1..m.end - 1];
            ImageTag(t[m.start..m.end], url, uri)
              == "<img" + ReplaceAll(head, url, uri) + uri + "\"" + ReplaceAll(tail, url, uri) + ">"
    ensures var url := t[m.urlStart..m.urlEnd];
            var head := t[m.start + 4..m.urlStart];
            !Contains(head, url) ==>
              ImageTag(t[m.start..m.end], url, uri)
                == "<img" + head + uri + "\"" + ReplaceAll(t[m.urlEnd + 1..m.end - 1], url, uri) + ">"
  {
    ImageTagParts(t, m, uri);
    var url := t[m.urlStart..m.urlEnd];
    var head := t[m.start + 4..m.urlStart];
    var tail := t[m.urlEnd + 1..m.end - 1];
    assert head[|head| - 1] == t[m.urlStart - 1];
    ReplaceValue(head, url, tail, uri);
    Regroup4("<img", ReplaceAll(head, url, uri), uri, "\"", ReplaceAll(tail, url, uri), ">");
    if !Contains(head, url) {
      ReplaceAllAbsent(head, url, uri);
    }
  }

  /**
   * Replacing a quote-free value in `head` + value + `"` + `tail`, where `head` ends with
   * a quote: no copy of the value can straddle either quote.
   */
  lemma ReplaceValue(head: string, url: string, tail: string, uri: string)
    requires |url| > 0 && '"' !in url
    requires |head| > 0 && head[|head| - 1] == '"'
    ensures ReplaceAll(head + url + "\"" + tail, url, uri)
         == ReplaceAll(head, url, uri) + uri + "\"" + ReplaceAll(tail, url, uri)
  {
    var head0 := head[..|head| - 1];
    assert head == head0 + ['"'];
    ReplaceAllCut(head0, '"', url + "\"" + tail, url, uri);
    ReplaceAllCut(url, '"', tail, url, uri);
    ReplaceAllAtStart(url, "", uri);
    assert url + "" == url;
    ReplaceAllCut(head0, '"', "", url, uri);
    assert head0 + ['"'] + "" == head;
    assert head + url + "\"" + tail == head0 + ['"'] + (url + ['"'] + tail);
  }

  /** A local, readable stylesheet link becomes exactly `<style>`, newline, its text, newline, `</style>`. */
  lemma StylesheetInlining(t: string, m: Match, base: string, fs: Fs, host: Foreign, data: seq<byte>)
    requires WellFormed(PatternOf(Stylesheet), t, m)
    requires var url := t[m.urlStart..m.urlEnd];
             !IsRemote(url) && Read(fs, Resolve(base, url)) == Some(data)
    ensures Replacement(Stylesheet, t, m, base, fs, host) == "<style>\n" + host.decode(data) + "\n</style>"
  {
    ReplacementOfReadable(Stylesheet, t, m, base, fs, host, data);
  }

  /** A local, readable script becomes exactly `<script>`, newline, its text, newline, `</script>`. */
  lemma ScriptInlining(t: string, m: Match, base: string, fs: Fs, host: Foreign, data: seq<byte>)
    requires WellFormed(PatternOf(Script), t, m)
    requires var url := t[m.urlStart..m.urlEnd];
             !IsRemote(url) && Read(fs, Resolve(base, url)) == Some(data)
    ensures Replacement(Script, t, m, base, fs, host) == "<script>\n" + host.decode(data) + "\n</script>"
  {
    ReplacementOfReadable(Script, t, m, base, fs, host, data);
  }
}
