/**
 * `save_as_mhtml`: the processed page wrapped in a one-part `multipart/related` MIME
 * message (RFC 2557) whose boundary is a fixed prefix and the base 64 form of sixteen
 * random octets, written to the output file. A failing write is reported and swallowed.
 */
module Mhtml {
  import opened Wrappers
  import opened Text
  import opened Base64
  import opened Store

  const BoundaryPrefix: string := "----=MHTMLBoundary"

  /** The fixed prefix followed by sixteen random octets in base 64. */
  function Boundary(nonce: Nonce): (b: string)
    ensures |b| == 42 && StartsWith(b, BoundaryPrefix)
  {
    assert (BoundaryPrefix + Encode(nonce))[..|BoundaryPrefix|] == BoundaryPrefix;
    BoundaryPrefix + Encode(nonce)
  }

  /** `bcharsnospace` of section 5.1.1 of RFC 2046. */
  predicate IsBcharNoSpace(c: char) {
    '0' <= c <= '9' || 'A' <= c <= 'Z' || 'a' <= c <= 'z' || c in "'()+_,-./:=?"
  }

  /** `boundary := 0*69<bchars> bcharsnospace`, section 5.1.1 of RFC 2046. */
  predicate IsBoundaryText(b: string) {
    1 <= |b| <= 70 &&
    (forall i :: 0 <= i < |b| ==> IsBcharNoSpace(b[i]) || b[i] == ' ') &&
    b[|b| - 1] != ' '
  }

  /** What the generated boundary is made of: base 64 symbols, `-` and `=`. */
  predicate IsBoundaryChar(c: char) {
    IsSymbol(c) || c == '-' || c == '='
  }

  /** Every character of a generated boundary is a base 64 symbol, `-` or `=`. */
  lemma BoundaryChars(nonce: Nonce)
    ensures forall i :: 0 <= i < |Boundary(nonce)| ==> IsBoundaryChar(Boundary(nonce)[i])
  {
    var b := Boundary(nonce);
    var e := Encode(nonce);
    EncodeAlphabet(nonce);
    forall i | 0 <= i < |b| ensures IsBoundaryChar(b[i]) {
      if i < |BoundaryPrefix| {
        assert b[i] == BoundaryPrefix[i];
      } else {
        assert b[i] == e[i - |BoundaryPrefix|];
      }
    }
  }

  /** A generated boundary is a valid MIME boundary: 42 characters of `bcharsnospace`. */
  lemma BoundaryConforms(nonce: Nonce)
    ensures IsBoundaryText(Boundary(nonce))
    ensures forall i :: 0 <= i < |Boundary(nonce)| ==> IsBcharNoSpace(Boundary(nonce)[i])
  {
    BoundaryChars(nonce);
  }

  /** The message headers, one string per line of the f-string, ending with the blank line. */
  function HeaderLines(title: string, date: string, boundary: string): seq<string> {
    [ "From: <saved by html_converter.py>",
      "Subject: " + title,
      "Date: " + date,
      "MIME-Version: 1.0",
      "Content-Type: multipart/related;",
      "    boundary=\"" + boundary + "\";",
      "    type=\"text/html\"",
      "" ]
  }

  /** The headers of the single body part, ending with the blank line. */
  function PartHeaderLines(): seq<string> {
    [ "Content-Type: text/html; charset=\"utf-8\"",
      "Content-Transfer-Encoding: 8bit",
      "Content-Location: index.html",
      "" ]
  }

  /** The body part after its opening delimiter line: its headers, the page, a blank line. */
  function PartLines(html: string): seq<string> {
    PartHeaderLines() + [html, ""]
  }

  /**
   * The f-string of `save_as_mhtml` cut at its line breaks: headers, the opening
   * delimiter line, the body part, the closing delimiter line, and the final line break.
   */
  function MhtmlLines(title: string, date: string, boundary: string, html: string): seq<string> {
    HeaderLines(title, date, boundary) + ["--" + boundary] + PartLines(html) + ["--" + boundary + "--", ""]
  }

  /** The text `save_as_mhtml` writes. */
  function MhtmlText(title: string, date: string, boundary: string, html: string): string {
    JoinWith(MhtmlLines(title, date, boundary, html), "\n")
  }

  /**
   * `save_as_mhtml(html, out, title)` during conversion unit `n`: whenever the file can be
   * opened the message is written to `out` and reads back as written; when the write
   * fails the file system is as it was and no error escapes.
   */
  function SaveMhtml(fs: Fs, out: string, title: string, html: string, host: Foreign, n: nat): (r: Fs)
    ensures var w := Write(fs, out, host.encode(MhtmlText(title, host.clock(n), Boundary(host.nonce(n)), html)));
      (w.Some? ==> r == w.value && Read(r, out) == Some(host.encode(MhtmlText(title, host.clock(n), Boundary(host.nonce(n)), html)))) &&
      (w.None? ==> r == fs)
  {
    var text := MhtmlText(title, host.clock(n), Boundary(host.nonce(n)), html);
    match Write(fs, out, host.encode(text))
    case None => fs
    case Some(fs') => fs'
  }

  /** A string shorter than `d` cannot hold it. */
  lemma ShortAvoids(s: string, d: string)
    requires |s| < |d|
    ensures !Contains(s, d)
  {
  }

  /** The delimiter of a generated boundary has no line break, no quote and starts with `-`. */
  lemma DelimiterChars(nonce: Nonce)
    ensures var d := "--" + Boundary(nonce);
      |d| == 44 && d[0] == '-' && '\n' !in d && '"' !in d
  {
    var b := Boundary(nonce);
    var d := "--" + b;
    BoundaryChars(nonce);
    forall i | 0 <= i < |d| ensures d[i] != '\n' && d[i] != '"' {
      if i >= 2 {
        assert d[i] == b[i - 2] && IsBoundaryChar(b[i - 2]);
      } else {
        assert d[i] == '-';
      }
    }
  }

  /** The header line that declares the boundary does not hold the delimiter. */
  lemma BoundaryLineAvoids(nonce: Nonce)
    ensures var b := Boundary(nonce);
      !Contains("    boundary=\"" + b + "\";", "--" + b)
  {
    var b := Boundary(nonce);
    var d := "--" + b;
    var y := b + "\";";
    DelimiterChars(nonce);
    forall j | 0 <= j <= |y| ensures !OccursAt(y, d, j) {
      if j == 0 {
        OccursAtIff(y, d, 0);
        assert y[0..|d|][42] == y[42] == '"';
        assert d[42] != '"';
      }
    }
    NoOccurrenceAfterPrefix("    boundary=\"", y, d);
    assert "    boundary=\"" + b + "\";" == "    boundary=\"" + y;
  }

  /** No header line holds the delimiter, provided the title and the date do not. */
  lemma HeaderLinesAvoid(title: string, date: string, nonce: Nonce)
    requires !Contains(title, "--" + Boundary(nonce)) && !Contains(date, "--" + Boundary(nonce))
    ensures var hl := HeaderLines(title, date, Boundary(nonce));
      forall i :: 0 <= i < |hl| ==> !Contains(hl[i], "--" + Boundary(nonce))
  {
    var b := Boundary(nonce);
    var d := "--" + b;
    var hl := HeaderLines(title, date, b);
    DelimiterChars(nonce);
    BoundaryLineAvoids(nonce);
    NoOccurrenceAfterPrefix("Subject: ", title, d);
    NoOccurrenceAfterPrefix("Date: ", date, d);
    forall i | 0 <= i < |hl| ensures !Contains(hl[i], d) {
      if i != 1 && i != 2 && i != 5 {
        ShortAvoids(hl[i], d);
      }
    }
  }

  /** No line of the body part holds the delimiter, provided the page does not. */
  lemma PartLinesAvoid(html: string, nonce: Nonce)
    requires !Contains(html, "--" + Boundary(nonce))
    ensures var pl := PartLines(html);
      forall i :: 0 <= i < |pl| ==> !Contains(pl[i], "--" + Boundary(nonce))
  {
    var d := "--" + Boundary(nonce);
    var pl := PartLines(html);
    DelimiterChars(nonce);
    forall i | 0 <= i < |pl| ensures !Contains(pl[i], d) {
      if i != 4 {
        ShortAvoids(pl[i], d);
      }
    }
  }

  /** Regrouping the joined message around its two delimiters. */
  lemma DelimitedText(h: string, d: string, p: string)
    ensures h + "\n" + d + "\n" + p + "\n" + (d + "--" + "\n" + "")
         == (h + "\n") + d + (("\n" + p + "\n") + d + "--\n")
  {
    assert d + "--" + "\n" + "" == d + "--\n";
  }

  /** Lines around two delimiter lines, joined: the text before, the delimiter, the text between, the closing delimiter. */
  lemma JoinDelimited(hl: seq<string>, pl: seq<string>, d: string)
    requires |hl| > 0 && |pl| > 0
    ensures JoinWith(hl + [d] + pl + [d + "--", ""], "\n")
         == (JoinWith(hl, "\n") + "\n") + d + (("\n" + JoinWith(pl, "\n") + "\n") + d + "--\n")
  {
    var a := hl + [d];
    var b := a + pl;
    var tail := [d + "--", ""];
    JoinWithAppend(hl, [d], "\n");
    assert JoinWith([d], "\n") == d;
    JoinWithAppend(a, pl, "\n");
    JoinWithAppend(b, tail, "\n");
    assert JoinWith(tail, "\n") == d + "--" + "\n" + "";
    DelimitedText(JoinWith(hl, "\n"), d, JoinWith(pl, "\n"));
  }

  /** The message is the headers, the opening delimiter, the body part, and the closing delimiter. */
  lemma MhtmlTextParts(title: string, date: string, b: string, html: string)
    ensures var d := "--" + b;
      MhtmlText(title, date, b, html)
      == (JoinWith(HeaderLines(title, date, b), "\n") + "\n") + d
         + (("\n" + JoinWith(PartLines(html), "\n") + "\n") + d + "--\n")
  {
    var d := "--" + b;
    assert "--" + b + "--" == d + "--";
    assert MhtmlLines(title, date, b, html) == HeaderLines(title, date, b) + [d] + PartLines(html) + [d + "--", ""];
    JoinDelimited(HeaderLines(title, date, b), PartLines(html), d);
  }

  /** The part headers, the page and the blank line after it, as one text: the page is copied verbatim. */
  lemma PartText(html: string)
    ensures JoinWith(PartLines(html), "\n") == JoinWith(PartHeaderLines(), "\n") + "\n" + html + "\n"
  {
    JoinWithAppend(PartHeaderLines(), [html, ""], "\n");
    assert JoinWith([html, ""], "\n") == html + "\n" + "";
  }

  /** Splitting at a delimiter that occurs only where shown gives the three texts around it. */
  lemma SplitDelimited(x1: string, x2: string, d: string)
    requires |d| > 3 && '\n' !in d
    requires |x1| > 0 && x1[|x1| - 1] == '\n' && !Contains(x1, d)
    requires |x2| > 0 && x2[|x2| - 1] == '\n' && !Contains(x2, d)
    ensures Split(x1 + d + (x2 + d + "--\n"), d) == [x1, x2, "--\n"]
  {
    SplitAfterLine(x1, d, x2 + d + "--\n");
    SplitAfterLine(x2, d, "--\n");
    assert Split("--\n", d) == ["--\n"];
  }

  /** A text of lines without the delimiter, with a line break added before and after. */
  lemma FramedAvoids(h: string, p: string, d: string)
    requires |d| > 0 && '\n' !in d
    requires !Contains(h, d) && !Contains(p, d)
    ensures !Contains(h + "\n", d) && !Contains("\n" + p + "\n", d)
  {
    NoOccurrenceInLines([h, ""], d);
    assert JoinWith([h, ""], "\n") == h + "\n";
    NoOccurrenceInLines(["", p, ""], d);
    assert JoinWith(["", p, ""], "\n") == "\n" + p + "\n";
  }

  /**
   * The delimiter `--boundary` occurs exactly twice in the message: once opening the
   * body part (the part headers, then the page, see `PartText`), and once as the closing
   * delimiter `--boundary--` that ends the message. This holds whenever the title, the
   * date and the page do not themselves contain the delimiter.
   */
  lemma DelimiterStructure(title: string, date: string, nonce: Nonce, html: string)
    requires !Contains(title, "--" + Boundary(nonce))
    requires !Contains(date, "--" + Boundary(nonce))
    requires !Contains(html, "--" + Boundary(nonce))
    ensures var b := Boundary(nonce);
      Split(MhtmlText(title, date, b, html), "--" + b)
      == [ JoinWith(HeaderLines(title, date, b), "\n") + "\n",
           "\n" + JoinWith(PartLines(html), "\n") + "\n",
           "--\n" ]
  {
    var b := Boundary(nonce);
    var d := "--" + b;
    var hl := HeaderLines(title, date, b);
    var pl := PartLines(html);
    DelimiterChars(nonce);
    HeaderLinesAvoid(title, date, nonce);
    NoOccurrenceInLines(hl, d);
    PartLinesAvoid(html, nonce);
    NoOccurrenceInLines(pl, d);
    FramedAvoids(JoinWith(hl, "\n"), JoinWith(pl, "\n"), d);
    MhtmlTextParts(title, date, b, html);
    SplitDelimited(JoinWith(hl, "\n") + "\n", "\n" + JoinWith(pl, "\n") + "\n", d);
  }
}
