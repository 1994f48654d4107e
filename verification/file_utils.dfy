/**
 `FileUtils.loadPages`: each catalog line is trimmed, kept only when it holds
 a `;`, cut at its first `;`, kept only when the (untrimmed) part after the
 `;` matches `URL_REGEX`, and turned into a `WebPage` from the trimmed parts.

 The file itself is not modelled: the catalog is given as its sequence of
 physical lines, together with the way reading it can fail.
 */
module FileUtils {
  import opened Wrappers
  import opened JavaText
  import opened WebPages

  predicate IsAsciiLetter(c: char) {
    'A' <= c <= 'Z' || 'a' <= c <= 'z'
  }

  /** The class `[a-zA-Z0-9.-]` of `URL_REGEX`. */
  predicate IsHostChar(c: char) {
    IsAsciiLetter(c) || '0' <= c <= '9' || c == '.' || c == '-'
  }

  /** The characters `.` in a `java.util.regex` pattern does not match (no DOTALL flag). */
  predicate IsLineTerminator(c: char) {
    c == '\n' || c == '\r' || c == '\U{85}' || c == '\U{2028}' || c == '\U{2029}'
  }

  predicate AllHostChars(s: string) {
    forall k :: 0 <= k < |s| ==> IsHostChar(s[k])
  }

  predicate AllLetters(s: string) {
    forall k :: 0 <= k < |s| ==> IsAsciiLetter(s[k])
  }

  predicate NoLineTerminator(s: string) {
    forall k :: 0 <= k < |s| ==> !IsLineTerminator(s[k])
  }

  /**
   What follows `://` in `URL_REGEX`: `[a-zA-Z0-9.-]+\.[a-zA-Z]{2,}.*$`, read
   with backtracking as "some split of `r` into a non-empty host, a dot, at
   least two letters, and a tail free of line terminators".
   */
  ghost predicate HostTldTail(r: string) {
    exists i, j :: && 0 < i && i + 3 <= j <= |r|
                   && AllHostChars(r[..i]) && r[i] == '.'
                   && AllLetters(r[i + 1..j]) && NoLineTerminator(r[j..])
  }

  /** `s.matches("^(http|https)://[a-zA-Z0-9.-]+\\.[a-zA-Z]{2,}.*$")`, the whole string matching. */
  ghost predicate UrlPattern(s: string) {
    || (StartsWith(s, "http://") && HostTldTail(s[7..]))
    || (StartsWith(s, "https://") && HostTldTail(s[8..]))
  }

  /** A dot followed by two letters at position `i`: a top-level label may start after it. */
  predicate IsTldStart(r: string, i: int) {
    0 <= i && i + 3 <= |r| && r[i] == '.' && IsAsciiLetter(r[i + 1]) && IsAsciiLetter(r[i + 2])
  }

  /**
   Walk the host characters of `r` from `i` on, looking for a dot followed
   by two letters with only host characters before it.
   */
  function ScanHost(r: string, i: nat): (found: bool)
    requires 1 <= i <= |r| && AllHostChars(r[..i])
    ensures found <==> exists d :: i <= d && IsTldStart(r, d) && AllHostChars(r[..d])
    decreases |r| - i
  {
    if i + 3 > |r| then false
    else if IsTldStart(r, i) then true
    else if !IsHostChar(r[i]) then
      assert forall d :: i < d <= |r| ==> r[..d][i] == r[i];
      false
    else
      assert r[..i + 1] == r[..i] + [r[i]];
      ScanHost(r, i + 1)
  }

  /** The executable test of what follows `://`. */
  function MatchesHostTldTail(r: string): (ok: bool)
    ensures ok <==> HostTldTail(r)
  {
    var ok := |r| > 0 && IsHostChar(r[0]) && ScanHost(r, 1) && NoLineTerminator(r);
    HostTldTailIff(r);
    ok
  }

  lemma HostTldTailIff(r: string)
    ensures HostTldTail(r) <==> |r| > 0 && IsHostChar(r[0]) && ScanHost(r, 1) && NoLineTerminator(r)
  {
    if |r| > 0 && IsHostChar(r[0]) && ScanHost(r, 1) && NoLineTerminator(r) {
      var d :| 1 <= d && IsTldStart(r, d) && AllHostChars(r[..d]);
      TldWitness(r, d);
    }
    if HostTldTail(r) {
      var i, j :| && 0 < i && i + 3 <= j <= |r|
                  && AllHostChars(r[..i]) && r[i] == '.'
                  && AllLetters(r[i + 1..j]) && NoLineTerminator(r[j..]);
      HostTldTailParts(r, i, j);
    }
  }

  /** A dot with two letters after a host gives a match; the rest of the line is the tail. */
  lemma TldWitness(r: string, d: int)
    requires 1 <= d && IsTldStart(r, d) && AllHostChars(r[..d]) && NoLineTerminator(r)
    ensures HostTldTail(r)
  {
    assert AllLetters(r[d + 1..d + 3]);
    assert NoLineTerminator(r[d + 3..]);
  }

  /** The pieces of a match: host first character, the dot-letters position, and no line terminator anywhere. */
  lemma HostTldTailParts(r: string, i: int, j: int)
    requires && 0 < i && i + 3 <= j <= |r|
             && AllHostChars(r[..i]) && r[i] == '.'
             && AllLetters(r[i + 1..j]) && NoLineTerminator(r[j..])
    ensures |r| > 0 && IsHostChar(r[0]) && ScanHost(r, 1) && NoLineTerminator(r)
  {
    assert r[..i][0] == r[0];
    assert r[i + 1..j][0] == r[i + 1] && r[i + 1..j][1] == r[i + 2];
    assert IsTldStart(r, i);
    assert r[..1] == [r[0]];
    forall k | 0 <= k < |r|
      ensures !IsLineTerminator(r[k])
    {
      if k < i {
        assert r[..i][k] == r[k];
      } else if i < k < j {
        assert r[i + 1..j][k - i - 1] == r[k];
      } else if j <= k {
        assert r[j..][k - j] == r[k];
      }
    }
  }

  /** The executable form of `parts[1].matches(URL_REGEX)`. */
  function MatchesUrlRegex(s: string): (ok: bool)
    ensures ok <==> UrlPattern(s)
  {
    if StartsWith(s, "http://") then
      assert !StartsWith(s, "https://") by {
        assert s[4] == ':';
      }
      MatchesHostTldTail(s[7..])
    else if StartsWith(s, "https://") then
      assert !StartsWith(s, "http://") by {
        assert s[4] == 's';
      }
      MatchesHostTldTail(s[8..])
    else false
  }

  predicate IsHttpUrl(url: string) {
    StartsWith(url, "http://") || StartsWith(url, "https://")
  }

  /** `line.split(";", 2)` of a line holding a `;`: the text before and after its first `;`. */
  lemma SplitAtFirst(line: string, sep: char)
    requires sep in line
    ensures var k := IndexOfChar(line, sep);
            SplitLimit2(line, sep) == [line[..k], line[k + 1..]]
  {
  }

  /** A matching URL starts with `h`, so it neither is empty nor starts with a blank. */
  lemma MatchedUrlStartsWithH(u: string)
    requires MatchesUrlRegex(u)
    ensures IsHttpUrl(u) && u != [] && !IsBlank(u[0])
  {
    assert u[0] == 'h';
  }

  /** The tail after position `k` of a trimmed line is left alone by `trim` when it does not start with a blank. */
  lemma TrimmedTail(line: string, k: int)
    requires line == [] || (!IsBlank(line[0]) && !IsBlank(line[|line| - 1]))
    requires 0 <= k < |line| - 1 && !IsBlank(line[k + 1])
    ensures Trim(line[k + 1..]) == line[k + 1..]
  {
    var u := line[k + 1..];
    assert u[0] == line[k + 1];
    assert u[|u| - 1] == line[|line| - 1];
    TrimOfTrimmed(u);
  }

  /**
   The stages of the `loadPages` pipeline after `trim`, with the
   `URL_REGEX` test given as `urlOk`: keep a line holding a `;` whose text
   after the first `;` passes the test, as a page of the trimmed parts.
   */
  function PageOfTrimmed(line: string, urlOk: string -> bool): Option<WebPage> {
    if ';' !in line then None
    else
      var parts := SplitLimit2(line, ';');
      if |parts| == 2 && urlOk(parts[1]) then
        Some(NewWebPage(Trim(parts[0]), Trim(parts[1])))
      else
        None
  }

  /** One catalog line through the stream pipeline of `loadPages`: its page, or `None` when a filter drops it. */
  function ParseLine(raw: string): Option<WebPage> {
    PageOfTrimmed(Trim(raw), MatchesUrlRegex)
  }

  /**
   For a trimmed line and a URL test that only passes text starting with a
   non-blank: the line is kept exactly when it holds a `;` and the text
   after the first `;` passes, and the page is then the trimmed text before
   the `;` with the text after it.
   */
  lemma PageOfTrimmedSpec(line: string, urlOk: string -> bool)
    requires line == [] || (!IsBlank(line[0]) && !IsBlank(line[|line| - 1]))
    requires forall u :: urlOk(u) ==> u != [] && !IsBlank(u[0])
    ensures var k := IndexOfChar(line, ';');
            && (PageOfTrimmed(line, urlOk).Some? <==> k != -1 && urlOk(line[k + 1..]))
            && (PageOfTrimmed(line, urlOk).Some? ==>
                  PageOfTrimmed(line, urlOk).value == WebPage(Trim(line[..k]), line[k + 1..], []))
  {
    if ';' in line {
      var k := IndexOfChar(line, ';');
      var parts := SplitLimit2(line, ';');
      assert parts == [line[..k], line[k + 1..]] by {
        SplitAtFirst(line, ';');
      }
      if urlOk(parts[1]) {
        TrimmedTail(line, k);
      }
    }
  }

  /**
   A catalog line is kept exactly when the trimmed line holds a `;` and the
   raw text after its first `;` matches `URL_REGEX`. The page is named by
   the trimmed text before that `;`; its URL is the text after it, unchanged
   by `trim` because a match starts with `h` and the line was already
   trimmed; its link list is empty.
   */
  lemma ParseLineSpec(raw: string)
    ensures var line := Trim(raw); var k := IndexOfChar(line, ';');
            && (ParseLine(raw).Some? <==> k != -1 && UrlPattern(line[k + 1..]))
            && (ParseLine(raw).Some? ==> ParseLine(raw).value == WebPage(Trim(line[..k]), line[k + 1..], []))
  {
    forall u | MatchesUrlRegex(u)
      ensures u != [] && !IsBlank(u[0])
    {
      MatchedUrlStartsWithH(u);
    }
    PageOfTrimmedSpec(Trim(raw), MatchesUrlRegex);
  }

  /**
   The URL test sees the text after the `;` untrimmed, so a line with a
   blank (or nothing) right after its first `;` is dropped, whatever URL
   follows the blank.
   */
  lemma BlankAfterSemicolonDropped(raw: string)
    requires var line := Trim(raw); var k := IndexOfChar(line, ';');
             k != -1 && (k + 1 == |line| || IsBlank(line[k + 1]))
    ensures ParseLine(raw) == None
  {
    var line := Trim(raw);
    var k := IndexOfChar(line, ';');
    var u := line[k + 1..];
    if MatchesUrlRegex(u) {
      MatchedUrlStartsWithH(u);
      assert false;
    }
    ParseLineSpec(raw);
  }

  /** A kept line gives a page with an `http`/`https` URL, a name without `;`, and no links. */
  lemma ParsedPageWellFormed(raw: string)
    ensures ParseLine(raw).Some? ==>
              && IsHttpUrl(ParseLine(raw).value.pageUrl)
              && ';' !in ParseLine(raw).value.pageName
              && ParseLine(raw).value.linksPage == []
  {
    var line := Trim(raw);
    if ParseLine(raw).Some? {
      var k := IndexOfChar(line, ';');
      ParseLineSpec(raw);
      MatchedUrlStartsWithH(line[k + 1..]);
      TrimKeepsAbsent(line[..k], ';');
    }
  }

  /** The stream idiom `.map(f).filter(Optional::isPresent).map(get)`: keep the present results, in order. */
  function FilterMap<A, B>(f: A -> Option<B>, xs: seq<A>): (ys: seq<B>)
    ensures |ys| <= |xs|
    ensures forall m :: 0 <= m < |ys| ==> exists i :: 0 <= i < |xs| && f(xs[i]) == Some(ys[m])
    ensures forall i :: 0 <= i < |xs| && f(xs[i]).Some? ==> f(xs[i]).value in ys
    decreases |xs|
  {
    if xs == [] then []
    else
      var rest := FilterMap(f, xs[1..]);
      assert forall i :: 1 <= i < |xs| ==> xs[i] == xs[1..][i - 1];
      match f(xs[0])
      case Some(y) => [y] + rest
      case None => rest
  }

  /** The pages of the kept lines, in file order. */
  function ParseAll(lines: seq<string>): seq<WebPage> {
    FilterMap(ParseLine, lines)
  }

  /** The result is a filter-map: the pages of two stretches of lines are the pages of each, in order. */
  lemma {:induction false} FilterMapAppend<A, B>(f: A -> Option<B>, a: seq<A>, b: seq<A>)
    ensures FilterMap(f, a + b) == FilterMap(f, a) + FilterMap(f, b)
    decreases |a|
  {
    if a == [] {
      assert a + b == b;
    } else {
      assert (a + b)[0] == a[0];
      assert (a + b)[1..] == a[1..] + b;
      FilterMapAppend(f, a[1..], b);
    }
  }

  /** Splitting the catalog anywhere splits the loaded pages there: nothing carries over between lines, and file order is kept. */
  lemma ParseAllAppend(a: seq<string>, b: seq<string>)
    ensures ParseAll(a + b) == ParseAll(a) + ParseAll(b)
  {
    FilterMapAppend(ParseLine, a, b);
  }

  /** One line yields its page exactly when the pipeline keeps it, and nothing otherwise. */
  lemma ParseAllSingle(line: string)
    ensures ParseAll([line]) == (match ParseLine(line) case Some(p) => [p] case None => [])
  {
    assert [line][1..] == [];
  }

  /** Every loaded page has an `http`/`https` URL, a name without `;`, and no links yet. */
  lemma ParsedPagesWellFormed(lines: seq<string>)
    ensures forall m :: 0 <= m < |ParseAll(lines)| ==>
              && IsHttpUrl(ParseAll(lines)[m].pageUrl)
              && ';' !in ParseAll(lines)[m].pageName
              && ParseAll(lines)[m].linksPage == []
  {
    var pages := ParseAll(lines);
    forall m | 0 <= m < |pages|
      ensures IsHttpUrl(pages[m].pageUrl) && ';' !in pages[m].pageName && pages[m].linksPage == []
    {
      var i :| 0 <= i < |lines| && ParseLine(lines[i]) == Some(pages[m]);
      ParsedPageWellFormed(lines[i]);
    }
  }

  /** How reading the catalog can go. */
  datatype CatalogFile =
    | Unopenable                                  // `Files.lines` throws `IOException`
    | Opened(lines: seq<string>, readFails: bool) // `readFails`: reading the lines throws `UncheckedIOException`

  datatype LoadOutcome =
    | Loaded(pages: seq<WebPage>)
    | Escaped  // an `UncheckedIOException` propagates to the caller

  /**
   `loadPages(file)`: an `IOException` while opening gives the empty list; a
   read failure after opening surfaces as `UncheckedIOException`, which the
   `catch (IOException)` does not catch; otherwise every kept line, in
   order, as a well-formed page.
   */
  function LoadPages(file: CatalogFile): (r: LoadOutcome)
    ensures file.Unopenable? ==> r == Loaded([])
    ensures file.Opened? && file.readFails ==> r == Escaped
    ensures file.Opened? && !file.readFails ==>
              && r.Loaded?
              && |r.pages| <= |file.lines|
              && forall m :: 0 <= m < |r.pages| ==>
                   IsHttpUrl(r.pages[m].pageUrl) && ';' !in r.pages[m].pageName && r.pages[m].linksPage == []
    ensures file.Opened? && !file.readFails ==> r == Loaded(ParseAll(file.lines))
  {
    match file
    case Unopenable => Loaded([])
    case Opened(lines, readFails) =>
      if readFails then Escaped
      else
        ParsedPagesWellFormed(lines);
        Loaded(ParseAll(lines))
  }
}
