/**
 `LinkReader`: a line reader that returns, for each physical line holding
 at least one complete `<a ... </a>` anchor, the anchors of that line
 joined with newlines; the charset lookup of the `Content-Type` header;
 and `getLinks`, which flattens everything the reader returns into one
 list.

 The network and the byte decoding are not modelled: the response body is
 given as its sequence of physical lines, as `BufferedReader.readLine`
 delivers them (so no line holds a `'\n'`).
 */
module LinkReader {
  import opened Wrappers
  import opened JavaText

  const Open: string := "<a"
  const Close: string := "</a>"

  /**
   One anchor found on a line: `begin` is where its `<a` starts and `close`
   where its `</a>` starts, so the markup is `line[begin..close + |Close|]`.
   */
  datatype Span = Span(begin: nat, close: nat)

  predicate IsAnchorSpan(line: string, sp: Span) {
    sp.begin + |Open| <= sp.close && OccursAt(line, Open, sp.begin) && OccursAt(line, Close, sp.close)
  }

  /** Some `<a` on the line has a `</a>` somewhere after it. */
  ghost predicate HasCompleteAnchor(line: string) {
    exists b, c :: OccursAt(line, Open, b) && b < c && OccursAt(line, Close, c)
  }

  /** No `<a` can start inside a `</a>`. */
  lemma CloseExcludesOpen(line: string, c: int)
    requires OccursAt(line, Close, c)
    ensures forall b :: c <= b < c + |Close| ==> !OccursAt(line, Open, b)
  {
    assert line[c..c + 4] == Close;
    assert line[c + 1] == '/' && line[c + 2] == 'a' && line[c + 3] == '>';
  }

  /** No `</a>` can start on the `a` of an `<a`. */
  lemma OpenExcludesClose(line: string, b: int)
    requires OccursAt(line, Open, b)
    ensures !OccursAt(line, Close, b + 1)
  {
    assert line[b..b + 2] == Open;
    assert line[b + 1] == 'a';
  }

  /** `pat` occurs nowhere in `line` at a position from `lo` up to (excluding) `hi`. */
  predicate NoneAt(line: string, pat: string, lo: int, hi: int) {
    forall k :: lo <= k < hi ==> !OccursAt(line, pat, k)
  }

  /** Putting the first anchor found in front of the anchors found after it keeps them anchors, disjoint and in order. */
  lemma ConsKeepsOrder(line: string, last: int, begin: nat, close: nat, rest: seq<Span>)
    requires -1 <= last
    requires begin + |Open| <= close && OccursAt(line, Open, begin) && OccursAt(line, Close, close) && last < begin
    requires forall i :: 0 <= i < |rest| ==> IsAnchorSpan(line, rest[i]) && close < rest[i].begin
    requires forall i, j :: 0 <= i < j < |rest| ==> rest[i].close + |Close| <= rest[j].begin
    ensures forall i :: 0 <= i < |[Span(begin, close)] + rest| ==> IsAnchorSpan(line, ([Span(begin, close)] + rest)[i]) && last < ([Span(begin, close)] + rest)[i].begin
    ensures forall i, j :: 0 <= i < j < |[Span(begin, close)] + rest| ==> ([Span(begin, close)] + rest)[i].close + |Close| <= ([Span(begin, close)] + rest)[j].begin
  {
    var spans := [Span(begin, close)] + rest;
    CloseExcludesOpen(line, close);
    forall i | 0 <= i < |spans|
      ensures IsAnchorSpan(line, spans[i]) && last < spans[i].begin
    {
      if i > 0 {
        assert spans[i] == rest[i - 1];
      }
    }
    forall i, j | 0 <= i < j < |spans|
      ensures spans[i].close + |Close| <= spans[j].begin
    {
      assert spans[j] == rest[j - 1];
      if i == 0 {
        assert IsAnchorSpan(line, rest[j - 1]) && close < rest[j - 1].begin;
      } else {
        assert spans[i] == rest[i - 1];
      }
    }
  }

  /** Putting the first anchor found in front of the anchors found after it keeps each of them the first one found. */
  lemma ConsKeepsFirst(line: string, last: int, begin: nat, close: nat, rest: seq<Span>)
    requires -1 <= last
    requires NoneAt(line, Open, last + 1, begin) && NoneAt(line, Close, begin + 1, close)
    requires forall i :: 0 <= i < |rest| ==> NoneAt(line, Close, rest[i].begin + 1, rest[i].close)
    requires forall i {:trigger rest[i]} :: 0 <= i < |rest| ==> NoneAt(line, Open, if i == 0 then close + 1 else rest[i - 1].close + 1, rest[i].begin)
    ensures forall i :: 0 <= i < |[Span(begin, close)] + rest| ==> NoneAt(line, Close, ([Span(begin, close)] + rest)[i].begin + 1, ([Span(begin, close)] + rest)[i].close)
    ensures forall i :: 0 <= i < |[Span(begin, close)] + rest| ==> NoneAt(line, Open, if i == 0 then last + 1 else ([Span(begin, close)] + rest)[i - 1].close + 1, ([Span(begin, close)] + rest)[i].begin)
  {
    var spans := [Span(begin, close)] + rest;
    forall i | 0 <= i < |spans|
      ensures NoneAt(line, Close, spans[i].begin + 1, spans[i].close)
      ensures NoneAt(line, Open, if i == 0 then last + 1 else spans[i - 1].close + 1, spans[i].begin)
    {
      if i == 1 {
        assert spans[1] == rest[0] && spans[0].close == close;
        assert NoneAt(line, Open, close + 1, rest[0].begin);
      } else if i > 1 {
        assert spans[i] == rest[i - 1] && spans[i - 1] == rest[i - 2];
        assert NoneAt(line, Open, rest[i - 2].close + 1, rest[i - 1].begin);
      }
    }
  }

  /** One round of the scan: the anchor it finds, put in front of the ones found after it, keeps the promise. */
  lemma ScanStep(line: string, last: int, begin: int, close: int, rest: seq<Span>)
    requires -1 <= last
    requires begin == IndexOf(line, Open, last + 1) && begin != -1
    requires close == IndexOf(line, Close, begin + 1) && close != -1
    requires forall i :: 0 <= i < |rest| ==> IsAnchorSpan(line, rest[i]) && close < rest[i].begin
    requires forall i, j :: 0 <= i < j < |rest| ==> rest[i].close + |Close| <= rest[j].begin
    requires forall i :: 0 <= i < |rest| ==> NoneAt(line, Close, rest[i].begin + 1, rest[i].close)
    requires forall i :: 0 <= i < |rest| ==> NoneAt(line, Open, if i == 0 then close + 1 else rest[i - 1].close + 1, rest[i].begin)
    ensures var spans := [Span(begin, close)] + rest;
      && (forall i :: 0 <= i < |spans| ==> IsAnchorSpan(line, spans[i]) && last < spans[i].begin)
      && (forall i, j :: 0 <= i < j < |spans| ==> spans[i].close + |Close| <= spans[j].begin)
      && (forall i :: 0 <= i < |spans| ==> NoneAt(line, Close, spans[i].begin + 1, spans[i].close))
      && (forall i :: 0 <= i < |spans| ==> NoneAt(line, Open, if i == 0 then last + 1 else spans[i - 1].close + 1, spans[i].begin))
  {
    OpenExcludesClose(line, begin);
    ConsKeepsOrder(line, last, begin, close, rest);
    ConsKeepsFirst(line, last, begin, close, rest);
  }

  /**
   The loop of `searchLinks` from the point where the last `</a>` found
   starts at `last` (-1 before the first): look for `<a` after `last`, then
   for `</a>` after that `<a`; stop when either is missing.
   */
  function ScanFrom(line: string, last: int): (spans: seq<Span>)
    requires -1 <= last
    ensures forall i :: 0 <= i < |spans| ==> IsAnchorSpan(line, spans[i]) && last < spans[i].begin
    ensures forall i, j :: 0 <= i < j < |spans| ==> spans[i].close + |Close| <= spans[j].begin
    ensures forall i :: 0 <= i < |spans| ==> NoneAt(line, Close, spans[i].begin + 1, spans[i].close)
    ensures forall i :: 0 <= i < |spans| ==> NoneAt(line, Open, if i == 0 then last + 1 else spans[i - 1].close + 1, spans[i].begin)
    decreases |line| - last
  {
    var begin := IndexOf(line, Open, last + 1);
    if begin == -1 then []
    else
      var close := IndexOf(line, Close, begin + 1);
      if close == -1 then []
      else
        var rest := ScanFrom(line, close);
        ScanStep(line, last, begin, close, rest);
        [Span(begin, close)] + rest
  }

  /** The anchors of one line, left to right. */
  function Spans(line: string): seq<Span> {
    ScanFrom(line, -1)
  }

  /** Anchor markup as `searchLinks` cuts it out: starts with `<a`, ends with `</a>`. */
  predicate IsAnchorText(f: string) {
    |f| >= |Open| + |Close| && StartsWith(f, Open) && EndsWith(f, Close)
  }

  /**
   The markup of each anchor of the line, in order: fragment `i` is the text
   of the line at span `i`, from its `<a` through its `</a>`.
   */
  function Fragments(line: string): (frags: seq<string>)
    ensures |frags| == |Spans(line)|
    ensures forall i :: 0 <= i < |frags| ==>
              && IsAnchorText(frags[i])
              && OccursAt(line, frags[i], Spans(line)[i].begin)
              && |frags[i]| == Spans(line)[i].close + |Close| - Spans(line)[i].begin
  {
    var spans := Spans(line);
    seq(|spans|, i requires 0 <= i < |spans| => line[spans[i].begin..spans[i].close + |Close|])
  }

  /** A fragment has no character its line does not have; in particular no `'\n'`. */
  lemma FragmentCharsFromLine(line: string, i: int, x: char)
    requires 0 <= i < |Fragments(line)| && x in Fragments(line)[i]
    ensures x in line
  {
    var f := Fragments(line)[i];
    var b := Spans(line)[i].begin;
    var k :| 0 <= k < |f| && f[k] == x;
    assert line[b..b + |f|][k] == x;
  }

  /**
   `searchLinks(line)`: `null` for a `null` line; otherwise the anchors of
   the line joined with `'\n'`, or `null` when the joined text is empty.
   */
  function SearchLinks(line: Option<string>): (r: Option<string>)
    ensures line.None? ==> r.None?
    ensures line.Some? ==> (r.None? <==> Fragments(line.value) == [])
  {
    if line.None? then None
    else
      var frags := Fragments(line.value);
      var joined := Join(frags, '\n');
      JoinEmptyIff(frags, '\n');
      if |joined| == 0 then None else Some(joined)
  }

  /**
   When an `<a` at `p` has a `</a>` at `c` after it and the scan starts
   before `p`, the scan finds a first anchor opening no later than `p` and
   closing no later than `c`, and resumes after that anchor's `</a>`.
   */
  lemma FirstSpanBefore(line: string, last: int, p: int, c: int)
    requires -1 <= last < p
    requires OccursAt(line, Open, p) && p < c && OccursAt(line, Close, c)
    ensures var spans := ScanFrom(line, last);
            && spans != [] && spans[0].begin <= p && spans[0].close <= c
            && spans == [spans[0]] + ScanFrom(line, spans[0].close)
  {
    var begin := IndexOf(line, Open, last + 1);
    assert begin != -1 && begin <= p;
    var close := IndexOf(line, Close, begin + 1);
    assert close != -1 && close <= c;
  }

  /** Some span of `spans` reaches from its `<a` at or before `p` to its `</a>` after `p`. */
  predicate Covers(spans: seq<Span>, p: int) {
    exists i :: 0 <= i < |spans| && spans[i].begin <= p < spans[i].close + |Close|
  }

  lemma CoversCons(s: Span, rest: seq<Span>, p: int)
    requires Covers(rest, p)
    ensures Covers([s] + rest, p)
  {
    var i :| 0 <= i < |rest| && rest[i].begin <= p < rest[i].close + |Close|;
    assert ([s] + rest)[i + 1] == rest[i];
  }

  /** Whatever an `<a` and a later `</a>` on the line enclose, the opening lies inside a returned anchor. */
  lemma {:induction false} ScanFromCovers(line: string, last: int, p: int, c: int)
    requires -1 <= last < p
    requires OccursAt(line, Open, p) && p < c && OccursAt(line, Close, c)
    ensures Covers(ScanFrom(line, last), p)
    decreases |line| - last
  {
    var spans := ScanFrom(line, last);
    FirstSpanBefore(line, last, p, c);
    var close := spans[0].close;
    if p >= close + |Close| {
      ScanFromCovers(line, close, p, c);
      CoversCons(spans[0], ScanFrom(line, close), p);
    } else {
      assert spans[0].begin <= p < spans[0].close + |Close|;
    }
  }

  /**
   No complete anchor is lost: every `<a` followed later on the line by a
   `</a>` lies inside one of the returned anchors (the first one or one
   nested in an anchor's text).
   */
  lemma CompleteAnchorsAreCovered(line: string, p: int, c: int)
    requires OccursAt(line, Open, p) && p < c && OccursAt(line, Close, c)
    ensures exists i :: 0 <= i < |Spans(line)| && Spans(line)[i].begin <= p < Spans(line)[i].close + |Close|
  {
    ScanFromCovers(line, -1, p, c);
    var i :| 0 <= i < |ScanFrom(line, -1)| &&
             ScanFrom(line, -1)[i].begin <= p < ScanFrom(line, -1)[i].close + |Close|;
    assert Spans(line)[i] == ScanFrom(line, -1)[i];
  }

  /** `searchLinks` answers `null` exactly when the line holds no `<a` with a `</a>` after it. */
  lemma SearchLinksNullIff(line: string)
    ensures SearchLinks(Some(line)).None? <==> !HasCompleteAnchor(line)
  {
    var spans := Spans(line);
    if HasCompleteAnchor(line) {
      var b, c :| OccursAt(line, Open, b) && b < c && OccursAt(line, Close, c);
      CompleteAnchorsAreCovered(line, b, c);
    }
    if spans != [] {
      assert OccursAt(line, Open, spans[0].begin) && OccursAt(line, Close, spans[0].close);
    }
  }

  /**
   An `<a` with no `</a>` after it ends the scan of its line: every anchor
   returned for the line ends at or before that `<a`, so anchors later on
   the same line are not returned.
   */
  lemma UnclosedOpeningEndsScan(line: string, p: int)
    requires OccursAt(line, Open, p)
    requires forall c :: p < c ==> !OccursAt(line, Close, c)
    ensures forall i :: 0 <= i < |Spans(line)| ==> Spans(line)[i].close + |Close| <= p
  {
    var spans := Spans(line);
    forall i | 0 <= i < |spans|
      ensures spans[i].close + |Close| <= p
    {
      assert IsAnchorSpan(line, spans[i]);
      assert OccursAt(line, Close, spans[i].close);
      OpenExcludesClose(line, p);
      CloseExcludesOpen(line, spans[i].close);
    }
  }

  /** The physical lines of a character stream, and whether reading past the last one throws an `IOException`. */
  datatype LineStream = LineStream(lines: seq<string>, failsAtEnd: bool)

  /** What one call of the overridden `readLine` does. */
  datatype ReadOutcome =
    | Read(value: string, rest: LineStream)  // a joined anchor line, and the stream after it
    | Exhausted                               // `null`: the underlying lines ran out
    | Failed                                  // the underlying reader threw an `IOException`

  /** None of the lines holds a complete anchor. */
  predicate Silent(lines: seq<string>) {
    forall i :: 0 <= i < |lines| ==> SearchLinks(Some(lines[i])).None?
  }

  /** A line in front of a stretch: silent together exactly when silent each. */
  lemma SilentCons(line: string, lines: seq<string>)
    ensures Silent([line] + lines) <==> SearchLinks(Some(line)).None? && Silent(lines)
  {
    assert ([line] + lines)[0] == line;
    assert forall i :: 0 <= i < |lines| ==> ([line] + lines)[i + 1] == lines[i];
  }

  /**
   `readLine`: skip physical lines for which `searchLinks` gives `null`; the
   first one that gives text is consumed and its text returned. `null` only
   once the lines are used up.
   */
  function ReadLine(st: LineStream): (r: ReadOutcome)
    ensures r.Exhausted? <==> Silent(st.lines) && !st.failsAtEnd
    ensures r.Failed? <==> Silent(st.lines) && st.failsAtEnd
    ensures r.Read? ==> exists k :: && 0 <= k < |st.lines|
                                    && Silent(st.lines[..k])
                                    && SearchLinks(Some(st.lines[k])) == Some(r.value)
                                    && r.rest == LineStream(st.lines[k + 1..], st.failsAtEnd)
    decreases |st.lines|
  {
    if st.lines == [] then
      if st.failsAtEnd then Failed else Exhausted
    else
      var line := st.lines[0];
      var rest := st.(lines := st.lines[1..]);
      assert st.lines == [line] + rest.lines;
      match SearchLinks(Some(line))
      case Some(joined) =>
        assert st.lines[..0] == [];
        Read(joined, rest)
      case None =>
        var r := ReadLine(rest);
        ReadLineSkipsSilent(line, rest, r);
        r
  }

  /** Where a silent line is put in front, the line `readLine` stops at moves one further. */
  lemma ReadPositionShifts(line: string, lines: seq<string>, k: int, joined: string)
    requires SearchLinks(Some(line)).None?
    requires 0 <= k < |lines| && Silent(lines[..k]) && SearchLinks(Some(lines[k])) == Some(joined)
    ensures var all := [line] + lines;
            && Silent(all[..k + 1]) && SearchLinks(Some(all[k + 1])) == Some(joined)
            && all[k + 2..] == lines[k + 1..]
  {
    var all := [line] + lines;
    SilentCons(line, lines[..k]);
    assert all[..k + 1] == [line] + lines[..k];
    assert all[k + 1] == lines[k];
    assert all[k + 2..] == lines[k + 1..];
  }

  /** The outcome for the lines after a silent line is the outcome for the lines with it. */
  lemma ReadLineSkipsSilent(line: string, rest: LineStream, r: ReadOutcome)
    requires SearchLinks(Some(line)).None?
    requires r.Exhausted? <==> Silent(rest.lines) && !rest.failsAtEnd
    requires r.Failed? <==> Silent(rest.lines) && rest.failsAtEnd
    requires r.Read? ==> exists k :: && 0 <= k < |rest.lines|
                                     && Silent(rest.lines[..k])
                                     && SearchLinks(Some(rest.lines[k])) == Some(r.value)
                                     && r.rest == LineStream(rest.lines[k + 1..], rest.failsAtEnd)
    ensures var lines := [line] + rest.lines;
            && (r.Exhausted? <==> Silent(lines) && !rest.failsAtEnd)
            && (r.Failed? <==> Silent(lines) && rest.failsAtEnd)
            && (r.Read? ==> exists k :: && 0 <= k < |lines|
                                        && Silent(lines[..k])
                                        && SearchLinks(Some(lines[k])) == Some(r.value)
                                        && r.rest == LineStream(lines[k + 1..], rest.failsAtEnd))
  {
    SilentCons(line, rest.lines);
    if r.Read? {
      var k :| && 0 <= k < |rest.lines|
               && Silent(rest.lines[..k])
               && SearchLinks(Some(rest.lines[k])) == Some(r.value)
               && r.rest == LineStream(rest.lines[k + 1..], rest.failsAtEnd);
      ReadPositionShifts(line, rest.lines, k, r.value);
      assert 0 <= k + 1 < |[line] + rest.lines|;
    }
  }

  /** What `getLinks` adds to its result for one joined line: `line.split("\n")`. */
  function LineLinks(line: string): seq<string> {
    match SearchLinks(Some(line))
    case None => []
    case Some(joined) => Split(joined, '\n')
  }

  /** The links `getLinks` collects from the lines, line by line. */
  function LinksOf(lines: seq<string>): seq<string>
    decreases |lines|
  {
    if lines == [] then [] else LineLinks(lines[0]) + LinksOf(lines[1..])
  }

  /** The anchors of all lines, flattened in order. */
  function ConcatFragments(lines: seq<string>): seq<string>
    decreases |lines|
  {
    if lines == [] then [] else Fragments(lines[0]) + ConcatFragments(lines[1..])
  }

  predicate NoNewlines(lines: seq<string>) {
    forall i :: 0 <= i < |lines| ==> '\n' !in lines[i]
  }

  /** Nothing carries over between lines: the links of two stretches of lines are the links of each. */
  lemma {:induction false} LinksOfAppend(a: seq<string>, b: seq<string>)
    ensures LinksOf(a + b) == LinksOf(a) + LinksOf(b)
    decreases |a|
  {
    if a != [] {
      assert (a + b)[0] == a[0];
      assert (a + b)[1..] == a[1..] + b;
      LinksOfAppend(a[1..], b);
    } else {
      assert a + b == b;
    }
  }

  lemma SilentTail(lines: seq<string>)
    requires lines != [] && Silent(lines)
    ensures Silent(lines[1..])
  {
    assert forall i :: 0 <= i < |lines[1..]| ==> lines[1..][i] == lines[i + 1];
  }

  /** Lines without a complete anchor contribute nothing. */
  lemma {:induction false} LinksOfSilent(lines: seq<string>)
    requires Silent(lines)
    ensures LinksOf(lines) == []
    decreases |lines|
  {
    if lines != [] {
      SilentTail(lines);
      LinksOfSilent(lines[1..]);
    }
  }

  /**
   For a line without `'\n'`, splitting the joined anchors on `'\n'` gives
   back exactly the anchors, in order.
   */
  lemma LineLinksAreFragments(line: string)
    requires '\n' !in line
    ensures LineLinks(line) == Fragments(line)
  {
    var frags := Fragments(line);
    if frags != [] {
      forall i | 0 <= i < |frags|
        ensures '\n' !in frags[i]
      {
        if '\n' in frags[i] {
          FragmentCharsFromLine(line, i, '\n');
        }
      }
      SplitJoin(frags, '\n');
    }
  }

  /** The split-and-flatten loop of `getLinks` yields exactly the per-line anchors, concatenated in line order. */
  lemma {:induction false} LinksOfIsConcatFragments(lines: seq<string>)
    requires NoNewlines(lines)
    ensures LinksOf(lines) == ConcatFragments(lines)
    decreases |lines|
  {
    if lines != [] {
      LineLinksAreFragments(lines[0]);
      assert NoNewlines(lines[1..]) by {
        forall i | 0 <= i < |lines[1..]|
          ensures '\n' !in lines[1..][i]
        {
          assert lines[1..][i] == lines[i + 1];
        }
      }
      LinksOfIsConcatFragments(lines[1..]);
    }
  }

  /**
   What one successful `readLine` contributes: the lines it skipped give
   nothing, the line it returned gives the pieces of its text.
   */
  lemma {:induction false} LinksOfReadStep(lines: seq<string>, k: int, joined: string)
    requires 0 <= k < |lines| && Silent(lines[..k])
    requires SearchLinks(Some(lines[k])) == Some(joined)
    ensures LinksOf(lines) == Split(joined, '\n') + LinksOf(lines[k + 1..])
    decreases k
  {
    if k > 0 {
      assert lines[..k][0] == lines[0];
      assert lines[1..][..k - 1] == lines[..k][1..];
      SilentTail(lines[..k]);
      LinksOfReadStep(lines[1..], k - 1, joined);
      assert lines[1..][k - 1 + 1..] == lines[k + 1..];
    }
  }

  /** One call of `readLine` inside `getLinks`: what it returns plus what remains gives everything. */
  lemma ReadLineProgress(st: LineStream)
    ensures ReadLine(st).Read? ==>
              && LinksOf(st.lines) == Split(ReadLine(st).value, '\n') + LinksOf(ReadLine(st).rest.lines)
              && |ReadLine(st).rest.lines| < |st.lines|
              && ReadLine(st).rest.failsAtEnd == st.failsAtEnd
    ensures !ReadLine(st).Read? ==> LinksOf(st.lines) == []
  {
    var next := ReadLine(st);
    if next.Read? {
      var k :| && 0 <= k < |st.lines|
               && Silent(st.lines[..k])
               && SearchLinks(Some(st.lines[k])) == Some(next.value)
               && next.rest == LineStream(st.lines[k + 1..], st.failsAtEnd);
      LinksOfReadStep(st.lines, k, next.value);
    } else {
      LinksOfSilent(st.lines);
    }
  }

  const CharsetKey: string := "charset="

  /** `contentType.replace(" ", "").split(";")`: the header's parameters with every space removed. */
  function Parameters(contentType: string): (params: seq<string>)
    ensures forall i :: 0 <= i < |params| ==> ' ' !in params[i] && ';' !in params[i]
  {
    SplitKeepsAbsent(RemoveChar(contentType, ' '), ';', ' ');
    Split(RemoveChar(contentType, ' '), ';')
  }

  /** `param.split("=", 2)[1]` of a `charset=` parameter is everything after `charset=`. */
  lemma CharsetValue(param: string)
    requires StartsWith(param, CharsetKey)
    ensures '=' in param
    ensures |SplitLimit2(param, '=')| == 2 && SplitLimit2(param, '=')[1] == param[|CharsetKey|..]
  {
    assert param[..8] == CharsetKey;
    assert param[7] == '=';
    var parts := SplitLimit2(param, '=');
    assert forall j :: 0 <= j < 7 ==> param[j] == CharsetKey[j] != '=';
    assert param[|parts[0]|] == '=';
    assert |parts[0]| == 7;
    assert param[8..] == parts[1];
  }

  /** The loop of `getCharset` over the parameters: the value of the first `charset=` parameter. */
  function FindCharset(params: seq<string>): (r: Option<string>)
    ensures r.None? <==> forall i :: 0 <= i < |params| ==> !StartsWith(params[i], CharsetKey)
    ensures r.Some? ==> exists i :: && 0 <= i < |params|
                                    && StartsWith(params[i], CharsetKey)
                                    && r.value == params[i][|CharsetKey|..]
                                    && forall j :: 0 <= j < i ==> !StartsWith(params[j], CharsetKey)
    decreases |params|
  {
    if params == [] then None
    else if StartsWith(params[0], CharsetKey) then
      CharsetValue(params[0]);
      Some(SplitLimit2(params[0], '=')[1])
    else
      var r := FindCharset(params[1..]);
      if r.Some? then
        var i :| && 0 <= i < |params[1..]|
                 && StartsWith(params[1..][i], CharsetKey)
                 && r.value == params[1..][i][|CharsetKey|..]
                 && forall j :: 0 <= j < i ==> !StartsWith(params[1..][j], CharsetKey);
        assert params[i + 1] == params[1..][i];
        r
      else
        assert forall i :: 1 <= i < |params| ==> params[i] == params[1..][i - 1];
        r
  }

  /**
   `getCharset(contentType)`: `null` for a missing header or when no
   space-stripped, `;`-separated parameter starts with `charset=`
   (case-sensitively); otherwise the text after `charset=` of the first such
   parameter, which holds neither a space nor a `;`.
   */
  function GetCharset(contentType: Option<string>): (r: Option<string>)
    ensures contentType.None? ==> r.None?
    ensures contentType.Some? ==>
              (r.None? <==> forall i :: 0 <= i < |Parameters(contentType.value)| ==>
                                         !StartsWith(Parameters(contentType.value)[i], CharsetKey))
    ensures r.Some? ==> ' ' !in r.value && ';' !in r.value
    ensures contentType.Some? && r.Some? ==>
              exists i :: && 0 <= i < |Parameters(contentType.value)|
                          && StartsWith(Parameters(contentType.value)[i], CharsetKey)
                          && r.value == Parameters(contentType.value)[i][|CharsetKey|..]
                          && forall j :: 0 <= j < i ==> !StartsWith(Parameters(contentType.value)[j], CharsetKey)
  {
    match contentType
    case None => None
    case Some(header) =>
      var params := Parameters(header);
      var r := FindCharset(params);
      if r.Some? then
        var i :| 0 <= i < |params| && StartsWith(params[i], CharsetKey) && r.value == params[i][|CharsetKey|..];
        assert forall x :: x in r.value ==> x in params[i];
        r
      else
        r
  }

  /**
   The names `java.nio.charset.Charset` accepts: not empty, made of ASCII
   letters, digits and `- + : _ .`, the five punctuation marks never first.
   */
  predicate IsLegalCharsetName(name: string) {
    && |name| > 0
    && forall i :: 0 <= i < |name| ==>
         || 'A' <= name[i] <= 'Z' || 'a' <= name[i] <= 'z' || '0' <= name[i] <= '9'
         || (i > 0 && name[i] in "-+:_.")
  }

  /**
   Whether `new InputStreamReader(in, charset)` succeeds: always for the
   platform default, and for a named charset when the name is legal and the
   platform has that charset (`available`, a property of the platform).
   Otherwise it throws `UnsupportedEncodingException`, an `IOException`.
   */
  predicate DecoderOpens(charset: Option<string>, available: string -> bool) {
    charset.None? || (IsLegalCharsetName(charset.value) && available(charset.value))
  }

  lemma AppendAssoc<T>(a: seq<T>, b: seq<T>, c: seq<T>)
    ensures a + b + c == a + (b + c)
  {
  }

  /** The HTTP exchange `getLinks` performs, with its failures. */
  datatype Connection =
    | Unreachable                                            // malformed URL or the connection could not be opened
    | Connected(contentType: Option<string>, body: LineStream)

  /**
   The loop of `getLinks`: read joined anchor lines until `readLine` answers
   `null` or throws, appending the pieces of each split on `'\n'`. Either
   way the list built so far is what remains.
   */
  method CollectLinks(body: LineStream) returns (links: seq<string>)
    ensures links == LinksOf(body.lines)
  {
    links := [];
    var st := body;
    while true
      invariant links + LinksOf(st.lines) == LinksOf(body.lines)
      decreases |st.lines|
    {
      var next := ReadLine(st);
      ReadLineProgress(st);
      if !next.Read? {
        break;
      }
      AppendAssoc(links, Split(next.value, '\n'), LinksOf(next.rest.lines));
      links := links + Split(next.value, '\n');
      st := next.rest;
    }
  }

  /**
   `getLinks(url)`: no link when the URL cannot be opened or its charset
   cannot be decoded (both `IOException`s, swallowed); otherwise the links
   the reading loop collects.
   */
  method GetLinks(conn: Connection, available: string -> bool) returns (links: seq<string>)
    ensures conn.Unreachable? ==> links == []
    ensures conn.Connected? && !DecoderOpens(GetCharset(conn.contentType), available) ==> links == []
    ensures conn.Connected? && DecoderOpens(GetCharset(conn.contentType), available) ==>
              links == LinksOf(conn.body.lines)
    ensures conn.Connected? && DecoderOpens(GetCharset(conn.contentType), available) && NoNewlines(conn.body.lines) ==>
              links == ConcatFragments(conn.body.lines)
  {
    if conn.Unreachable? {
      return [];
    }
    var charset := GetCharset(conn.contentType);
    if !DecoderOpens(charset, available) {
      return [];
    }
    links := CollectLinks(conn.body);
    if NoNewlines(conn.body.lines) {
      LinksOfIsConcatFragments(conn.body.lines);
    }
  }
}
