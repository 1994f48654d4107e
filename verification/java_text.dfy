/**
 The few `java.lang.String` operations the link tracker relies on, over
 strings as `seq<char>`: `indexOf`, `trim`, `split` (with and without a
 limit), `replace` of one character by nothing, and the joining done by
 `java.util.StringJoiner`.
 */
module JavaText {

  /** `pat` occurs in `s` starting at index `k`. */
  predicate OccursAt(s: string, pat: string, k: int) {
    0 <= k && k + |pat| <= |s| && s[k..k + |pat|] == pat
  }

  /** `s.startsWith(prefix)`. */
  predicate StartsWith(s: string, prefix: string) {
    OccursAt(s, prefix, 0)
  }

  /** `startsWith` holds exactly when the string is the prefix followed by something. */
  lemma StartsWithIffPrefix(s: string, prefix: string)
    ensures StartsWith(s, prefix) <==> exists t :: s == prefix + t
  {
    if StartsWith(s, prefix) {
      assert s == prefix + s[|prefix|..];
    }
    if exists t :: s == prefix + t {
      var t :| s == prefix + t;
      assert s[..|prefix|] == prefix;
    }
  }

  predicate EndsWith(s: string, suffix: string) {
    OccursAt(s, suffix, |s| - |suffix|)
  }

  /**
   `s.indexOf(pat, from)`: the least index at or after `from` (a negative
   `from` counts as 0) where `pat` occurs, or -1 when there is none.
   */
  function IndexOf(s: string, pat: string, from: int): (r: int)
    requires pat != []
    ensures r == -1 || (from <= r && OccursAt(s, pat, r))
    ensures forall k :: from <= k && (r == -1 || k < r) ==> !OccursAt(s, pat, k)
    decreases |s| - from
  {
    if from < 0 then IndexOf(s, pat, 0)
    else if from + |pat| > |s| then -1
    else if s[from..from + |pat|] == pat then from
    else IndexOf(s, pat, from + 1)
  }

  /** `s.indexOf(c)`: the first position of the character `c`, or -1. */
  function IndexOfChar(s: string, c: char): (r: int)
    ensures r == -1 <==> c !in s
    ensures r != -1 ==> 0 <= r < |s| && s[r] == c && c !in s[..r]
  {
    var r := IndexOf(s, [c], 0);
    assert forall k :: 0 <= k < |s| ==> (s[k] == c <==> OccursAt(s, [c], k)) by {
      forall k | 0 <= k < |s|
        ensures s[k] == c <==> OccursAt(s, [c], k)
      {
        assert s[k..k + 1] == [s[k]];
      }
    }
    r
  }

  /** `String.trim` removes every leading and trailing code point at or below U+0020. */
  predicate IsBlank(c: char) {
    c <= ' '
  }

  function TrimStart(s: string): (r: string)
    ensures |r| <= |s| && r == s[|s| - |r|..]
    ensures forall i :: 0 <= i < |s| - |r| ==> IsBlank(s[i])
    ensures r == [] || !IsBlank(r[0])
  {
    if |s| > 0 && IsBlank(s[0]) then TrimStart(s[1..]) else s
  }

  function TrimEnd(s: string): (r: string)
    ensures |r| <= |s| && r == s[..|r|]
    ensures forall i :: |r| <= i < |s| ==> IsBlank(s[i])
    ensures r == [] || !IsBlank(r[|r| - 1])
  {
    if |s| > 0 && IsBlank(s[|s| - 1]) then TrimEnd(s[..|s| - 1]) else s
  }

  /** `r` is the segment of `s` at offset `a`, and everything of `s` outside it is blank. */
  predicate IsBlankBordered(s: string, r: string, a: int) {
    && 0 <= a && a + |r| <= |s| && r == s[a..a + |r|]
    && (forall i :: 0 <= i < a ==> IsBlank(s[i]))
    && (forall i :: a + |r| <= i < |s| ==> IsBlank(s[i]))
  }

  /**
   `s.trim()`: the segment of `s` that neither starts nor ends with a blank,
   obtained by removing only blanks at both ends.
   */
  function Trim(s: string): (r: string)
    ensures r == [] || (!IsBlank(r[0]) && !IsBlank(r[|r| - 1]))
    ensures exists a :: IsBlankBordered(s, r, a)
  {
    var t := TrimStart(s);
    var r := TrimEnd(t);
    assert IsBlankBordered(s, r, |s| - |t|);
    r
  }

  /** A string that neither starts nor ends with a blank is left alone by `trim`. */
  lemma TrimOfTrimmed(s: string)
    requires s == [] || (!IsBlank(s[0]) && !IsBlank(s[|s| - 1]))
    ensures Trim(s) == s
  {
    var r := Trim(s);
    var a :| IsBlankBordered(s, r, a);
    if s != [] {
      assert a == 0;
      assert a + |r| == |s|;
    }
  }

  /** Trimming twice is trimming once. */
  lemma TrimIdempotent(s: string)
    ensures Trim(Trim(s)) == Trim(s)
  {
    TrimOfTrimmed(Trim(s));
  }

  /** `trim` only removes characters: one absent from `s` is absent from `s.trim()`. */
  lemma TrimKeepsAbsent(s: string, c: char)
    requires c !in s
    ensures c !in Trim(s)
  {
    var r := Trim(s);
    var a :| IsBlankBordered(s, r, a);
    forall i | 0 <= i < |r|
      ensures r[i] != c
    {
      assert r[i] == s[a + i];
    }
  }

  /** `s.replace(" ", "")` generalised: every occurrence of `c` deleted, the rest kept in order. */
  function RemoveChar(s: string, c: char): (r: string)
    ensures c !in r
    ensures forall x :: x in r ==> x in s
    ensures |r| == |s| - multiset(s)[c]
    ensures c !in s ==> r == s
  {
    if s == [] then []
    else
      assert s == [s[0]] + s[1..];
      var rest := RemoveChar(s[1..], c);
      if s[0] == c then rest else [s[0]] + rest
  }

  /** Removal works piece by piece: the rest of each part is kept, in order. */
  lemma {:induction false} RemoveCharAppend(a: string, b: string, c: char)
    ensures RemoveChar(a + b, c) == RemoveChar(a, c) + RemoveChar(b, c)
    decreases |a|
  {
    if a == [] {
      assert a + b == b;
    } else {
      assert (a + b)[0] == a[0];
      assert (a + b)[1..] == a[1..] + b;
      RemoveCharAppend(a[1..], b, c);
    }
  }

  /** One character is dropped when it is `c` and kept otherwise. */
  lemma RemoveCharSingle(x: char, c: char)
    ensures RemoveChar([x], c) == if x == c then [] else [x]
  {
    assert [x][1..] == [];
  }

  /** Every piece of `s` between occurrences of `sep`, empty pieces included. */
  function SplitAll(s: string, sep: char): (parts: seq<string>)
    ensures |parts| >= 1
    ensures forall i :: 0 <= i < |parts| ==> sep !in parts[i]
    decreases |s|
  {
    var k := IndexOfChar(s, sep);
    if k == -1 then [s]
    else
      [s[..k]] + SplitAll(s[k + 1..], sep)
  }

  /** `parts` with its trailing empty strings removed. */
  function DropTrailingEmpty(parts: seq<string>): (r: seq<string>)
    ensures |r| <= |parts| && r == parts[..|r|]
    ensures r == [] || r[|r| - 1] != []
    ensures forall i :: |r| <= i < |parts| ==> parts[i] == []
  {
    if parts != [] && parts[|parts| - 1] == [] then DropTrailingEmpty(parts[..|parts| - 1])
    else parts
  }

  /**
   `s.split(sep)` for a one-character literal separator: the whole string
   when `sep` does not occur, otherwise the pieces between occurrences with
   trailing empty pieces removed.
   */
  function Split(s: string, sep: char): (parts: seq<string>)
    ensures forall i :: 0 <= i < |parts| ==> sep !in parts[i]
    ensures sep !in s ==> parts == [s]
  {
    if sep !in s then [s] else DropTrailingEmpty(SplitAll(s, sep))
  }

  /** `split` only cuts: a character absent from `s` is absent from every piece. */
  lemma {:induction false} SplitAllKeepsAbsent(s: string, sep: char, c: char)
    requires c !in s
    ensures forall i :: 0 <= i < |SplitAll(s, sep)| ==> c !in SplitAll(s, sep)[i]
    decreases |s|
  {
    var k := IndexOfChar(s, sep);
    if k != -1 {
      assert c !in s[..k] && c !in s[k + 1..] by {
        assert forall j :: 0 <= j < k ==> s[..k][j] == s[j];
        assert forall j :: k + 1 <= j < |s| ==> s[k + 1..][j - k - 1] == s[j];
      }
      SplitAllKeepsAbsent(s[k + 1..], sep, c);
    }
  }

  lemma SplitKeepsAbsent(s: string, sep: char, c: char)
    requires c !in s
    ensures forall i :: 0 <= i < |Split(s, sep)| ==> c !in Split(s, sep)[i]
  {
    SplitAllKeepsAbsent(s, sep, c);
  }

  /**
   `s.split(sep, 2)`: cut at the first `sep` only; the second piece keeps
   every later `sep`. Without any `sep` the result is the whole string.
   */
  function SplitLimit2(s: string, sep: char): (parts: seq<string>)
    ensures sep !in s ==> parts == [s]
    ensures sep in s ==> |parts| == 2 && sep !in parts[0] && s == parts[0] + [sep] + parts[1]
  {
    var k := IndexOfChar(s, sep);
    if k == -1 then [s] else [s[..k], s[k + 1..]]
  }

  /** What `StringJoiner(sep)` produces after adding each of `parts` in order. */
  function Join(parts: seq<string>, sep: char): string {
    if |parts| == 0 then []
    else if |parts| == 1 then parts[0]
    else parts[0] + [sep] + Join(parts[1..], sep)
  }

  /** The joined text is empty exactly when nothing (or only empty text) was added. */
  lemma {:induction false} JoinEmptyIff(parts: seq<string>, sep: char)
    requires forall i :: 0 <= i < |parts| ==> parts[i] != []
    ensures |Join(parts, sep)| == 0 <==> parts == []
  {
    if |parts| >= 1 {
      assert |Join(parts, sep)| >= |parts[0]|;
    }
  }

  /** Splitting at `sep` cuts the joined text back into the pieces, empty ones included. */
  lemma {:induction false} SplitAllJoin(parts: seq<string>, sep: char)
    requires |parts| >= 1
    requires forall i :: 0 <= i < |parts| ==> sep !in parts[i]
    ensures SplitAll(Join(parts, sep), sep) == parts
    decreases |parts|
  {
    var s := Join(parts, sep);
    if |parts| == 1 {
      assert IndexOfChar(s, sep) == -1;
    } else {
      var p := parts[0];
      var rest := Join(parts[1..], sep);
      assert s == p + [sep] + rest;
      assert s[|p|] == sep;
      assert s[..|p|] == p;
      var k := IndexOfChar(s, sep);
      assert k == |p|;
      assert s[k + 1..] == rest;
      SplitAllJoin(parts[1..], sep);
      assert parts == [p] + parts[1..];
    }
  }

  /**
   Joining with `sep` and splitting on `sep` loses nothing, provided no piece
   contains `sep` and the last piece is not empty (`split` drops trailing
   empty pieces).
   */
  lemma SplitJoin(parts: seq<string>, sep: char)
    requires |parts| >= 1 && parts[|parts| - 1] != []
    requires forall i :: 0 <= i < |parts| ==> sep !in parts[i]
    ensures Split(Join(parts, sep), sep) == parts
  {
    var s := Join(parts, sep);
    SplitAllJoin(parts, sep);
    if sep !in s {
      // SplitAll of a string without `sep` is the string alone.
      assert IndexOfChar(s, sep) == -1;
    } else {
      var d := DropTrailingEmpty(parts);
      assert |d| == |parts|;
    }
  }
}
