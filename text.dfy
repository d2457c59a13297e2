/** The parts of Python's str that the core relies on: split() and strip() with no
    argument, and sep.join(parts). */
module Text {

  /** Python's str.isspace(): the characters that split() separates on and strip() removes. */
  predicate IsSpace(c: char) {
    || ('\U{0009}' <= c <= '\U{000D}')
    || ('\U{001C}' <= c <= '\U{001F}')
    || c == ' ' || c == '\U{0085}' || c == '\U{00A0}' || c == '\U{1680}'
    || ('\U{2000}' <= c <= '\U{200A}')
    || c == '\U{2028}' || c == '\U{2029}' || c == '\U{202F}' || c == '\U{205F}' || c == '\U{3000}'
  }

  /** Every character of s is whitespace (so s.strip() == "" and s.split() == []). */
  predicate AllSpace(s: string) {
    forall i :: 0 <= i < |s| ==> IsSpace(s[i])
  }

  /** A word as split() produces it: non-empty and free of whitespace. */
  predicate IsWord(w: string) {
    |w| > 0 && forall i :: 0 <= i < |w| ==> !IsSpace(w[i])
  }

  predicate AllWords(ws: seq<string>) {
    forall i :: 0 <= i < |ws| ==> IsWord(ws[i])
  }

  /** The pending word, if any, once a separator or the end of the text is reached. */
  function Flush(word: string): seq<string> {
    if word == [] then [] else [word]
  }

  /** Scan s left to right; word holds the characters of the word being collected. */
  function SplitFrom(s: string, word: string): (ws: seq<string>)
    requires forall i :: 0 <= i < |word| ==> !IsSpace(word[i])
    ensures AllWords(ws)
    decreases |s|
  {
    if s == [] then Flush(word)
    else if IsSpace(s[0]) then Flush(word) + SplitFrom(s[1..], [])
    else SplitFrom(s[1..], word + [s[0]])
  }

  /** Python's s.split(): the maximal runs of non-whitespace characters, in order. */
  function Split(s: string): (ws: seq<string>)
    ensures AllWords(ws)
  {
    SplitFrom(s, [])
  }

  /** The summed length of the parts. */
  function TotalLength(parts: seq<string>): nat
    decreases |parts|
  {
    if parts == [] then 0 else |parts[0]| + TotalLength(parts[1..])
  }

  /** Python's sep.join(parts): the parts in order, one separator between each two;
      a single part is returned as it is. */
  function Join(sep: string, parts: seq<string>): (r: string)
    ensures |parts| == 0 ==> r == []
    ensures |parts| == 1 ==> r == parts[0]
    ensures |parts| > 1 ==> |parts[0]| + |sep| <= |r| && r[..|parts[0]| + |sep|] == parts[0] + sep
    decreases |parts|
  {
    if |parts| == 0 then ""
    else if |parts| == 1 then parts[0]
    else parts[0] + sep + Join(sep, parts[1..])
  }

  /** The joined string is as long as its parts together plus one separator per gap. */
  lemma {:induction false} JoinLength(sep: string, parts: seq<string>)
    requires |parts| > 0
    ensures |Join(sep, parts)| == TotalLength(parts) + (|parts| - 1) * |sep|
    decreases |parts|
  {
    if |parts| > 1 {
      JoinLength(sep, parts[1..]);
      assert (|parts| - 1) * |sep| == (|parts| - 2) * |sep| + |sep|;
    }
  }

  /** Python's s.lstrip(): drop the leading whitespace. */
  function TrimStart(s: string): (r: string)
    ensures |r| <= |s| && r == s[|s| - |r|..]
    ensures r == [] || !IsSpace(r[0])
    ensures AllSpace(s[..|s| - |r|])
    decreases |s|
  {
    if s != [] && IsSpace(s[0]) then
      var r := TrimStart(s[1..]);
      assert s[..|s| - |r|] == [s[0]] + s[1..][..|s| - 1 - |r|];
      r
    else s
  }

  /** Python's s.rstrip(): drop the trailing whitespace. */
  function TrimEnd(s: string): (r: string)
    ensures |r| <= |s| && r == s[..|r|]
    ensures r == [] || !IsSpace(r[|r| - 1])
    ensures AllSpace(s[|r|..])
    decreases |s|
  {
    if s != [] && IsSpace(s[|s| - 1]) then
      var front := s[..|s| - 1];
      var r := TrimEnd(front);
      assert s[|r|..] == front[|r|..] + [s[|s| - 1]];
      assert front[..|r|] == s[..|r|];
      r
    else s
  }

  /** Python's s.strip(): the text between the leading and the trailing whitespace. */
  function Strip(s: string): (r: string)
    ensures r == [] || (!IsSpace(r[0]) && !IsSpace(r[|r| - 1]))
    ensures r == [] <==> AllSpace(s)
  {
    var t := TrimStart(s);
    assert AllSpace(t) ==> AllSpace(s) by {
      if AllSpace(t) {
        assert s == s[..|s| - |t|] + t;
      }
    }
    TrimEnd(t)
  }

  // ---------------------------------------------------------------------------
  // Lemmas about split, join and strip
  // ---------------------------------------------------------------------------

  /** The characters of a word just extend the pending word. */
  lemma {:induction false} SplitFromWordChars(w: string, s: string, word: string)
    requires forall i :: 0 <= i < |w| ==> !IsSpace(w[i])
    requires forall i :: 0 <= i < |word| ==> !IsSpace(word[i])
    ensures SplitFrom(w + s, word) == SplitFrom(s, word + w)
    decreases |w|
  {
    if w == [] {
      assert w + s == s && word + w == word;
    } else {
      assert (w + s)[0] == w[0] && (w + s)[1..] == w[1..] + s;
      SplitFromWordChars(w[1..], s, word + [w[0]]);
      assert word + [w[0]] + w[1..] == word + w;
    }
  }

  /** A whitespace character separates the words on its left from those on its right. */
  lemma {:induction false} SplitFromAtSpace(x: string, c: char, y: string, word: string)
    requires IsSpace(c)
    requires forall i :: 0 <= i < |word| ==> !IsSpace(word[i])
    ensures SplitFrom(x + [c] + y, word) == SplitFrom(x, word) + Split(y)
    decreases |x|
  {
    if x == [] {
      assert x + [c] + y == [c] + y;
      assert ([c] + y)[1..] == y;
    } else {
      assert (x + [c] + y)[0] == x[0] && (x + [c] + y)[1..] == x[1..] + [c] + y;
      if IsSpace(x[0]) {
        SplitFromAtSpace(x[1..], c, y, []);
      } else {
        SplitFromAtSpace(x[1..], c, y, word + [x[0]]);
      }
    }
  }

  /** split() of two texts joined by a whitespace character is the two splits concatenated. */
  lemma SplitAtSpace(x: string, c: char, y: string)
    requires IsSpace(c)
    ensures Split(x + [c] + y) == Split(x) + Split(y)
  {
    SplitFromAtSpace(x, c, y, []);
  }

  /** A single word splits into itself. */
  lemma SplitWord(w: string)
    requires IsWord(w)
    ensures Split(w) == [w]
  {
    SplitFromWordChars(w, [], []);
    assert w + [] == w && [] + w == w;
  }

  /** Joining words with single spaces and splitting again gives the words back. */
  lemma {:induction false} SplitJoin(ws: seq<string>)
    requires AllWords(ws)
    ensures Split(Join(" ", ws)) == ws
    decreases |ws|
  {
    if |ws| == 1 {
      SplitWord(ws[0]);
    } else if |ws| > 1 {
      var rest := Join(" ", ws[1..]);
      assert Join(" ", ws) == ws[0] + [' '] + rest;
      SplitAtSpace(ws[0], ' ', rest);
      SplitWord(ws[0]);
      SplitJoin(ws[1..]);
      assert ws == [ws[0]] + ws[1..];
    }
  }

  /** The pending word only vanishes when it is empty and the rest is blank. */
  lemma {:induction false} SplitFromEmpty(s: string, word: string)
    requires forall i :: 0 <= i < |word| ==> !IsSpace(word[i])
    ensures SplitFrom(s, word) == [] <==> word == [] && AllSpace(s)
    decreases |s|
  {
    if s != [] {
      if IsSpace(s[0]) {
        SplitFromEmpty(s[1..], []);
        assert AllSpace(s) <==> AllSpace(s[1..]) by {
          assert forall i :: 1 <= i < |s| ==> s[i] == s[1..][i - 1];
        }
      } else {
        SplitFromEmpty(s[1..], word + [s[0]]);
      }
    }
  }

  /** text.strip() is empty exactly when text.split() is empty. */
  lemma StripEmptyIffNoWords(s: string)
    ensures Strip(s) == [] <==> Split(s) == []
  {
    SplitFromEmpty(s, []);
  }

  /** strip() is idempotent: a stripped string is left as it is. */
  lemma StripIdempotent(s: string)
    ensures Strip(Strip(s)) == Strip(s)
  {
    var r := Strip(s);
    if r != [] {
      assert TrimStart(r) == r;
      assert TrimEnd(r) == r;
    }
  }

  /** A string in the normal form that " ".join(words) produces: not empty, no whitespace
      at either end, and every whitespace character is a single ' ' between two words. */
  predicate SingleSpaced(s: string) {
    && |s| > 0 && !IsSpace(s[0]) && !IsSpace(s[|s| - 1])
    && forall i :: 0 <= i < |s| - 1 && IsSpace(s[i]) ==> s[i] == ' ' && !IsSpace(s[i + 1])
  }

  /** A word, a space and a single-spaced string make a single-spaced string. */
  lemma SingleSpacedCons(w: string, rest: string)
    requires IsWord(w) && SingleSpaced(rest)
    ensures SingleSpaced(w + " " + rest)
  {
    var s := w + " " + rest;
    assert forall i :: 0 <= i < |w| ==> s[i] == w[i];
    assert s[|w|] == ' ' && s[|w| + 1] == rest[0];
    assert forall i :: |w| < i < |s| ==> s[i] == rest[i - |w| - 1];
  }

  /** " ".join of a non-empty list of words is single-spaced. */
  lemma {:induction false} JoinSingleSpaced(ws: seq<string>)
    requires |ws| > 0 && AllWords(ws)
    ensures SingleSpaced(Join(" ", ws))
    decreases |ws|
  {
    if |ws| > 1 {
      JoinSingleSpaced(ws[1..]);
      SingleSpacedCons(ws[0], Join(" ", ws[1..]));
    }
  }

  /** part appears verbatim in s, starting at index at. */
  predicate OccursAt(part: string, s: string, at: int) {
    0 <= at && at + |part| <= |s| && s[at..at + |part|] == part
  }

  /** Every part of a join appears verbatim in the joined string. */
  lemma {:induction false} JoinContainsParts(sep: string, parts: seq<string>, k: nat)
    requires k < |parts|
    ensures exists at :: OccursAt(parts[k], Join(sep, parts), at)
    decreases |parts|
  {
    var s := Join(sep, parts);
    if |parts| == 1 {
      assert OccursAt(parts[0], s, 0);
    } else if k == 0 {
      assert s == parts[0] + sep + Join(sep, parts[1..]);
      assert OccursAt(parts[0], s, 0);
    } else {
      var rest := Join(sep, parts[1..]);
      assert s == parts[0] + sep + rest;
      JoinContainsParts(sep, parts[1..], k - 1);
      var at :| OccursAt(parts[1..][k - 1], rest, at);
      var off := |parts[0]| + |sep|;
      assert s[off..] == rest;
      assert s[off + at..off + at + |parts[k]|] == rest[at..at + |parts[k]|];
      assert OccursAt(parts[k], s, off + at);
    }
  }
}
