/**
 * The Python `str` operations the core relies on, written out over `seq<char>`:
 * `isspace`, `strip`, `lower`, `split()`, `split(sep)`, `startswith`, `endswith`
 * and substring containment (`sub in s`).
 */
module Text {
  import opened Wrappers

  /** Python's `str.isspace` for one code point (the set `strip` and `split()` use). */
  predicate IsSpace(c: char) {
    || c == ' ' || c == '\t' || c == '\n' || c == '\r'
    || c == '\U{000B}' || c == '\U{000C}'
    || ('\U{001C}' <= c <= '\U{001F}')
    || c == '\U{0085}' || c == '\U{00A0}' || c == '\U{1680}'
    || ('\U{2000}' <= c <= '\U{200A}')
    || c == '\U{2028}' || c == '\U{2029}' || c == '\U{202F}' || c == '\U{205F}' || c == '\U{3000}'
  }

  predicate StartsWith(s: string, prefix: string) {
    |prefix| <= |s| && s[..|prefix|] == prefix
  }

  predicate EndsWith(s: string, suffix: string) {
    |suffix| <= |s| && s[|s| - |suffix|..] == suffix
  }

  /** `sub` occurs in `s` starting at position `i`. */
  predicate OccursAt(s: string, sub: string, i: nat) {
    i + |sub| <= |s| && s[i..i + |sub|] == sub
  }

  /** Python's `sub in s` for strings. */
  predicate Contains(s: string, sub: string) {
    exists i: nat :: i <= |s| && OccursAt(s, sub, i)
  }

  /** An occurrence inside a prefix of `s` is one in `s`, and conversely. */
  lemma OccursInPrefix(s: string, sub: string, n: nat, i: nat)
    requires n <= |s| && i + |sub| <= n
    ensures OccursAt(s[..n], sub, i) <==> OccursAt(s, sub, i)
  {
    assert s[..n][i..i + |sub|] == s[i..i + |sub|];
  }

  predicate AllSpace(s: string) {
    forall k :: 0 <= k < |s| ==> IsSpace(s[k])
  }

  /** `s.lstrip()`: drops the longest run of leading white space. */
  function TrimStart(s: string): (r: string)
    ensures |r| <= |s| && r == s[|s| - |r|..]
    ensures AllSpace(s[..|s| - |r|])
    ensures r == [] || !IsSpace(r[0])
  {
    if s != [] && IsSpace(s[0]) then
      var r := TrimStart(s[1..]);
      TrimStartStep(s, r);
      r
    else s
  }

  /** `s.rstrip()`: drops the longest run of trailing white space. */
  function TrimEnd(s: string): (r: string)
    ensures |r| <= |s| && r == s[..|r|]
    ensures AllSpace(s[|r|..])
    ensures r == [] || !IsSpace(r[|r| - 1])
  {
    if s != [] && IsSpace(s[|s| - 1]) then
      var r := TrimEnd(s[..|s| - 1]);
      TrimEndStep(s, r);
      r
    else s
  }

  /** Leading white space followed by a trimmed rest is leading white space of the whole. */
  lemma TrimStartStep(s: string, r: string)
    requires s != [] && IsSpace(s[0])
    requires |r| <= |s| - 1 && r == s[1..][|s| - 1 - |r|..] && AllSpace(s[1..][..|s| - 1 - |r|])
    ensures r == s[|s| - |r|..] && AllSpace(s[..|s| - |r|])
  {
    assert s[..|s| - |r|] == [s[0]] + s[1..][..|s| - 1 - |r|];
    assert s[|s| - |r|..] == s[1..][|s| - 1 - |r|..];
  }

  /** A trimmed front followed by trailing white space is trailing white space of the whole. */
  lemma TrimEndStep(s: string, r: string)
    requires s != [] && IsSpace(s[|s| - 1])
    requires |r| <= |s| - 1 && r == s[..|s| - 1][..|r|] && AllSpace(s[..|s| - 1][|r|..])
    ensures r == s[..|r|] && AllSpace(s[|r|..])
  {
    assert s[|r|..] == s[..|s| - 1][|r|..] + [s[|s| - 1]];
    assert s[..|r|] == s[..|s| - 1][..|r|];
  }

  /** `s.strip()`: the result is the middle of `s` once white space is cut off both ends. */
  function Strip(s: string): (r: string)
    ensures exists i: nat :: OccursAt(s, r, i) && AllSpace(s[..i]) && AllSpace(s[i + |r|..])
    ensures r == [] || (!IsSpace(r[0]) && !IsSpace(r[|r| - 1]))
  {
    var t := TrimStart(s);
    var r := TrimEnd(t);
    StripWitness(s, t, r);
    StripEnds(t, r);
    r
  }

  /** Cutting trailing white space off text that starts with none leaves both ends free of it. */
  lemma StripEnds(t: string, r: string)
    requires t == [] || !IsSpace(t[0])
    requires |r| <= |t| && r == t[..|r|]
    requires r == [] || !IsSpace(r[|r| - 1])
    ensures r == [] || (!IsSpace(r[0]) && !IsSpace(r[|r| - 1]))
  {
    if r != [] {
      assert r[0] == t[0];
    }
  }

  lemma StripWitness(s: string, t: string, r: string)
    requires |t| <= |s| && t == s[|s| - |t|..] && AllSpace(s[..|s| - |t|])
    requires |r| <= |t| && r == t[..|r|] && AllSpace(t[|r|..])
    ensures OccursAt(s, r, |s| - |t|) && AllSpace(s[..|s| - |t|]) && AllSpace(s[|s| - |t| + |r|..])
  {
    var i := |s| - |t|;
    assert s[i + |r|..] == t[|r|..];
  }

  /** Text that neither starts nor ends with white space is its own `strip()`. */
  lemma StripKeeps(s: string)
    requires s != [] && !IsSpace(s[0]) && !IsSpace(s[|s| - 1])
    ensures Strip(s) == s
  {
    var r := Strip(s);
    var i: nat :| OccursAt(s, r, i) && AllSpace(s[..i]) && AllSpace(s[i + |r|..]);
    assert i == 0 && i + |r| == |s|;
    assert s[0..|s|] == s;
  }

  /** `s.rfind(c)`: the last position holding `c`. */
  function RFind(s: string, c: char): (r: Option<nat>)
    ensures r.Some? ==> r.value < |s| && s[r.value] == c && forall k :: r.value < k < |s| ==> s[k] != c
    ensures r.None? ==> forall k :: 0 <= k < |s| ==> s[k] != c
  {
    if s == [] then None
    else if s[|s| - 1] == c then Some(|s| - 1)
    else RFind(s[..|s| - 1], c)
  }

  predicate IsUpperAscii(c: char) {
    'A' <= c <= 'Z'
  }

  /** `c.lower()` restricted to ASCII letters. */
  function LowerChar(c: char): (d: char)
    ensures d == '.' <==> c == '.'
    ensures !IsUpperAscii(d)
  {
    if 'A' <= c <= 'Z' then (c as int + 32) as char else c
  }

  /**
   * `s.lower()`, folding ASCII letters only: same length, no upper-case ASCII
   * letter left, every other character kept, and each letter moved to its
   * lower-case partner (32 code points up).
   */
  function Lower(s: string): (r: string)
    ensures |r| == |s|
    ensures forall i :: 0 <= i < |r| ==> !IsUpperAscii(r[i])
    ensures forall i :: 0 <= i < |s| && !IsUpperAscii(s[i]) ==> r[i] == s[i]
    ensures forall i :: 0 <= i < |s| && IsUpperAscii(s[i]) ==> r[i] as int == s[i] as int + 32
  {
    seq(|s|, i requires 0 <= i < |s| => LowerChar(s[i]))
  }

  /** Lower-casing twice is lower-casing once. */
  lemma LowerIdempotent(s: string)
    ensures Lower(Lower(s)) == Lower(s)
  {
    var r := Lower(s);
    assert forall i :: 0 <= i < |r| ==> Lower(r)[i] == r[i];
  }

  /** Length of the longest prefix of `s` free of white space. */
  function WordLength(s: string): (n: nat)
    ensures n <= |s|
    ensures forall k :: 0 <= k < n ==> !IsSpace(s[k])
    ensures n == |s| || IsSpace(s[n])
  {
    if s == [] || IsSpace(s[0]) then 0 else 1 + WordLength(s[1..])
  }

  /** A non-empty run of non-space characters. */
  predicate IsWord(w: string) {
    w != [] && forall i :: 0 <= i < |w| ==> !IsSpace(w[i])
  }

  /** `s.split()` with no separator: the maximal runs of non-space characters, in order. */
  function Words(s: string): (ws: seq<string>)
    ensures |ws| <= |s|
    ensures forall k :: 0 <= k < |ws| ==> IsWord(ws[k])
    decreases |s|
  {
    if s == [] then []
    else if IsSpace(s[0]) then Words(s[1..])
    else
      FirstWord(s);
      var n := WordLength(s);
      [s[..n]] + Words(s[n..])
  }

  /** Text that does not start with white space opens with a word. */
  lemma FirstWord(t: string)
    requires t != [] && !IsSpace(t[0])
    ensures 1 <= WordLength(t) && IsWord(t[..WordLength(t)])
  {
  }

  /** The words one after the other, with nothing between them. */
  function Concat(ws: seq<string>): string {
    if ws == [] then [] else ws[0] + Concat(ws[1..])
  }

  /** `s` with every white-space character removed. */
  function NonSpace(s: string): string {
    if s == [] then [] else (if IsSpace(s[0]) then [] else [s[0]]) + NonSpace(s[1..])
  }

  /**
   * How many positions of `s` hold a non-space character that comes first or right
   * after white space, read left to right; `afterSpace` says whether the position
   * before `s` counts as white space.
   */
  function RunStarts(s: string, afterSpace: bool): nat {
    if s == [] then 0
    else (if afterSpace && !IsSpace(s[0]) then 1 else 0) + RunStarts(s[1..], IsSpace(s[0]))
  }

  /**
   * What `split()` keeps and how many words it makes: joined without gaps the words
   * are the text's non-space characters, and there is one word per run start.
   */
  lemma {:induction false} WordsAreRuns(s: string)
    ensures Concat(Words(s)) == NonSpace(s)
    ensures |Words(s)| == RunStarts(s, true)
    decreases |s|
  {
    if s == [] {
    } else if IsSpace(s[0]) {
      WordsAreRuns(s[1..]);
    } else {
      FirstWord(s);
      var n := WordLength(s);
      var ws := Words(s);
      assert ws == [s[..n]] + Words(s[n..]);
      assert ws[0] == s[..n] && ws[1..] == Words(s[n..]);
      WordsAreRuns(s[n..]);
      NonSpaceOfWord(s, n);
      RunStartsOfWord(s[1..], n - 1);
      assert s[1..][n - 1..] == s[n..];
    }
  }

  lemma {:induction false} NonSpaceOfWord(s: string, n: nat)
    requires n <= |s| && forall k :: 0 <= k < n ==> !IsSpace(s[k])
    ensures NonSpace(s) == s[..n] + NonSpace(s[n..])
    decreases n
  {
    if n > 0 {
      NonSpaceOfWord(s[1..], n - 1);
      assert s[1..][n - 1..] == s[n..];
      assert s[..n] == [s[0]] + s[1..][..n - 1];
    }
  }

  /** The rest of a word adds no run start, and the white space after it counts as a gap. */
  lemma {:induction false} RunStartsOfWord(s: string, n: nat)
    requires n <= |s| && forall k :: 0 <= k < n ==> !IsSpace(s[k])
    requires n == |s| || IsSpace(s[n])
    ensures RunStarts(s, false) == RunStarts(s[n..], true)
    decreases n
  {
    if n > 0 {
      RunStartsOfWord(s[1..], n - 1);
      assert s[1..][n - 1..] == s[n..];
    }
  }

  /** A word followed by white space or the end is read as one word. */
  lemma {:induction false} WordLengthOf(w: string, rest: string)
    requires IsWord(w) && (rest == [] || IsSpace(rest[0]))
    ensures WordLength(w + rest) == |w|
    decreases |w|
  {
    if |w| > 1 {
      assert (w + rest)[1..] == w[1..] + rest;
      WordLengthOf(w[1..], rest);
    } else {
      assert (w + rest)[1..] == rest;
    }
  }

  /** A single word, alone, is split into itself. */
  lemma WordsOfWord(w: string)
    requires IsWord(w)
    ensures Words(w) == [w]
  {
    WordLengthOf(w, "");
    assert w + "" == w;
    assert w[..|w|] == w;
  }

  /** A word followed by white space (or by nothing) is split into that word alone. */
  lemma WordsOfWordThenSpace(w: string, sp: string)
    requires IsWord(w) && AllSpace(sp)
    ensures Words(w + sp) == [w]
  {
    WordLengthOf(w, sp);
    assert (w + sp)[..|w|] == w;
    assert (w + sp)[|w|..] == sp;
    WordsOfSpace(sp);
  }

  /** White space alone holds no word. */
  lemma {:induction false} WordsOfSpace(sp: string)
    requires AllSpace(sp)
    ensures Words(sp) == []
    decreases |sp|
  {
    if sp != [] {
      WordsOfSpace(sp[1..]);
    }
  }

  /** A word that stops before the end of `a` is not lengthened by what follows `a`. */
  lemma {:induction false} WordLengthPrefix(a: string, b: string)
    requires WordLength(a) < |a|
    ensures WordLength(a + b) == WordLength(a)
    decreases |a|
  {
    if !IsSpace(a[0]) {
      assert (a + b)[1..] == a[1..] + b;
      WordLengthPrefix(a[1..], b);
    }
  }

  /**
   * `split()` works gap by gap: text cut right after white space (or at its start)
   * splits into the words of the part before the cut followed by those after it.
   * Any text is leading white space followed by pieces, each a word and the white
   * space after it (empty only at the end); cutting after each piece and applying
   * WordsOfSpace and WordsOfWordThenSpace fixes its words: exactly those words, in order.
   */
  lemma {:induction false} WordsAppend(a: string, b: string)
    requires a == [] || IsSpace(a[|a| - 1])
    ensures Words(a + b) == Words(a) + Words(b)
    decreases |a|
  {
    if a == [] {
      assert a + b == b;
    } else if IsSpace(a[0]) {
      assert (a + b)[1..] == a[1..] + b;
      WordsAppend(a[1..], b);
    } else {
      FirstWord(a);
      var n := WordLength(a);
      WordLengthPrefix(a, b);
      assert (a + b)[..n] == a[..n];
      assert (a + b)[n..] == a[n..] + b;
      WordsAppend(a[n..], b);
    }
  }

  /** Words joined by single spaces are split back into the same words. */
  lemma {:induction false} WordsOfJoin(ws: seq<string>)
    requires forall k :: 0 <= k < |ws| ==> IsWord(ws[k])
    ensures Words(JoinWith(ws, " ")) == ws
    decreases |ws|
  {
    if |ws| == 1 {
      var w := ws[0];
      WordLengthOf(w, "");
      assert w + "" == w;
      assert w[..|w|] == w;
    } else if |ws| > 1 {
      var w, j := ws[0], JoinWith(ws[1..], " ");
      var s := w + (" " + j);
      assert JoinWith(ws, " ") == s;
      WordLengthOf(w, " " + j);
      assert s[..|w|] == w;
      assert s[|w|..] == " " + j;
      assert (" " + j)[1..] == j;
      WordsOfJoin(ws[1..]);
      assert ws == [w] + ws[1..];
    }
  }

  /** The first position at or after `from` at which `sep` occurs in `s`. */
  function IndexFrom(s: string, sep: string, from: nat): (r: Option<nat>)
    requires from <= |s|
    ensures r.Some? ==> from <= r.value && OccursAt(s, sep, r.value)
    ensures r.Some? ==> forall j: nat :: from <= j < r.value ==> !OccursAt(s, sep, j)
    ensures r.None? ==> forall j: nat :: from <= j ==> !OccursAt(s, sep, j)
    decreases |s| - from
  {
    if from + |sep| > |s| then None
    else if s[from..from + |sep|] == sep then Some(from)
    else if from == |s| then None
    else IndexFrom(s, sep, from + 1)
  }

  /** `sep.join(pieces)`. */
  function JoinWith(pieces: seq<string>, sep: string): string {
    if |pieces| == 0 then ""
    else if |pieces| == 1 then pieces[0]
    else pieces[0] + sep + JoinWith(pieces[1..], sep)
  }

  /**
   * `s.split(sep)`: the pieces between the occurrences of `sep`, found left to right.
   * Joining them back with `sep` gives `s`; no piece holds `sep`, and each piece
   * but the last ends before the leftmost occurrence that follows it.
   */
  function SplitOn(s: string, sep: string): (pieces: seq<string>)
    requires sep != []
    ensures |pieces| >= 1
    ensures JoinWith(pieces, sep) == s
    ensures forall k :: 0 <= k < |pieces| ==> !Contains(pieces[k], sep)
    ensures forall k :: 0 <= k < |pieces| - 1 ==> !Contains(pieces[k] + sep[..|sep| - 1], sep)
    decreases |s|
  {
    match IndexFrom(s, sep, 0)
    case None => [s]
    case Some(i) =>
      var head, rest := s[..i], SplitOn(s[i + |sep|..], sep);
      assert s == head + sep + s[i + |sep|..];
      assert !Contains(head + sep[..|sep| - 1], sep) by {
        var n := i + |sep| - 1;
        assert head + sep[..|sep| - 1] == s[..n];
        if Contains(s[..n], sep) {
          var j: nat :| j <= n && OccursAt(s[..n], sep, j);
          OccursInPrefix(s, sep, n, j);
        }
      }
      assert !Contains(head, sep) by {
        if Contains(head, sep) {
          var j: nat :| j <= i && OccursAt(head, sep, j);
          OccursInPrefix(s, sep, i, j);
        }
      }
      [head] + rest
  }

  /** Text in which `sep` does not occur splits into itself alone. */
  lemma SplitOnAbsent(s: string, sep: string)
    requires sep != [] && !Contains(s, sep)
    ensures SplitOn(s, sep) == [s]
  {
    assert forall i: nat :: i <= |s| ==> !OccursAt(s, sep, i);
  }

  /** A separator whose first character is missing from the text does not occur in it. */
  lemma AbsentFirstChar(s: string, sep: string)
    requires sep != [] && sep[0] !in s
    ensures !Contains(s, sep)
  {
    forall i: nat | i <= |s|
      ensures !OccursAt(s, sep, i)
    {
      if i + |sep| <= |s| {
        assert s[i..i + |sep|][0] == s[i] != sep[0];
      }
    }
  }
}
