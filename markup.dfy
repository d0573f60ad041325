/**
 * The four `re.sub` calls that clean an extracted passage, written as scanners:
 *   `\*\*(.*?)\*\*` -> `\1`   (bold)
 *   `\*(.*?)\*`     -> `\1`   (italic)
 *   `` `(.*?)` ``   -> `\1`   (inline code)
 *   `\[(.*?)\]\(.*?\)` -> `\1` (link: text kept, target dropped)
 * Each substitution scans left to right; at each position it takes the leftmost
 * match with the shortest lazy group, and resumes after the match. As in Python,
 * `.` matches every character except a newline.
 */
module Markup {
  import opened Wrappers
  import opened Text

  /** No newline among `s[from..to]`. */
  predicate LineFree(s: string, from: nat, to: nat)
    requires from <= to <= |s|
  {
    forall m :: from <= m < to ==> s[m] != '\n'
  }

  /**
   * Where a lazy `(.*?)` that starts at `from` and is followed by `close` stops:
   * the first position at or after `from` at which `close` occurs, provided no
   * newline comes before it.
   */
  function LazyClose(s: string, from: nat, close: string): (r: Option<nat>)
    requires from <= |s|
    ensures r.Some? ==> from <= r.value && OccursAt(s, close, r.value) && LineFree(s, from, r.value)
    decreases |s| - from
  {
    if from + |close| <= |s| && s[from..from + |close|] == close then Some(from)
    else if from == |s| || s[from] == '\n' then None
    else LazyClose(s, from + 1, close)
  }

  /**
   * The lazy group is the shortest possible: no earlier position closes it, and
   * when it does not close, no occurrence of `close` is reachable without a newline.
   */
  lemma {:induction false} LazyCloseLeftmost(s: string, from: nat, close: string)
    requires from <= |s|
    ensures LazyClose(s, from, close).Some? ==>
      forall j: nat :: from <= j < LazyClose(s, from, close).value ==> !OccursAt(s, close, j)
    ensures LazyClose(s, from, close).None? ==>
      forall j: nat :: from <= j <= |s| && LineFree(s, from, j) ==> !OccursAt(s, close, j)
    decreases |s| - from
  {
    if from + |close| <= |s| && s[from..from + |close|] == close {
    } else if from == |s| || s[from] == '\n' {
      if from < |s| {
        forall j: nat | from < j <= |s| ensures !LineFree(s, from, j) {
          assert s[from] == '\n';
        }
      }
    } else {
      LazyCloseLeftmost(s, from + 1, close);
      forall j: nat | from + 1 <= j <= |s| && LineFree(s, from, j)
        ensures LineFree(s, from + 1, j)
      {
      }
    }
  }

  /** `re.sub(D + "(.*?)" + D, r"\1", s)` for a literal delimiter `d`. */
  function SubPair(s: string, d: string): string
    requires d != []
    decreases |s|
  {
    if s == [] then []
    else if StartsWith(s, d) && LazyClose(s, |d|, d).Some? then
      var j := LazyClose(s, |d|, d).value;
      s[|d|..j] + SubPair(s[j + |d|..], d)
    else [s[0]] + SubPair(s[1..], d)
  }

  /**
   * Where `(.*?)\]\(.*?\)` matches when started at `from`: the position of the
   * first `](` (on the same line) that is followed by a `)` on the same line, with
   * the position of that `)`.
   */
  function LazyLink(s: string, from: nat): (r: Option<(nat, nat)>)
    requires from <= |s|
    ensures r.Some? ==> from <= r.value.0 && r.value.0 + 2 <= r.value.1 < |s|
    ensures r.Some? ==> s[r.value.0..r.value.0 + 2] == "](" && s[r.value.1] == ')'
    ensures r.Some? ==> LineFree(s, from, r.value.0) && LineFree(s, r.value.0 + 2, r.value.1)
    decreases |s| - from
  {
    if from + 2 <= |s| && s[from..from + 2] == "](" && LazyClose(s, from + 2, ")").Some? then
      var c := LazyClose(s, from + 2, ")").value;
      assert s[c..c + 1] == ")";
      Some((from, c))
    else if from == |s| || s[from] == '\n' then None
    else LazyLink(s, from + 1)
  }

  /** A `](` at `j` whose lazy target group closes on the same line. */
  predicate LinkCloses(s: string, j: nat)
  {
    j + 2 <= |s| && s[j..j + 2] == "](" && LazyClose(s, j + 2, ")").Some?
  }

  /**
   * The lazy link text is the shortest: no earlier `](` on the line has a closing
   * `)`, and when there is no match, no `](` reachable without a newline has one.
   */
  lemma {:induction false} LazyLinkLeftmost(s: string, from: nat)
    requires from <= |s|
    ensures LazyLink(s, from).Some? ==>
      forall j: nat :: from <= j < LazyLink(s, from).value.0 ==> !LinkCloses(s, j)
    ensures LazyLink(s, from).None? ==>
      forall j: nat :: from <= j <= |s| && LineFree(s, from, j) ==> !LinkCloses(s, j)
    decreases |s| - from
  {
    if LinkCloses(s, from) {
    } else if from == |s| || s[from] == '\n' {
      if from < |s| {
        forall j: nat | from < j <= |s| ensures !LineFree(s, from, j) {
          assert s[from] == '\n';
        }
      }
    } else {
      LazyLinkLeftmost(s, from + 1);
      forall j: nat | from + 1 <= j <= |s| && LineFree(s, from, j)
        ensures LineFree(s, from + 1, j)
      {
      }
    }
  }

  /** The lazy link target is the shortest too: it ends at the first `)` after the `](`. */
  lemma {:induction false} LazyLinkTarget(s: string, from: nat)
    requires from <= |s|
    ensures LazyLink(s, from).Some? ==>
      LazyClose(s, LazyLink(s, from).value.0 + 2, ")") == Some(LazyLink(s, from).value.1)
    decreases |s| - from
  {
    if LinkCloses(s, from) {
    } else if from == |s| || s[from] == '\n' {
    } else {
      LazyLinkTarget(s, from + 1);
    }
  }

  /** `re.sub(r"\[(.*?)\]\(.*?\)", r"\1", s)`. */
  function SubLink(s: string): string
    decreases |s|
  {
    if s == [] then []
    else if s[0] == '[' && LazyLink(s, 1).Some? then
      var (m, c) := LazyLink(s, 1).value;
      s[1..m] + SubLink(s[c + 1..])
    else [s[0]] + SubLink(s[1..])
  }

  /** The cleaning chain, in the source's order: bold, italic, inline code, links. */
  function CleanMarkup(s: string): string
  {
    SubLink(SubPair(SubPair(SubPair(s, "**"), "*"), "`"))
  }

  /** A lazy group runs over characters that are neither the closer's first character nor a newline. */
  lemma {:induction false} LazyCloseSkips(s: string, from: nat, to: nat, close: string)
    requires close != [] && from <= to <= |s|
    requires forall m :: from <= m < to ==> s[m] != close[0] && s[m] != '\n'
    ensures LazyClose(s, from, close) == LazyClose(s, to, close)
    decreases (to as int) - (from as int)
  {
    if from < to {
      assert !(from + |close| <= |s| && s[from..from + |close|] == close) by {
        if from + |close| <= |s| { assert s[from..from + |close|][0] == s[from]; }
      }
      LazyCloseSkips(s, from + 1, to, close);
    }
  }

  /** A delimiter-free prefix passes through a pair substitution untouched. */
  lemma {:induction false} SubPairPlainPrefix(a: string, b: string, d: string)
    requires d != [] && d[0] !in a
    ensures SubPair(a + b, d) == a + SubPair(b, d)
  {
    if a != [] {
      var s := a + b;
      assert s[0] == a[0];
      assert !StartsWith(s, d) by {
        if |d| <= |s| { assert s[..|d|][0] == s[0]; }
      }
      assert s[1..] == a[1..] + b;
      assert SubPair(s, d) == [s[0]] + SubPair(s[1..], d);
      assert d[0] !in a[1..];
      SubPairPlainPrefix(a[1..], b, d);
      assert a == [a[0]] + a[1..];
    } else {
      assert a + b == b;
    }
  }

  /** In `D x D b`, the lazy group that opens after the first `D` closes right after `x`. */
  lemma {:induction false} PairClose(s: string, x: string, b: string, d: string)
    requires d != [] && d[0] !in x && '\n' !in x
    requires s == d + (x + (d + b))
    ensures LazyClose(s, |d|, d) == Some(|d| + |x|)
  {
    var j := |d| + |x|;
    forall m | |d| <= m < j ensures s[m] != d[0] && s[m] != '\n' {
      assert s[m] == x[m - |d|];
    }
    LazyCloseSkips(s, |d|, j, d);
    assert s[j..j + |d|] == d;
  }

  /** `D x D` with `x` free of newlines and of the delimiter's first character becomes `x`. */
  lemma {:induction false} SubPairStripsPair(x: string, b: string, d: string)
    requires d != [] && d[0] !in x && '\n' !in x
    ensures SubPair(d + (x + (d + b)), d) == x + SubPair(b, d)
  {
    var s := d + (x + (d + b));
    var j := |d| + |x|;
    assert StartsWith(s, d) by {
      assert s[..|d|] == d;
    }
    PairClose(s, x, b, d);
    assert s[|d|..j] == x;
    assert s[j + |d|..] == b;
    SubPairAt(s, d, j);
  }

  /** One step of a pair substitution at a match: the group's text, then the rest substituted. */
  lemma {:induction false} SubPairAt(s: string, d: string, j: nat)
    requires d != [] && StartsWith(s, d) && LazyClose(s, |d|, d) == Some(j)
    ensures j + |d| <= |s| && SubPair(s, d) == s[|d|..j] + SubPair(s[j + |d|..], d)
  {
    assert OccursAt(s, d, j);
  }

  /** A prefix without `[` passes through the link substitution untouched. */
  lemma {:induction false} SubLinkPlainPrefix(a: string, b: string)
    requires '[' !in a
    ensures SubLink(a + b) == a + SubLink(b)
  {
    if a != [] {
      var s := a + b;
      assert s[0] == a[0];
      assert s[1..] == a[1..] + b;
      assert s[0] != '[';
      assert SubLink(s) == [s[0]] + SubLink(s[1..]);
      assert '[' !in a[1..];
      SubLinkPlainPrefix(a[1..], b);
      assert a == [a[0]] + a[1..];
    } else {
      assert a + b == b;
    }
  }

  /** A lazy link group runs over characters that are neither `]` nor a newline. */
  lemma {:induction false} LazyLinkSkips(s: string, from: nat, to: nat)
    requires from <= to <= |s|
    requires forall m :: from <= m < to ==> s[m] != ']' && s[m] != '\n'
    ensures LazyLink(s, from) == LazyLink(s, to)
    decreases (to as int) - (from as int)
  {
    if from < to {
      assert !(from + 2 <= |s| && s[from..from + 2] == "](") by {
        if from + 2 <= |s| { assert s[from..from + 2][0] == s[from]; }
      }
      LazyLinkSkips(s, from + 1, to);
    }
  }

  /** In `[x](u)b` the lazy link groups stop at the first `](` and the first `)` after it. */
  lemma {:induction false} LinkMatch(s: string, x: string, u: string, b: string)
    requires ']' !in x && '\n' !in x && ')' !in u && '\n' !in u
    requires s == "[" + x + "](" + u + ")" + b
    ensures LazyLink(s, 1) == Some((1 + |x|, 3 + |x| + |u|))
  {
    LinkTextShape(s, x, u, b);
    LazyLinkSkips(s, 1, 1 + |x|);
    LinkTargetClose(s, x, u, b);
    LazyLinkAt(s, 1 + |x|, 3 + |x| + |u|);
  }

  /** In `[x](u)b` the link text runs free of `]` and newlines up to the `](`. */
  lemma {:induction false} LinkTextShape(s: string, x: string, u: string, b: string)
    requires ']' !in x && '\n' !in x
    requires s == "[" + x + "](" + u + ")" + b
    ensures forall k :: 1 <= k < 1 + |x| ==> s[k] != ']' && s[k] != '\n'
    ensures 3 + |x| <= |s| && s[1 + |x|..3 + |x|] == "]("
  {
    forall k | 1 <= k < 1 + |x| ensures s[k] != ']' && s[k] != '\n' {
      assert s[k] == x[k - 1];
    }
    assert s[1 + |x|..3 + |x|] == "](";
  }

  /** In `[x](u)b` the lazy target group closes at the `)` right after `u`. */
  lemma {:induction false} LinkTargetClose(s: string, x: string, u: string, b: string)
    requires ')' !in u && '\n' !in u
    requires s == "[" + x + "](" + u + ")" + b
    ensures LazyClose(s, 3 + |x|, ")") == Some(3 + |x| + |u|)
  {
    var from := 3 + |x|;
    var c := from + |u|;
    forall k | from <= k < c ensures s[k] != ")"[0] && s[k] != '\n' {
      assert s[k] == u[k - from];
    }
    LazyCloseSkips(s, from, c, ")");
    assert s[c..c + 1] == ")";
  }

  /** A link scan standing on `](` whose target closes at `c` matches there. */
  lemma {:induction false} LazyLinkAt(s: string, m: nat, c: nat)
    requires m + 2 <= |s| && s[m..m + 2] == "](" && LazyClose(s, m + 2, ")") == Some(c)
    ensures LazyLink(s, m) == Some((m, c))
  {
  }

  /** `[x](u)` becomes `x` when neither part holds a newline, `x` no `]` and `u` no `)`. */
  lemma {:induction false} SubLinkStripsLink(x: string, u: string, b: string)
    requires ']' !in x && '\n' !in x && ')' !in u && '\n' !in u
    ensures SubLink("[" + x + "](" + u + ")" + b) == x + SubLink(b)
  {
    var s := "[" + x + "](" + u + ")" + b;
    LinkMatch(s, x, u, b);
    var m, c := 1 + |x|, 3 + |x| + |u|;
    assert s[0] == '[';
    assert s[1..m] == x;
    assert s[c + 1..] == b;
  }

  /** Text without `*`, `` ` `` or `[` comes out of the cleaning chain unchanged. */
  lemma {:induction false} PlainTextUnchanged(s: string)
    requires '*' !in s && '`' !in s && '[' !in s
    ensures CleanMarkup(s) == s
  {
    SubPairPlainPrefix(s, "", "**");
    assert s + "" == s;
    SubPairPlainPrefix(s, "", "*");
    SubPairPlainPrefix(s, "", "`");
    SubLinkPlainPrefix(s, "");
  }

  /** Plain text: none of the characters that open a markup match. */
  predicate Plain(s: string) {
    '*' !in s && '`' !in s && '[' !in s && ']' !in s && ')' !in s && '\n' !in s
  }

  /** A `*` that is not followed by another `*` opens no bold match. */
  lemma {:induction false} LoneStar(rest: string)
    requires rest == [] || rest[0] != '*'
    ensures SubPair("*" + rest, "**") == "*" + SubPair(rest, "**")
  {
    var s := "*" + rest;
    if rest != [] {
      assert s[..2][1] == rest[0];
    }
    assert s[1..] == rest;
  }

  /** Text whose only stars are lone ones, as in `a*y*rest`, has no bold match. */
  lemma {:induction false} BoldFreeTail(a: string, y: string, rest: string)
    requires Plain(a) && Plain(y) && y != [] && '*' !in rest
    ensures SubPair(a + ("*" + (y + ("*" + rest))), "**") == a + ("*" + (y + ("*" + rest)))
  {
    var t1 := "*" + rest;
    LoneStar(rest);
    SubPairPlainPrefix(rest, "", "**");
    assert rest + "" == rest;
    assert SubPair(t1, "**") == t1;
    var t2 := y + t1;
    SubPairPlainPrefix(y, t1, "**");
    var t3 := "*" + t2;
    assert t2[0] == y[0];
    LoneStar(t2);
    assert SubPair(t3, "**") == t3;
    SubPairPlainPrefix(a, t3, "**");
  }

  /** Bold pass over `**x**a*y*rest`: only `**x**` is a match. */
  lemma {:induction false} BoldPass(x: string, a: string, y: string, rest: string)
    requires Plain(x) && Plain(a) && Plain(y) && y != [] && '*' !in rest
    ensures SubPair("**" + (x + ("**" + (a + ("*" + (y + ("*" + rest)))))), "**")
            == x + (a + ("*" + (y + ("*" + rest))))
  {
    var tail := a + ("*" + (y + ("*" + rest)));
    SubPairStripsPair(x, tail, "**");
    BoldFreeTail(a, y, rest);
  }

  /**
   * A pair pass over `p d y d rest`, with `p`, `y` and `rest` free of the
   * delimiter's first character and `y` on one line: only the delimiters go.
   */
  lemma {:induction false} DelimitedPass(p: string, y: string, rest: string, d: string)
    requires d != [] && d[0] !in p && d[0] !in y && '\n' !in y && d[0] !in rest
    ensures SubPair(p + (d + (y + (d + rest))), d) == p + (y + rest)
  {
    SubPairPlainPrefix(p, d + (y + (d + rest)), d);
    SubPairStripsPair(y, rest, d);
    SubPairPlainPrefix(rest, "", d);
    assert rest + "" == rest;
  }

  /** Link pass over `p[t](u)`, with `p` free of `[`. */
  lemma {:induction false} LinkPass(p: string, t: string, u: string)
    requires '[' !in p && Plain(t) && Plain(u)
    ensures SubLink(p + ("[" + (t + ("](" + (u + ")"))))) == p + t
  {
    var link := "[" + (t + ("](" + (u + ")")));
    assert "[" + t + "](" + u + ")" + "" == link;
    SubLinkStripsLink(t, u, "");
    assert SubLink(link) == t;
    SubLinkPlainPrefix(p, link);
  }

  /** The italic pass over `x a*y*rest` keeps the plain text and drops the stars. */
  lemma {:induction false} ItalicStage(x: string, a: string, y: string, rest: string)
    requires Plain(x) && Plain(a) && Plain(y) && '*' !in rest
    ensures SubPair(x + (a + ("*" + (y + ("*" + rest)))), "*") == x + (a + (y + rest))
  {
    SubPairPlainPrefix(x, a + ("*" + (y + ("*" + rest))), "*");
    DelimitedPass(a, y, rest, "*");
  }

  /** The code pass over `x a y b`z`rest` keeps the plain text and drops the backquotes. */
  lemma {:induction false} CodeStage(x: string, a: string, y: string, b: string, z: string, rest: string)
    requires Plain(x) && Plain(a) && Plain(y) && Plain(b) && Plain(z) && '`' !in rest
    ensures SubPair(x + (a + (y + (b + ("`" + (z + ("`" + rest)))))), "`") == x + (a + (y + (b + (z + rest))))
  {
    var bz := b + ("`" + (z + ("`" + rest)));
    SubPairPlainPrefix(x, a + (y + bz), "`");
    SubPairPlainPrefix(a, y + bz, "`");
    SubPairPlainPrefix(y, bz, "`");
    DelimitedPass(b, z, rest, "`");
  }

  /** The link pass over `x a y b z c[t](u)` keeps the link text and drops its target. */
  lemma {:induction false} LinkStage(x: string, a: string, y: string, b: string, z: string, c: string, t: string, u: string)
    requires Plain(x) && Plain(a) && Plain(y) && Plain(b) && Plain(z) && Plain(c) && Plain(t) && Plain(u)
    ensures SubLink(x + (a + (y + (b + (z + (c + ("[" + (t + ("](" + (u + ")")))))))))) ==
      x + (a + (y + (b + (z + (c + t)))))
  {
    var cl := c + ("[" + (t + ("](" + (u + ")"))));
    SubLinkPlainPrefix(x, a + (y + (b + (z + cl))));
    SubLinkPlainPrefix(a, y + (b + (z + cl)));
    SubLinkPlainPrefix(y, b + (z + cl));
    SubLinkPlainPrefix(b, z + cl);
    SubLinkPlainPrefix(z, cl);
    LinkPass(c, t, u);
  }

  /**
   * One passage with one of each kind of markup, in the order bold, italic, inline
   * code, link (`**x**a*y*b`z`c[t](u)`): the cleaning chain removes every marker,
   * keeps the link text and drops the link target.
   */
  lemma {:induction false} CleanMarkupOfEachKind(x: string, a: string, y: string, b: string, z: string, c: string, t: string, u: string)
    requires Plain(x) && Plain(a) && Plain(y) && Plain(b) && Plain(z) && Plain(c) && Plain(t) && Plain(u)
    requires y != []
    ensures CleanMarkup("**" + (x + ("**" + (a + ("*" + (y + ("*" + (b + ("`" + (z + ("`" + (c + ("[" + (t + ("](" + (u + ")"))))))))))))))))
            == x + (a + (y + (b + (z + (c + t)))))
  {
    var cl := c + ("[" + (t + ("](" + (u + ")"))));
    var rest := b + ("`" + (z + ("`" + cl)));
    BoldPass(x, a, y, rest);
    ItalicStage(x, a, y, rest);
    CodeStage(x, a, y, b, z, cl);
    LinkStage(x, a, y, b, z, c, t, u);
  }
}
