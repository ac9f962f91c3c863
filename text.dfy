/** The handful of Rust `str` operations the pipeline relies on, written out
    so that their edge cases are part of the model: `split_whitespace`,
    `split(char)`, `trim_matches`, `trim_end_matches`, `starts_with` and
    `lines`. */
module Text {

  /** `char::is_whitespace`: the Unicode White_Space property. */
  predicate IsWhitespace(c: char) {
    || ('\t' <= c <= '\r')
    || c == ' '
    || c == '\U{85}'
    || c == '\U{A0}'
    || c == '\U{1680}'
    || ('\U{2000}' <= c <= '\U{200A}')
    || c == '\U{2028}'
    || c == '\U{2029}'
    || c == '\U{202F}'
    || c == '\U{205F}'
    || c == '\U{3000}'
  }

  predicate NoWhitespace(s: string) {
    forall i :: 0 <= i < |s| ==> !IsWhitespace(s[i])
  }

  /** A piece `split_whitespace` can return: non-empty, with no whitespace. */
  predicate IsWord(s: string) {
    s != [] && NoWhitespace(s)
  }

  /** Length of the run of non-whitespace characters that starts `s`. */
  function WordLen(s: string): (n: nat)
    ensures n <= |s|
    ensures forall i :: 0 <= i < n ==> !IsWhitespace(s[i])
    ensures n < |s| ==> IsWhitespace(s[n])
  {
    if s == [] || IsWhitespace(s[0]) then 0 else 1 + WordLen(s[1..])
  }

  /** `str::split_whitespace`: the maximal runs of non-whitespace characters,
      in order. */
  function Tokens(s: string): (ts: seq<string>)
    ensures forall t | t in ts :: IsWord(t)
    decreases |s|
  {
    if s == [] then []
    else if IsWhitespace(s[0]) then Tokens(s[1..])
    else
      var n := WordLen(s);
      [s[..n]] + Tokens(s[n..])
  }

  /** Words joined by single spaces: the shape of every well-formed line. */
  function Unwords(ts: seq<string>): string {
    if ts == [] then []
    else if |ts| == 1 then ts[0]
    else ts[0] + " " + Unwords(ts[1..])
  }

  lemma {:induction false} WordLenOfWord(w: string, rest: string)
    requires NoWhitespace(w)
    requires rest == [] || IsWhitespace(rest[0])
    ensures WordLen(w + rest) == |w|
  {
    if w == [] {
      assert w + rest == rest;
    } else {
      assert (w + rest)[1..] == w[1..] + rest;
      assert (w + rest)[0] == w[0];
      WordLenOfWord(w[1..], rest);
    }
  }

  /** `split_whitespace` is a left inverse of joining words with spaces. */
  lemma UnwordsOfTwo(a: string, b: string)
    ensures Unwords([a, b]) == a + " " + b
  {
    assert [a, b][1..] == [b];
  }

  lemma UnwordsOfThree(a: string, b: string, c: string)
    ensures Unwords([a, b, c]) == a + " " + b + " " + c
  {
    assert [a, b, c][1..] == [b, c];
    UnwordsOfTwo(b, c);
  }

  lemma {:induction false} TokensOfUnwords(ts: seq<string>)
    requires forall t | t in ts :: IsWord(t)
    ensures Tokens(Unwords(ts)) == ts
  {
    if ts == [] {
    } else if |ts| == 1 {
      var w := ts[0];
      assert w in ts;
      WordLenOfWord(w, []);
      assert w + [] == w;
      assert w[..|w|] == w;
      assert w[|w|..] == [];
    } else {
      var w, rest := ts[0], " " + Unwords(ts[1..]);
      assert w in ts;
      assert forall t | t in ts[1..] :: t in ts;
      assert Unwords(ts) == w + rest;
      WordLenOfWord(w, rest);
      assert (w + rest)[..|w|] == w;
      assert (w + rest)[|w|..] == rest;
      assert rest[1..] == Unwords(ts[1..]);
      TokensOfUnwords(ts[1..]);
    }
  }

  function IndexOf(s: string, c: char): (i: nat)
    requires c in s
    ensures i < |s| && s[i] == c && c !in s[..i]
  {
    if s[0] == c then 0 else 1 + IndexOf(s[1..], c)
  }

  /** `str::split(sep)`: the pieces between occurrences of `sep`; there is
      always at least one, and one more than there are separators. */
  function Split(s: string, sep: char): (parts: seq<string>)
    ensures |parts| == multiset(s)[sep] + 1
    ensures forall p | p in parts :: sep !in p
    decreases |s|
  {
    if sep !in s then [s]
    else
      var i := IndexOf(s, sep);
      assert s == s[..i] + [sep] + s[i + 1..];
      [s[..i]] + Split(s[i + 1..], sep)
  }

  /** The pieces glued back together with `sep` between them. */
  function Join(parts: seq<string>, sep: char): string {
    if parts == [] then []
    else if |parts| == 1 then parts[0]
    else parts[0] + [sep] + Join(parts[1..], sep)
  }

  /** Splitting loses nothing: joining the pieces gives the string back. */
  lemma {:induction false} JoinSplit(s: string, sep: char)
    ensures Join(Split(s, sep), sep) == s
    decreases |s|
  {
    if sep in s {
      var i := IndexOf(s, sep);
      JoinSplit(s[i + 1..], sep);
      assert s == s[..i] + [sep] + s[i + 1..];
    }
  }

  function TrimStartMatches(s: string, c: char): (r: string)
    ensures |r| <= |s| && r == s[|s| - |r|..]
    ensures forall i :: 0 <= i < |s| - |r| ==> s[i] == c
    ensures r == [] || r[0] != c
  {
    if s != [] && s[0] == c then TrimStartMatches(s[1..], c) else s
  }

  /** `str::trim_end_matches(c)`: `s` without its trailing run of `c`. */
  function TrimEndMatches(s: string, c: char): (r: string)
    ensures |r| <= |s| && r == s[..|r|]
    ensures forall i :: |r| <= i < |s| ==> s[i] == c
    ensures r == [] || r[|r| - 1] != c
  {
    if s != [] && s[|s| - 1] == c then TrimEndMatches(s[..|s| - 1], c) else s
  }

  /** `str::trim_matches(c)`: both runs removed. */
  function TrimMatches(s: string, c: char): string {
    TrimEndMatches(TrimStartMatches(s, c), c)
  }

  predicate StartsWith(s: string, prefix: string) {
    |prefix| <= |s| && s[..|prefix|] == prefix
  }

  function StripCr(l: string): string {
    if l != [] && l[|l| - 1] == '\r' then l[..|l| - 1] else l
  }

  /** `str::lines`: the text split at each "\n", a "\r" directly before the
      "\n" dropped, and no empty last line after a final "\n". */
  function Lines(s: string): (ls: seq<string>)
    ensures forall l | l in ls :: '\n' !in l
    decreases |s|
  {
    if s == [] then []
    else if '\n' !in s then [s]
    else
      var i := IndexOf(s, '\n');
      assert '\n' !in StripCr(s[..i]) by {
        assert StripCr(s[..i]) == s[..i] || StripCr(s[..i]) == s[..i][..i - 1];
      }
      [StripCr(s[..i])] + Lines(s[i + 1..])
  }

  /** Lines each terminated by "\n" (a file written line by line). */
  function Terminated(ls: seq<string>): string {
    if ls == [] then [] else ls[0] + "\n" + Terminated(ls[1..])
  }

  /** A line as a writer would emit it: no "\n" inside, no "\r" at the end. */
  predicate PlainLine(l: string) {
    '\n' !in l && (l == [] || l[|l| - 1] != '\r')
  }

  /** `lines` recovers what was written line by line. */
  lemma {:induction false} LinesOfTerminated(ls: seq<string>)
    requires forall l | l in ls :: PlainLine(l)
    ensures Lines(Terminated(ls)) == ls
  {
    if ls != [] {
      var l, tail := ls[0], ls[1..];
      assert l in ls;
      assert forall t | t in tail :: t in ls;
      LinesOfTerminated(tail);
      TerminatedCons(ls);
      LinesConsPlain(l, Terminated(tail), tail);
    }
  }

  lemma TerminatedCons(ls: seq<string>)
    requires ls != []
    ensures Terminated(ls) == ls[0] + ("\n" + Terminated(ls[1..]))
  {
  }

  lemma LinesConsPlain(l: string, rest: string, tail: seq<string>)
    requires PlainLine(l)
    requires Lines(rest) == tail
    ensures Lines(l + ("\n" + rest)) == [l] + tail
  {
    LinesCons(l, rest);
  }

  lemma LinesCons(l: string, rest: string)
    requires '\n' !in l
    ensures Lines(l + ("\n" + rest)) == [StripCr(l)] + Lines(rest)
  {
    var s := l + ("\n" + rest);
    assert s[|l|] == '\n';
    IndexOfJoin(l, "\n" + rest, '\n');
    assert s[..|l|] == l;
    assert s[|l| + 1..] == rest;
  }

  /** The first `c` of `a + b` is where `b` starts, when `a` holds none
      and `b` starts with one. */
  lemma {:induction false} IndexOfJoin(a: string, b: string, c: char)
    requires c !in a && b != [] && b[0] == c
    ensures c in a + b && IndexOf(a + b, c) == |a|
  {
    assert (a + b)[|a|] == c;
    if a != [] {
      assert (a + b)[0] == a[0];
      assert (a + b)[1..] == a[1..] + b;
      IndexOfJoin(a[1..], b, c);
    }
  }
}
