/**
 * The JavaScript string built-ins the client code calls, String.prototype.trim
 * and split on a one-character separator, together with three helpers the
 * client does not call: first and last position of a character, which
 * express the greedy match of `/{[\s\S]*}/`, and join, the inverse of
 * split, which states that the line fallback loses no text.
 * Strings are sequences of characters; the whitespace set is the one
 * ECMAScript's trim removes (WhiteSpace and LineTerminator).
 */
module JsText {
  import opened Wrappers

  /** ECMAScript WhiteSpace or LineTerminator code point. */
  predicate IsWhitespace(c: char) {
    var n := c as int;
    n == 0x09 || n == 0x0A || n == 0x0B || n == 0x0C || n == 0x0D || n == 0x20 ||
    n == 0xA0 || n == 0x1680 || (0x2000 <= n <= 0x200A) ||
    n == 0x2028 || n == 0x2029 || n == 0x202F || n == 0x205F || n == 0x3000 || n == 0xFEFF
  }

  predicate AllWhitespace(s: string) {
    forall i :: 0 <= i < |s| ==> IsWhitespace(s[i])
  }

  /** Neither end of `s` is whitespace (what trim returns). */
  predicate IsTrimmed(s: string) {
    s == [] || (!IsWhitespace(s[0]) && !IsWhitespace(s[|s| - 1]))
  }

  lemma AllWhitespaceCons(c: char, s: string)
    requires IsWhitespace(c) && AllWhitespace(s)
    ensures AllWhitespace([c] + s) && AllWhitespace(s + [c])
  {
    assert forall i :: 0 < i <= |s| ==> ([c] + s)[i] == s[i - 1];
    assert forall i :: 0 <= i < |s| ==> (s + [c])[i] == s[i];
  }

  /** Drops the leading whitespace: the result is the suffix that starts at the first non-whitespace character. */
  function TrimStart(s: string): (r: string)
    ensures |r| <= |s| && r == s[|s| - |r|..]
    ensures AllWhitespace(s[..|s| - |r|])
    ensures r == [] || !IsWhitespace(r[0])
    decreases |s|
  {
    if |s| > 0 && IsWhitespace(s[0]) then
      var r := TrimStart(s[1..]);
      assert s[..|s| - |r|] == [s[0]] + s[1..][..|s| - 1 - |r|];
      AllWhitespaceCons(s[0], s[1..][..|s| - 1 - |r|]);
      r
    else
      s
  }

  /** Drops the trailing whitespace: the result is the prefix that ends at the last non-whitespace character. */
  function TrimEnd(s: string): (r: string)
    ensures |r| <= |s| && r == s[..|r|]
    ensures AllWhitespace(s[|r|..])
    ensures r == [] || !IsWhitespace(r[|r| - 1])
    decreases |s|
  {
    if |s| > 0 && IsWhitespace(s[|s| - 1]) then
      var r := TrimEnd(s[..|s| - 1]);
      assert s[|r|..] == s[..|s| - 1][|r|..] + [s[|s| - 1]];
      AllWhitespaceCons(s[|s| - 1], s[..|s| - 1][|r|..]);
      r
    else
      s
  }

  /** String.prototype.trim. */
  function Trim(s: string): string {
    TrimEnd(TrimStart(s))
  }

  /** Trim keeps a contiguous middle part of `s`, removes only whitespace around it, and leaves both ends non-whitespace. */
  lemma TrimSpec(s: string)
    ensures IsTrimmed(Trim(s))
    ensures exists a :: 0 <= a <= |s| - |Trim(s)| && s[a..a + |Trim(s)|] == Trim(s)
                         && AllWhitespace(s[..a]) && AllWhitespace(s[a + |Trim(s)|..])
  {
    TrimIsTrimmed(s);
    var t := TrimStart(s);
    var r := TrimEnd(t);
    assert r == Trim(s);
    var a := |s| - |t|;
    assert 0 <= a <= |s| - |r|;
    assert AllWhitespace(s[..a]);
    assert s[a..a + |r|] == r by {
      assert s[a..] == t;
      assert t[..|r|] == r;
    }
    assert AllWhitespace(s[a + |r|..]) by {
      assert s[a + |r|..] == t[|r|..];
    }
  }

  lemma {:induction false} TrimStartOfPadded(w: string, p: string)
    requires AllWhitespace(w)
    requires p == [] || !IsWhitespace(p[0])
    ensures TrimStart(w + p) == p
    decreases |w|
  {
    if w != [] {
      assert (w + p)[1..] == w[1..] + p;
      TrimStartOfPadded(w[1..], p);
    }
  }

  lemma {:induction false} TrimEndOfPadded(p: string, w: string)
    requires AllWhitespace(w)
    requires p == [] || !IsWhitespace(p[|p| - 1])
    ensures TrimEnd(p + w) == p
    decreases |w|
  {
    if w != [] {
      assert (p + w)[..|p + w| - 1] == p + w[..|w| - 1];
      TrimEndOfPadded(p, w[..|w| - 1]);
    }
  }

  /** The converse of TrimSpec: whitespace around a trimmed string is exactly what trim removes. */
  lemma TrimOfPadded(w1: string, p: string, w2: string)
    requires AllWhitespace(w1) && AllWhitespace(w2) && IsTrimmed(p)
    ensures Trim(w1 + p + w2) == p
  {
    if p == [] {
      assert w1 + p + w2 == w1 + w2;
      assert AllWhitespace(w1 + w2);
      TrimStartOfPadded(w1 + w2, []);
      assert w1 + w2 + [] == w1 + w2;
    } else {
      assert w1 + p + w2 == w1 + (p + w2);
      TrimStartOfPadded(w1, p + w2);
      TrimEndOfPadded(p, w2);
    }
  }

  lemma TrimIsTrimmed(s: string)
    ensures IsTrimmed(Trim(s))
  {
    var t := TrimStart(s);
    var r := TrimEnd(t);
    if r != [] {
      assert r[0] == t[0];
    }
  }

  /** trim is idempotent, and it leaves exactly the trimmed strings unchanged. */
  lemma TrimIdempotent(s: string)
    ensures Trim(Trim(s)) == Trim(s)
    ensures Trim(s) == s <==> IsTrimmed(s)
  {
    TrimIsTrimmed(s);
    TrimOfTrimmed(Trim(s));
    if IsTrimmed(s) {
      TrimOfTrimmed(s);
    }
  }

  lemma TrimOfTrimmed(p: string)
    requires IsTrimmed(p)
    ensures Trim(p) == p
  {
    TrimOfPadded([], p, []);
    assert [] + p + [] == p;
  }

  /** Trim only removes characters: one absent from `s` is absent from the result. */
  lemma TrimDropsOnly(s: string, c: char)
    requires c !in s
    ensures c !in Trim(s)
  {
    var t := TrimStart(s);
    assert t == s[|s| - |t|..];
    assert TrimEnd(t) == t[..|TrimEnd(t)|];
  }

  /** Leading whitespace is only looked for in front of the first non-whitespace character. */
  lemma {:induction false} TrimStartConcat(x: string, y: string)
    requires |y| > 0 && !IsWhitespace(y[0])
    ensures TrimStart(x + y) == TrimStart(x) + y
    decreases |x|
  {
    if x == [] {
      assert x + y == y;
    } else {
      assert (x + y)[0] == x[0] && (x + y)[1..] == x[1..] + y;
      TrimStartConcat(x[1..], y);
    }
  }

  /** Trailing whitespace is only looked for behind the last non-whitespace character. */
  lemma {:induction false} TrimEndConcat(x: string, y: string)
    requires |x| > 0 && !IsWhitespace(x[|x| - 1])
    ensures TrimEnd(x + y) == x + TrimEnd(y)
    decreases |y|
  {
    if y == [] {
      assert x + y == x;
    } else {
      assert (x + y)[|x + y| - 1] == y[|y| - 1] && (x + y)[..|x + y| - 1] == x + y[..|y| - 1];
      TrimEndConcat(x, y[..|y| - 1]);
    }
  }

  /** Around a middle part whose ends are not whitespace, trim only shortens the outer parts. */
  lemma TrimAround(pre: string, mid: string, post: string)
    requires |mid| > 0 && !IsWhitespace(mid[0]) && !IsWhitespace(mid[|mid| - 1])
    ensures Trim(pre + mid + post) == TrimStart(pre) + mid + TrimEnd(post)
  {
    assert pre + mid + post == pre + (mid + post);
    TrimStartConcat(pre, mid + post);
    var t := TrimStart(pre) + mid;
    assert TrimStart(pre) + (mid + post) == t + post;
    TrimEndConcat(t, post);
  }

  /** The first position of `c` (what indexOf would give): where the greedy brace match starts. */
  function IndexOf(s: string, c: char): (r: Option<nat>)
    ensures r.Some? ==> r.value < |s| && s[r.value] == c && c !in s[..r.value]
    ensures r.None? ==> c !in s
  {
    if |s| == 0 then None
    else if s[0] == c then Some(0)
    else match IndexOf(s[1..], c)
      case None => None
      case Some(k) => Some(k + 1)
  }

  /** The last position of `c` (what lastIndexOf would give): where the greedy brace match ends. */
  function LastIndexOf(s: string, c: char): (r: Option<nat>)
    ensures r.Some? ==> r.value < |s| && s[r.value] == c && c !in s[r.value + 1..]
    ensures r.None? ==> c !in s
  {
    if |s| == 0 then None
    else if s[|s| - 1] == c then Some(|s| - 1)
    else LastIndexOf(s[..|s| - 1], c)
  }

  /** indexOf finds an occurrence no later than any given one. */
  lemma IndexOfFirst(s: string, c: char, k: nat)
    requires k < |s| && s[k] == c
    ensures IndexOf(s, c).Some? && IndexOf(s, c).value <= k
  {
    assert s[k] in s;
    var r := IndexOf(s, c);
    assert forall m :: 0 <= m < r.value ==> s[..r.value][m] == s[m];
  }

  /** lastIndexOf finds an occurrence no earlier than any given one. */
  lemma LastIndexOfLast(s: string, c: char, k: nat)
    requires k < |s| && s[k] == c
    ensures LastIndexOf(s, c).Some? && LastIndexOf(s, c).value >= k
  {
    assert s[k] in s;
    var r := LastIndexOf(s, c);
    assert forall m :: r.value < m < |s| ==> s[r.value + 1..][m - r.value - 1] == s[m];
  }

  /** After a prefix free of `c`, the first `c` is the one that starts the rest. */
  lemma IndexOfAfterPrefix(pre: string, rest: string, c: char)
    requires c !in pre && |rest| > 0 && rest[0] == c
    ensures IndexOf(pre + rest, c) == Some(|pre|)
  {
    var s := pre + rest;
    IndexOfFirst(s, c, |pre|);
    assert forall k :: 0 <= k < |pre| ==> s[k] == pre[k];
  }

  /** Before a suffix free of `c`, the last `c` is the one that ends the rest. */
  lemma LastIndexOfBeforeSuffix(rest: string, post: string, c: char)
    requires c !in post && |rest| > 0 && rest[|rest| - 1] == c
    ensures LastIndexOf(rest + post, c) == Some(|rest| - 1)
  {
    var s := rest + post;
    LastIndexOfLast(s, c, |rest| - 1);
    assert forall k :: |rest| <= k < |s| ==> s[k] == post[k - |rest|];
  }

  /** Number of occurrences of `c` in `s`. */
  function Count(s: string, c: char): nat {
    if |s| == 0 then 0 else (if s[0] == c then 1 else 0) + Count(s[1..], c)
  }

  /** String.prototype.split with a one-character separator: always at least one piece, empty pieces kept. */
  function Split(s: string, sep: char): (r: seq<string>)
    ensures |r| >= 1
  {
    if |s| == 0 then [""]
    else
      var rest := Split(s[1..], sep);
      if s[0] == sep then [""] + rest else [[s[0]] + rest[0]] + rest[1..]
  }

  /** Joining pieces with a one-character separator (as Array.prototype.join does): the inverse of Split. */
  function Join(parts: seq<string>, sep: char): string {
    if |parts| == 0 then ""
    else if |parts| == 1 then parts[0]
    else parts[0] + [sep] + Join(parts[1..], sep)
  }

  lemma JoinConsHead(c: char, x: string, xs: seq<string>, sep: char)
    ensures Join([[c] + x] + xs, sep) == [c] + Join([x] + xs, sep)
  {
    assert ([[c] + x] + xs)[1..] == xs;
    assert ([x] + xs)[1..] == xs;
  }

  /** Splitting on `sep` and joining with `sep` gives back the original string. */
  lemma {:induction false} JoinSplit(s: string, sep: char)
    ensures Join(Split(s, sep), sep) == s
    decreases |s|
  {
    if |s| > 0 {
      var rest := Split(s[1..], sep);
      JoinSplit(s[1..], sep);
      if s[0] == sep {
        assert ([""] + rest)[1..] == rest;
        assert Join([""] + rest, sep) == [sep] + Join(rest, sep);
        assert s == [s[0]] + s[1..];
      } else {
        assert rest == [rest[0]] + rest[1..];
        JoinConsHead(s[0], rest[0], rest[1..], sep);
        assert s == [s[0]] + s[1..];
      }
    }
  }

  /** No piece contains the separator, and there is one piece more than there are separators. */
  lemma {:induction false} SplitPieces(s: string, sep: char)
    ensures |Split(s, sep)| == Count(s, sep) + 1
    ensures forall i :: 0 <= i < |Split(s, sep)| ==> sep !in Split(s, sep)[i]
    decreases |s|
  {
    if |s| > 0 {
      SplitPieces(s[1..], sep);
    }
  }

  /** A string without the separator splits into itself alone. */
  lemma {:induction false} SplitWithoutSeparator(s: string, sep: char)
    requires sep !in s
    ensures Split(s, sep) == [s]
    decreases |s|
  {
    if |s| > 0 {
      assert forall c :: c in s[1..] ==> c in s;
      SplitWithoutSeparator(s[1..], sep);
      assert s == [s[0]] + s[1..];
    }
  }
}
