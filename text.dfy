/**
 * The handful of Python string operations the marker rewriter is built from:
 * `str.find`, `str.split` with an explicit one-character separator, `str.join`
 * and slicing with non-negative bounds. Strings are `seq<char>`.
 */
module Text {

  datatype Option<T> = None | Some(value: T)

  /** `sub` occurs in `s` starting at index `i`. */
  predicate OccursAt(s: string, sub: string, i: nat) {
    i + |sub| <= |s| && s[i..i + |sub|] == sub
  }

  /**
   * Python's `s.find(sub, start)` for a start that is not negative: the lowest
   * index at or after `start` where `sub` occurs, or -1 when there is none.
   */
  function Find(s: string, sub: string, start: nat): (r: int)
    ensures r == -1 || (start <= r && OccursAt(s, sub, r))
    decreases |s| - start
  {
    if start + |sub| > |s| then -1
    else if s[start..start + |sub|] == sub then start
    else Find(s, sub, start + 1)
  }

  /** `Find` returns the first occurrence: none lies between `start` and the result. */
  lemma {:induction false} FindIsFirst(s: string, sub: string, start: nat)
    ensures Find(s, sub, start) == -1 ==> forall i :: start <= i ==> !OccursAt(s, sub, i)
    ensures Find(s, sub, start) >= 0 ==> forall i :: start <= i < Find(s, sub, start) ==> !OccursAt(s, sub, i)
    decreases |s| - start
  {
    if start + |sub| <= |s| && s[start..start + |sub|] != sub {
      FindIsFirst(s, sub, start + 1);
    }
  }

  /** Python's `sub in s`. */
  predicate Contains(s: string, sub: string) {
    Find(s, sub, 0) >= 0
  }

  /** When `sub` occurs at `p` and nowhere between `start` and `p`, `find` returns `p`. */
  lemma FindAt(s: string, sub: string, start: nat, p: nat)
    requires start <= p && OccursAt(s, sub, p)
    requires forall q :: start <= q < p ==> !OccursAt(s, sub, q)
    ensures Find(s, sub, start) == p
  {
    FindIsFirst(s, sub, start);
  }

  /** The characters of an occurrence are those of the needle. */
  lemma OccursAtChar(s: string, sub: string, q: nat, j: nat)
    requires OccursAt(s, sub, q) && j < |sub|
    ensures s[q + j] == sub[j]
  {
    assert s[q..q + |sub|][j] == s[q + j];
  }

  /** Inside a concatenation, an occurrence within the middle part is one of that part. */
  lemma OccursWithin(pre: string, s: string, post: string, sub: string, q: nat)
    requires q + |sub| <= |s|
    ensures OccursAt(pre + s + post, sub, |pre| + q) <==> OccursAt(s, sub, q)
  {
    assert (pre + s + post)[|pre| + q..|pre| + q + |sub|] == s[q..q + |sub|];
  }

  /**
   * An occurrence of `sub` in `a + [x] + b`, where `x` is not a character of
   * `sub`, lies wholly inside `a` or wholly inside `b`.
   */
  lemma OccursSplit(a: string, x: char, b: string, sub: string, q: nat)
    requires x !in sub && OccursAt(a + [x] + b, sub, q)
    ensures OccursAt(a, sub, q) || (|a| + 1 <= q && OccursAt(b, sub, q - |a| - 1))
  {
    var s := a + [x] + b;
    if q + |sub| <= |a| {
      assert s[q..q + |sub|] == a[q..q + |sub|];
    } else if q <= |a| {
      OccursAtChar(s, sub, q, |a| - q);
      assert false;
    } else {
      assert s[q..q + |sub|] == b[q - |a| - 1..q - |a| - 1 + |sub|];
    }
  }

  /** A string that does not contain `sub` has it at no position. */
  lemma NotContains(s: string, sub: string)
    requires !Contains(s, sub)
    ensures forall q :: !OccursAt(s, sub, q)
  {
    FindIsFirst(s, sub, 0);
  }

  /** Python's `sep.join(words)` for a one-character separator. */
  function Join(words: seq<string>, sep: char): string
    decreases |words|
  {
    if words == [] then ""
    else if |words| == 1 then words[0]
    else words[0] + [sep] + Join(words[1..], sep)
  }

  /**
   * Python's `s.split(sep)` with an explicit one-character separator: every
   * separator ends a piece, so `n` separators give `n + 1` pieces, some of
   * them possibly empty.
   */
  function Split(s: string, sep: char): (r: seq<string>)
    ensures |r| >= 1
    ensures forall w :: w in r ==> sep !in w
    decreases |s|
  {
    if |s| == 0 then [""]
    else
      var rest := Split(s[1..], sep);
      if s[0] == sep then [""] + rest
      else [[s[0]] + rest[0]] + rest[1..]
  }

  /** Joining the pieces of a split with the same separator restores the string. */
  lemma {:induction false} JoinSplit(s: string, sep: char)
    ensures Join(Split(s, sep), sep) == s
    decreases |s|
  {
    if |s| > 0 {
      JoinSplit(s[1..], sep);
      var rest := Split(s[1..], sep);
      assert s == [s[0]] + s[1..];
      if s[0] != sep {
        var r := [[s[0]] + rest[0]] + rest[1..];
        assert r[1..] == rest[1..];
      }
    }
  }

  /** Python's `s[lo:hi]` for bounds that are not negative: clamped to the string. */
  function PySlice(s: string, lo: nat, hi: nat): (r: string)
    ensures lo <= hi <= |s| ==> r == s[lo..hi]
    ensures hi <= lo ==> r == ""
    ensures lo <= |s| && |s| <= hi ==> r == s[lo..]
  {
    if lo >= hi || lo >= |s| then ""
    else if hi <= |s| then s[lo..hi]
    else s[lo..]
  }

  /** A string without the separator splits into itself. */
  lemma {:induction false} SplitNoSep(w: string, sep: char)
    requires sep !in w
    ensures Split(w, sep) == [w]
  {
    if |w| > 0 {
      assert sep !in w[1..] by {
        forall i | 0 <= i < |w[1..]| ensures w[1..][i] != sep {
          assert w[1..][i] == w[i + 1];
        }
      }
      SplitNoSep(w[1..], sep);
      assert w == [w[0]] + w[1..];
    }
  }

  lemma Associative<T>(a: seq<T>, b: seq<T>, c: seq<T>)
    ensures a + b + c == a + (b + c)
  {
  }

  /** One unfolding of `Split` on a string given as first character and rest. */
  lemma SplitCons(x: char, rest: string, sep: char)
    ensures Split([x] + rest, sep)
      == if x == sep then [""] + Split(rest, sep)
         else [[x] + Split(rest, sep)[0]] + Split(rest, sep)[1..]
  {
    assert ([x] + rest)[1..] == rest;
  }

  lemma AppendFirst<T>(r: seq<T>, q: seq<T>)
    requires |r| >= 1
    ensures (r + q)[0] == r[0] && (r + q)[1..] == r[1..] + q
  {
  }

  /** A separator splits a string into the pieces of its two sides. */
  lemma {:induction false} SplitAppend(a: string, b: string, sep: char)
    ensures Split(a + [sep] + b, sep) == Split(a, sep) + Split(b, sep)
    decreases |a|
  {
    if |a| == 0 {
      assert a + [sep] + b == [sep] + b;
      SplitCons(sep, b, sep);
    } else {
      var tail := a[1..] + [sep] + b;
      assert a + [sep] + b == [a[0]] + tail;
      assert a == [a[0]] + a[1..];
      SplitCons(a[0], tail, sep);
      SplitCons(a[0], a[1..], sep);
      SplitAppend(a[1..], b, sep);
      var ra, rb := Split(a[1..], sep), Split(b, sep);
      if a[0] == sep {
        Associative([""], ra, rb);
      } else {
        AppendFirst(ra, rb);
        Associative([[a[0]] + ra[0]], ra[1..], rb);
      }
    }
  }

  /** Splitting a joined list of separator-free words gives back the words. */
  lemma {:induction false} SplitJoin(words: seq<string>, sep: char)
    requires |words| >= 1
    requires forall w :: w in words ==> sep !in w
    ensures Split(Join(words, sep), sep) == words
    decreases |words|
  {
    if |words| == 1 {
      SplitNoSep(words[0], sep);
    } else {
      assert words[0] in words;
      forall w | w in words[1..] ensures sep !in w {
        assert w in words;
      }
      SplitJoin(words[1..], sep);
      SplitAppend(words[0], Join(words[1..], sep), sep);
      SplitNoSep(words[0], sep);
      assert words == [words[0]] + words[1..];
    }
  }

  /** In `pre + s + post`, where `s` begins with `open`, the search for `open` from `|pre|` stops at once. */
  lemma OpenAt(pre: string, s: string, post: string, open: string)
    requires OccursAt(s, open, 0)
    ensures Find(pre + s + post, open, |pre|) == |pre|
  {
    OccursWithin(pre, s, post, open, 0);
    FindAt(pre + s + post, open, |pre|, |pre|);
  }

  /**
   * In `pre + s + post`, where `s` holds `close` only as its last characters,
   * the search for `close` from just after the start of `s` finds the end of
   * `s`.
   */
  lemma CloseAt(pre: string, s: string, post: string, close: string)
    requires |close| < |s| && OccursAt(s, close, |s| - |close|)
    requires forall q: nat :: q + |close| < |s| ==> !OccursAt(s, close, q)
    ensures Find(pre + s + post, close, |pre| + 1) == |pre| + |s| - |close|
  {
    OccursWithin(pre, s, post, close, |s| - |close|);
    NoneWithin(pre, s, post, close);
    FindAt(pre + s + post, close, |pre| + 1, |pre| + |s| - |close|);
  }

  /** No occurrence of `close` starts inside `s` before its last characters. */
  lemma NoneWithin(pre: string, s: string, post: string, close: string)
    requires |close| < |s|
    requires forall q: nat :: q + |close| < |s| ==> !OccursAt(s, close, q)
    ensures forall q: nat :: |pre| + 1 <= q < |pre| + |s| - |close| ==> !OccursAt(pre + s + post, close, q)
  {
    forall q: nat | |pre| + 1 <= q < |pre| + |s| - |close| ensures !OccursAt(pre + s + post, close, q) {
      OccursWithin(pre, s, post, close, q - |pre|);
    }
  }
}
