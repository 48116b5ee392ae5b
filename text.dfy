/**
 * Character and string helpers with the meaning Python's `str` methods give
 * them: `strip()`, `split(sep)`, `split()`, `replace(a, b)`, `upper()` and
 * `startswith(p)`.
 */
module Text {

  /** Python's `str.isspace()`: the characters that `strip()`, `split()`,
    * `float()` and the `Fraction` parser all treat as blank. */
  predicate IsSpace(c: char)
  {
    var n := c as int;
    || (0x09 <= n <= 0x0D) || (0x1C <= n <= 0x20) || n == 0x85 || n == 0xA0
    || n == 0x1680 || (0x2000 <= n <= 0x200A) || n == 0x2028 || n == 0x2029
    || n == 0x202F || n == 0x205F || n == 0x3000
  }

  /** `s.lstrip()` */
  function TrimStart(s: string): (r: string)
    ensures |r| <= |s|
    ensures r == [] || !IsSpace(r[0])
    ensures forall i :: 0 <= i < |s| - |r| ==> IsSpace(s[i])
  {
    if |s| > 0 && IsSpace(s[0]) then TrimStart(s[1..]) else s
  }

  /** `s.rstrip()` */
  function TrimEnd(s: string): (r: string)
    ensures |r| <= |s|
    ensures r == [] || !IsSpace(r[|r| - 1])
    ensures forall i :: |r| <= i < |s| ==> IsSpace(s[i])
  {
    if |s| > 0 && IsSpace(s[|s| - 1]) then TrimEnd(s[..|s| - 1]) else s
  }

  /** `lstrip()` keeps a suffix. */
  lemma {:induction false} TrimStartSlice(s: string)
    ensures TrimStart(s) == s[|s| - |TrimStart(s)|..]
    decreases |s|
  {
    if |s| > 0 && IsSpace(s[0]) {
      TrimStartSlice(s[1..]);
      assert s[1..][|s| - 1 - |TrimStart(s)|..] == s[|s| - |TrimStart(s)|..];
    }
  }

  /** `rstrip()` keeps a prefix. */
  lemma {:induction false} TrimEndSlice(s: string)
    ensures TrimEnd(s) == s[..|TrimEnd(s)|]
    decreases |s|
  {
    if |s| > 0 && IsSpace(s[|s| - 1]) {
      TrimEndSlice(s[..|s| - 1]);
      assert s[..|s| - 1][..|TrimEnd(s)|] == s[..|TrimEnd(s)|];
    }
  }

  /** `s.strip()`: blanks removed from both ends. */
  function Strip(s: string): string
  {
    TrimEnd(TrimStart(s))
  }

  /** What `strip()` leaves neither starts nor ends with a blank. */
  lemma StripBordes(s: string)
    ensures var r := Strip(s); r == [] || (!IsSpace(r[0]) && !IsSpace(r[|r| - 1]))
  {
    var t := TrimStart(s);
    var r := TrimEnd(t);
    TrimEndSlice(t);
    if r != [] {
      assert r[0] == t[0];
    }
  }

  /** `strip()` keeps a slice of `s` and removes nothing but blanks: it is
    * the longest slice that neither starts nor ends with a blank. */
  lemma StripSlice(s: string)
    ensures var r := Strip(s);
            var i := |s| - |TrimStart(s)|;
            && i + |r| <= |s| && r == s[i..i + |r|]
            && (forall k :: 0 <= k < i ==> IsSpace(s[k]))
            && (forall k :: i + |r| <= k < |s| ==> IsSpace(s[k]))
  {
    var t := TrimStart(s);
    var r := TrimEnd(t);
    TrimStartSlice(s);
    TrimEndSlice(t);
    SliceOfSuffix(s, t, r, |s| - |t|);
    assert Strip(s) == r;
  }

  lemma SliceOfSuffix(s: string, t: string, r: string, i: nat)
    requires i <= |s| && t == s[i..] && |r| <= |t| && r == t[..|r|]
    requires forall k :: |r| <= k < |t| ==> IsSpace(t[k])
    ensures i + |r| <= |s| && r == s[i..i + |r|]
    ensures forall k :: i + |r| <= k < |s| ==> IsSpace(s[k])
  {
    forall k | i + |r| <= k < |s| ensures IsSpace(s[k]) {
      assert s[k] == t[k - i];
    }
  }

  /** A string that neither starts nor ends with a blank is left alone by
    * `strip()`; in particular `strip()` is idempotent. */
  lemma StripNoop(s: string)
    requires s == [] || (!IsSpace(s[0]) && !IsSpace(s[|s| - 1]))
    ensures Strip(s) == s
  {
  }

  lemma StripIdempotent(s: string)
    ensures Strip(Strip(s)) == Strip(s)
  {
    StripBordes(s);
    StripNoop(Strip(s));
  }

  /** `s.replace(a, b)` for one-character `a` and `b`. */
  function ReplaceChar(s: string, a: char, b: char): (r: string)
    ensures |r| == |s|
    ensures forall i :: 0 <= i < |s| ==> r[i] == (if s[i] == a then b else s[i])
  {
    if s == [] then [] else [if s[0] == a then b else s[0]] + ReplaceChar(s[1..], a, b)
  }

  /** Replacing `a` by `b` and then `b` back by `a` restores a string that
    * held no `b` to begin with. */
  lemma ReplaceCharBack(s: string, a: char, b: char)
    requires b !in s
    ensures ReplaceChar(ReplaceChar(s, a, b), b, a) == s
  {
    var r := ReplaceChar(ReplaceChar(s, a, b), b, a);
    assert forall i :: 0 <= i < |s| ==> r[i] == s[i] by {
      forall i | 0 <= i < |s| ensures r[i] == s[i] {
        assert s[i] in s;
      }
    }
  }

  /** A string without `a` is left alone by `replace(a, b)`. */
  lemma ReplaceCharAbsent(s: string, a: char, b: char)
    requires a !in s
    ensures ReplaceChar(s, a, b) == s
  {
    var r := ReplaceChar(s, a, b);
    forall i | 0 <= i < |s| ensures r[i] == s[i] {
      assert s[i] in s;
    }
  }

  /** After `replace(a, b)` no `a` is left, and a `b` appears wherever an
    * `a` was. */
  lemma ReplaceCharMembers(s: string, a: char, b: char)
    requires a != b
    ensures a !in ReplaceChar(s, a, b)
    ensures a in s ==> b in ReplaceChar(s, a, b)
  {
    var r := ReplaceChar(s, a, b);
    if a in s {
      var i :| 0 <= i < |s| && s[i] == a;
      assert r[i] == b;
    }
  }

  /** `replace(a, b)` brings in no character but `b`. */
  lemma ReplaceCharKeepsOut(s: string, a: char, b: char, c: char)
    requires c !in s && c != b
    ensures c !in ReplaceChar(s, a, b)
  {
  }

  lemma ReplaceCharAppend(u: string, w: string, a: char, b: char)
    ensures ReplaceChar(u + w, a, b) == ReplaceChar(u, a, b) + ReplaceChar(w, a, b)
  {
    var r := ReplaceChar(u + w, a, b);
    var q := ReplaceChar(u, a, b) + ReplaceChar(w, a, b);
    forall i | 0 <= i < |u + w| ensures r[i] == q[i] {
      if i < |u| { assert (u + w)[i] == u[i]; } else { assert (u + w)[i] == w[i - |u|]; }
    }
  }

  /** Upper-casing of the ASCII letters. Python's full Unicode
    * `str.upper()` also turns a few non-ASCII characters into ASCII
    * capitals: `ı` into `I`, `ſ` into `S`, `ß` into `SS`, and the ligatures
    * `ﬀ ﬁ ﬂ ﬃ ﬄ ﬅ ﬆ` into `FF FI FL FFI FFL ST ST`. Every key this model
    * compares an upper-cased text against (the quality labels and `CAMP`)
    * is made of ASCII capitals other than `F`, `I` and `S`, digits, `_`,
    * `(`, `)` and blanks, so no text those characters upper-case into can
    * equal or begin one, and on these comparisons the two agree. */
  function UpperAscii(s: string): (r: string)
    ensures |r| == |s|
    ensures forall i :: 0 <= i < |s| ==> r[i] == UpperChar(s[i])
  {
    seq(|s|, i requires 0 <= i < |s| => UpperChar(s[i]))
  }

  function UpperChar(c: char): char
  {
    if 'a' <= c <= 'z' then (c as int - 32) as char else c
  }

  /** Upper-casing keeps blanks where they are and is idempotent. */
  lemma UpperAsciiBlanks(s: string)
    ensures forall i :: 0 <= i < |s| ==> (IsSpace(UpperAscii(s)[i]) <==> IsSpace(s[i]))
    ensures UpperAscii(UpperAscii(s)) == UpperAscii(s)
  {
  }

  /** Stripping an upper-cased stripped text changes nothing. */
  lemma StripUpperStrip(s: string)
    ensures Strip(UpperAscii(Strip(s))) == UpperAscii(Strip(s))
  {
    var t := Strip(s);
    var u := UpperAscii(t);
    StripBordes(s);
    UpperAsciiBlanks(t);
    if u != [] {
      assert IsSpace(u[0]) == IsSpace(t[0]);
      assert IsSpace(u[|u| - 1]) == IsSpace(t[|t| - 1]);
    }
    StripNoop(u);
  }

  /** Upper-casing commutes with stripping, since it maps blanks to blanks
    * and nothing else to a blank. */
  lemma {:induction false} TrimStartUpper(s: string)
    ensures TrimStart(UpperAscii(s)) == UpperAscii(TrimStart(s))
    decreases |s|
  {
    var u := UpperAscii(s);
    UpperAsciiBlanks(s);
    if |s| > 0 && IsSpace(s[0]) {
      assert u[1..] == UpperAscii(s[1..]);
      TrimStartUpper(s[1..]);
    }
  }

  lemma {:induction false} TrimEndUpper(s: string)
    ensures TrimEnd(UpperAscii(s)) == UpperAscii(TrimEnd(s))
    decreases |s|
  {
    var u := UpperAscii(s);
    UpperAsciiBlanks(s);
    if |s| > 0 && IsSpace(s[|s| - 1]) {
      UpperAsciiPrefix(s, |s| - 1);
      TrimEndUpper(s[..|s| - 1]);
    }
  }

  lemma UpperAsciiPrefix(s: string, k: nat)
    requires k <= |s|
    ensures UpperAscii(s)[..k] == UpperAscii(s[..k])
  {
    var u := UpperAscii(s);
    var v := UpperAscii(s[..k]);
    forall i | 0 <= i < k ensures u[i] == v[i] {
      assert s[..k][i] == s[i];
    }
  }

  lemma StripUpper(s: string)
    ensures Strip(UpperAscii(s)) == UpperAscii(Strip(s))
  {
    TrimStartUpper(s);
    TrimEndUpper(TrimStart(s));
  }

  /** A text of capital letters and underscores is its own upper case and
    * has no blanks to strip. */
  lemma CapitalsFixed(s: string)
    requires forall i :: 0 <= i < |s| ==> 'A' <= s[i] <= 'Z' || s[i] == '_'
    ensures UpperAscii(s) == s && Strip(s) == s
  {
    StripNoop(s);
  }

  /** `s.startswith(p)` */
  predicate StartsWith(s: string, p: string)
  {
    |p| <= |s| && s[..|p|] == p
  }

  /** Position of the first `c` in `s`, or `|s|` when there is none. */
  function IndexOf(s: string, c: char): (i: nat)
    ensures i <= |s|
    ensures i < |s| ==> s[i] == c
    ensures forall k :: 0 <= k < i ==> s[k] != c
    ensures i == |s| <==> c !in s
  {
    if s == [] then 0 else if s[0] == c then 0 else 1 + IndexOf(s[1..], c)
  }

  /** In `a + [c] + b` with no `c` inside `a`, the first `c` sits right
    * after `a`, and slicing around it gives `a` and `b` back. */
  lemma ConcatAround(a: string, c: char, b: string)
    requires c !in a
    ensures var s := a + [c] + b;
            && IndexOf(s, c) == |a| && s[..|a|] == a && s[|a| + 1..] == b
  {
    var s := a + [c] + b;
    assert s[|a|] == c;
    assert forall k :: 0 <= k < |a| ==> s[k] == a[k];
    assert s[..|a|] == a;
    assert s[|a| + 1..] == b;
  }

  /** Number of occurrences of `c` in `s`. */
  function Count(s: string, c: char): nat
  {
    if s == [] then 0 else (if s[0] == c then 1 else 0) + Count(s[1..], c)
  }

  /** `s.split(sep)` for a one-character separator: the pieces between the
    * separators, empty pieces included; joining them with `sep` gives `s`
    * back, and there is one more piece than there are separators. */
  function Split(s: string, sep: char): (parts: seq<string>)
    ensures |parts| == Count(s, sep) + 1
    ensures forall p :: p in parts ==> sep !in p
    ensures Join(parts, sep) == s
    decreases |s|
  {
    var i := IndexOf(s, sep);
    if i == |s| then
      CountAbsent(s, sep);
      [s]
    else
      CountSplit(s, sep, i);
      assert s == s[..i] + [sep] + s[i + 1..];
      [s[..i]] + Split(s[i + 1..], sep)
  }

  function Join(parts: seq<string>, sep: char): string
  {
    if parts == [] then [] else if |parts| == 1 then parts[0]
    else parts[0] + [sep] + Join(parts[1..], sep)
  }

  lemma CountAbsent(s: string, c: char)
    requires c !in s
    ensures Count(s, c) == 0
  {
    if s != [] {
      assert s[0] in s;
      assert forall x :: x in s[1..] ==> x in s;
      CountAbsent(s[1..], c);
    }
  }

  lemma CountSplit(s: string, c: char, i: nat)
    requires i < |s| && s[i] == c
    requires forall k :: 0 <= k < i ==> s[k] != c
    ensures Count(s, c) == 1 + Count(s[i + 1..], c)
  {
    if i > 0 {
      CountSplit(s[1..], c, i - 1);
      assert s[1..][i..] == s[i + 1..];
    }
  }

  /** Position of the first blank in `s`, or `|s|` when there is none. */
  function IndexOfSpace(s: string): (i: nat)
    ensures i <= |s|
    ensures i < |s| ==> IsSpace(s[i])
    ensures forall k :: 0 <= k < i ==> !IsSpace(s[k])
  {
    if s == [] then 0 else if IsSpace(s[0]) then 0 else 1 + IndexOfSpace(s[1..])
  }

  /** `s.split()` with no argument: the maximal runs of non-blank
    * characters, in order; blanks at either end give no empty piece. */
  function SplitWhitespace(s: string): (tokens: seq<string>)
    decreases |s|
  {
    var t := TrimStart(s);
    if t == [] then []
    else
      var i := IndexOfSpace(t);
      [t[..i]] + SplitWhitespace(t[i..])
  }

  /** A string without blanks splits into itself alone (or into nothing
    * when it is empty). */
  lemma SplitWhitespaceNoBlank(s: string)
    requires s != []
    requires forall k :: 0 <= k < |s| ==> !IsSpace(s[k])
    ensures SplitWhitespace(s) == [s]
  {
    assert TrimStart(s) == s by { assert !IsSpace(s[0]); }
    var i := IndexOfSpace(s);
    assert i == |s|;
    assert s[..i] == s && s[i..] == [];
    assert SplitWhitespace([]) == [];
  }

  /** Two pieces without the separator, joined by it, split back into
    * exactly those two pieces. */
  lemma SplitTwo(a: string, sep: char, b: string)
    requires sep !in a && sep !in b
    ensures Split(a + [sep] + b, sep) == [a, b]
  {
    var s := a + [sep] + b;
    ConcatAround(a, sep, b);
    assert Split(b, sep) == [b];
  }

  /** A non-empty run of non-blank characters. */
  predicate Word(s: string)
  {
    s != [] && forall k :: 0 <= k < |s| ==> !IsSpace(s[k])
  }

  /** Two blank-free words separated by one blank split back into the two
    * words. */
  lemma SplitWhitespaceTwo(s: string, a: string, b: string)
    requires Word(a) && Word(b)
    requires |s| == |a| + 1 + |b| && s[..|a|] == a && IsSpace(s[|a|]) && s[|a| + 1..] == b
    ensures SplitWhitespace(s) == [a, b]
  {
    var rest := s[|a|..];
    assert rest[1..] == b;
    SplitWhitespaceWord(s, a, rest);
    SplitWhitespaceLead(rest, b);
    SplitWhitespacePair(s, a, b, rest);
  }

  lemma SplitWhitespacePair(s: string, a: string, b: string, rest: string)
    requires SplitWhitespace(s) == [a] + SplitWhitespace(rest)
    requires SplitWhitespace(rest) == [b]
    ensures SplitWhitespace(s) == [a, b]
  {
  }

  /** A blank-free word followed by a blank is the first token. */
  lemma SplitWhitespaceWord(s: string, a: string, rest: string)
    requires Word(a)
    requires rest != [] && IsSpace(rest[0])
    requires |s| == |a| + |rest| && s[..|a|] == a && s[|a|..] == rest
    ensures SplitWhitespace(s) == [a] + SplitWhitespace(rest)
  {
    assert s[0] == a[0];
    assert TrimStart(s) == s;
    assert forall k :: 0 <= k < |a| ==> s[k] == a[k];
    assert s[|a|] == rest[0];
    assert IndexOfSpace(s) == |a|;
  }

  /** Leading blanks give no token. */
  lemma SplitWhitespaceLead(rest: string, b: string)
    requires Word(b)
    requires rest != [] && IsSpace(rest[0]) && rest[1..] == b
    ensures SplitWhitespace(rest) == [b]
  {
    assert TrimStart(rest) == TrimStart(b);
    SplitWhitespaceNoBlank(b);
  }
}
