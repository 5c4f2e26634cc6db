/**
 * The Python `str` operations the chat scripts rely on, over `seq<char>`:
 * substring test (`sep in s`), `s.split(sep, 1)`, `s.split(sep)`, `s.strip(chars)`,
 * `s.lower()` and the argument-less `s.split()`. Every separator the scripts use is a
 * non-empty literal, so the separator functions require `|sep| > 0`.
 */
module PyStrings {

  /** The ASCII characters for which Python's `str.isspace()` holds. */
  const Whitespace: set<char> :=
    {' ', '\t', '\n', '\r', '\U{000B}', '\U{000C}', '\U{001C}', '\U{001D}', '\U{001E}', '\U{001F}'}

  /** Python's `string.punctuation`: the 32 ASCII punctuation characters. */
  const Punctuation: set<char> :=
    {'!', '"', '#', '$', '%', '&', '\'', '(', ')', '*', '+', ',', '-', '.', '/',
     ':', ';', '<', '=', '>', '?', '@', '[', '\\', ']', '^', '_', '`', '{', '|', '}', '~'}

  // ---------------------------------------------------------------------------
  // Occurrences of a separator
  // ---------------------------------------------------------------------------

  /** `sep` occurs in `s` starting at index `i`. */
  predicate OccursAt(s: string, sep: string, i: int)
  {
    0 <= i && i + |sep| <= |s| && s[i..i + |sep|] == sep
  }

  /** The first index at or after `from` where `sep` occurs, or -1 (Python's `s.find(sep, from)`). */
  function FindFrom(s: string, sep: string, from: nat): (r: int)
    requires |sep| > 0 && from <= |s|
    decreases |s| - from
    ensures r == -1 || (from <= r && OccursAt(s, sep, r))
    ensures forall j :: from <= j && (r == -1 || j < r) ==> !OccursAt(s, sep, j)
  {
    if from + |sep| > |s| then -1
    else if s[from..from + |sep|] == sep then from
    else FindFrom(s, sep, from + 1)
  }

  /** Python's `s.find(sep)`: the first occurrence of `sep`, or -1 when there is none. */
  function Find(s: string, sep: string): (r: int)
    requires |sep| > 0
    ensures r == -1 || OccursAt(s, sep, r)
    ensures forall j :: 0 <= j && (r == -1 || j < r) ==> !OccursAt(s, sep, j)
  {
    FindFrom(s, sep, 0)
  }

  /** Python's `sep in s`. */
  predicate Contains(s: string, sep: string)
    requires |sep| > 0
  {
    Find(s, sep) >= 0
  }

  /** `sep in s` holds iff `sep` occurs somewhere in `s`. */
  lemma ContainsIff(s: string, sep: string)
    requires |sep| > 0
    ensures Contains(s, sep) <==> exists i :: OccursAt(s, sep, i)
  {
  }

  /** A one-character separator occurs exactly where that character does. */
  lemma CharOccurs(s: string, c: char, i: int)
    requires 0 <= i < |s|
    ensures OccursAt(s, [c], i) <==> s[i] == c
  {
    assert s[i..i + 1] == [s[i]];
  }

  /** `c in s` for a one-character `c` is membership of that character. */
  lemma ContainsChar(s: string, c: char)
    ensures Contains(s, [c]) <==> c in s
  {
    var k := Find(s, [c]);
    if k >= 0 {
      CharOccurs(s, c, k);
    }
    if c in s {
      var i :| 0 <= i < |s| && s[i] == c;
      CharOccurs(s, c, i);
    }
  }

  /** An occurrence that ends inside a prefix is an occurrence in the prefix. */
  lemma OccursInPrefix(s: string, n: int, sep: string, j: int)
    requires 0 <= n <= |s| && 0 <= j && j + |sep| <= n
    ensures OccursAt(s[..n], sep, j) <==> OccursAt(s, sep, j)
  {
    assert s[..n][j..j + |sep|] == s[j..j + |sep|];
  }

  // ---------------------------------------------------------------------------
  // s.split(sep, 1) and s.split(sep)
  // ---------------------------------------------------------------------------

  /**
   * Python's `s.split(sep, 1)`: `[s]` when `sep` does not occur, otherwise the text before
   * and after its first occurrence.
   */
  function SplitOnce(s: string, sep: string): (parts: seq<string>)
    requires |sep| > 0
    ensures |parts| == 1 || |parts| == 2
    ensures |parts| == 2 <==> Contains(s, sep)
    ensures |parts| == 1 ==> parts[0] == s
    ensures |parts| == 2 ==> s == parts[0] + sep + parts[1]
  {
    var k := Find(s, sep);
    if k < 0 then [s]
    else
      assert s == s[..k] + s[k..k + |sep|] + s[k + |sep|..];
      [s[..k], s[k + |sep|..]]
  }

  /** `a` ends before the first `sep` of any `a + sep + rest`: no `sep` starts inside `a`. */
  predicate CutsAt(a: string, sep: string)
    requires |sep| > 0
  {
    !Contains(a + sep[..|sep| - 1], sep)
  }

  /** The text before the first `sep` holds no `sep`, and when `sep` occurs the cut is at its first occurrence. */
  lemma SplitOnceFirst(s: string, sep: string)
    requires |sep| > 0
    ensures !Contains(SplitOnce(s, sep)[0], sep)
    ensures |SplitOnce(s, sep)| == 2 ==> CutsAt(SplitOnce(s, sep)[0], sep)
  {
    var k := Find(s, sep);
    if k >= 0 {
      FirstPieceIsFree(s, sep, k);
    }
  }

  /** Nothing before the first occurrence (at `k`) can hold or begin an occurrence. */
  lemma FirstPieceIsFree(s: string, sep: string, k: int)
    requires |sep| > 0 && OccursAt(s, sep, k)
    requires forall j :: 0 <= j < k ==> !OccursAt(s, sep, j)
    ensures !Contains(s[..k], sep)
    ensures !Contains(s[..k] + sep[..|sep| - 1], sep)
  {
    var head := s[..k] + sep[..|sep| - 1];
    assert head == s[..k + |sep| - 1] by {
      assert s[k..k + |sep|] == sep;
      assert s[..k + |sep| - 1] == s[..k] + s[k..k + |sep| - 1];
    }
    forall j | 0 <= j <= |head| - |sep|
      ensures !OccursAt(head, sep, j)
    {
      OccursInPrefix(s, k + |sep| - 1, sep, j);
    }
    forall j | 0 <= j <= k - |sep|
      ensures !OccursAt(s[..k], sep, j)
    {
      OccursInPrefix(s, k, sep, j);
    }
  }

  /** When no occurrence begins in `a + sep` before `sep` ends, `split(sep, 1)` undoes the join. */
  lemma SplitOnceJoin(a: string, sep: string, b: string)
    requires |sep| > 0 && CutsAt(a, sep)
    ensures SplitOnce(a + sep + b, sep) == [a, b]
  {
    var s := a + sep + b;
    assert s[|a|..|a| + |sep|] == sep;
    assert OccursAt(s, sep, |a|);
    assert s[..|a| + |sep| - 1] == a + sep[..|sep| - 1];
    forall j | 0 <= j < |a|
      ensures !OccursAt(s, sep, j)
    {
      OccursInPrefix(s, |a| + |sep| - 1, sep, j);
    }
    var k := Find(s, sep);
    assert k == |a|;
    assert s[..k] == a && s[k + |sep|..] == b;
  }

  /** Concatenation regrouped; stated apart so that callers do not reason about it element by element. */
  lemma AppendAssoc(a: string, b: string, c: string)
    ensures a + (b + c) == (a + b) + c
  {
  }

  /** Appending nothing. */
  lemma AppendEmpty(a: string)
    ensures a + "" == a
  {
  }

  /** Python's `s.split(sep)`: all the pieces between occurrences of `sep`. */
  function SplitAll(s: string, sep: string): (parts: seq<string>)
    requires |sep| > 0
    decreases |s|
    ensures |parts| >= 1
  {
    var p := SplitOnce(s, sep);
    if |p| == 1 then [s] else [p[0]] + SplitAll(p[1], sep)
  }

  /** No piece of `s.split(sep)` holds `sep`. */
  lemma {:induction false} SplitAllPiecesFree(s: string, sep: string)
    requires |sep| > 0
    decreases |s|
    ensures forall i :: 0 <= i < |SplitAll(s, sep)| ==> !Contains(SplitAll(s, sep)[i], sep)
  {
    var p := SplitOnce(s, sep);
    SplitOnceFirst(s, sep);
    if |p| == 2 {
      SplitAllPiecesFree(p[1], sep);
      assert SplitAll(s, sep) == [p[0]] + SplitAll(p[1], sep);
    }
  }

  /** Python's `sep.join(parts)`. */
  function Join(parts: seq<string>, sep: string): string
    requires |parts| >= 1
  {
    if |parts| == 1 then parts[0] else parts[0] + sep + Join(parts[1..], sep)
  }

  /** `s.split(sep)` loses nothing: joining the pieces with `sep` gives `s` back. */
  lemma {:induction false} SplitAllJoin(s: string, sep: string)
    requires |sep| > 0
    decreases |s|
    ensures Join(SplitAll(s, sep), sep) == s
  {
    var p := SplitOnce(s, sep);
    if |p| == 2 {
      SplitAllJoin(p[1], sep);
      var parts := SplitAll(s, sep);
      assert parts[1..] == SplitAll(p[1], sep);
    }
  }

  /**
   * Piece 0 of `s.split(sep)` is the text before the first `sep`, and piece 1 is the text
   * between the first and the second `sep` (or to the end when there is no second).
   */
  lemma SplitAllFirstPieces(s: string, sep: string)
    requires |sep| > 0
    ensures |SplitAll(s, sep)| >= 2 <==> Contains(s, sep)
    ensures SplitAll(s, sep)[0] == SplitOnce(s, sep)[0]
    ensures Contains(s, sep) ==>
      SplitAll(s, sep)[1] == SplitOnce(SplitOnce(s, sep)[1], sep)[0]
  {
    var p := SplitOnce(s, sep);
    if |p| == 2 {
      var q := SplitOnce(p[1], sep);
      assert SplitAll(p[1], sep)[0] == q[0];
    }
  }

  /** `s.split(sep, 1)` of a prefix that already holds `sep` cuts where it cuts the whole string. */
  lemma SplitOncePrefix(a: string, b: string, sep: string)
    requires |sep| > 0 && |a| <= |b| && a == b[..|a|]
    requires Contains(a, sep)
    ensures Contains(b, sep)
    ensures SplitOnce(a, sep)[0] == SplitOnce(b, sep)[0]
    ensures |SplitOnce(a, sep)[1]| <= |SplitOnce(b, sep)[1]|
    ensures SplitOnce(a, sep)[1] == SplitOnce(b, sep)[1][..|SplitOnce(a, sep)[1]|]
  {
    var pa := SplitOnce(a, sep);
    var ka := Find(a, sep);
    var kb := Find(b, sep);
    OccursInPrefix(b, |a|, sep, ka);
    assert OccursAt(b, sep, ka);
    if kb < ka {
      OccursInPrefix(b, |a|, sep, kb);
    }
    assert kb == ka;
  }

  /** Text appended after a string that already holds `sep` lands in the second piece of `split(sep, 1)`. */
  lemma SplitOnceAppend(a: string, t: string, sep: string)
    requires |sep| > 0 && Contains(a, sep)
    ensures SplitOnce(a + t, sep) == [SplitOnce(a, sep)[0], SplitOnce(a, sep)[1] + t]
  {
    var b := a + t;
    assert b[..|a|] == a;
    SplitOncePrefix(a, b, sep);
    var pa := SplitOnce(a, sep);
    var pb := SplitOnce(b, sep);
    var n := |pa[0]| + |sep|;
    assert pb[1] == b[n..];
    assert pa[1] == a[n..];
    assert b[n..] == a[n..] + t;
  }

  /** A prefix of the text before the first `sep` */
  lemma FirstPieceIsPrefix(s: string, sep: string)
    requires |sep| > 0
    ensures |SplitOnce(s, sep)[0]| <= |s|
    ensures SplitOnce(s, sep)[0] == s[..|SplitOnce(s, sep)[0]|]
  {
    var p := SplitOnce(s, sep);
    if |p| == 2 {
      assert s[..|p[0]|] == p[0];
    }
  }

  // ---------------------------------------------------------------------------
  // strip, lower, split()
  // ---------------------------------------------------------------------------

  /** Python's `s.lstrip(chars)`: drops the leading characters that are in `cs`. */
  function TrimLeft(s: string, cs: set<char>): string
  {
    if |s| > 0 && s[0] in cs then TrimLeft(s[1..], cs) else s
  }

  /** Python's `s.rstrip(chars)`: drops the trailing characters that are in `cs`. */
  function TrimRight(s: string, cs: set<char>): string
  {
    if |s| > 0 && s[|s| - 1] in cs then TrimRight(s[..|s| - 1], cs) else s
  }

  /** Python's `s.strip(chars)`; with `Whitespace` it is the argument-less `s.strip()`. */
  function Strip(s: string, cs: set<char>): string
  {
    TrimRight(TrimLeft(s, cs), cs)
  }

  /** `lstrip` keeps a suffix, cuts off only characters of `cs`, and stops at the first other one. */
  lemma {:induction false} TrimLeftSpec(s: string, cs: set<char>)
    decreases |s|
    ensures |TrimLeft(s, cs)| <= |s| && TrimLeft(s, cs) == s[|s| - |TrimLeft(s, cs)|..]
    ensures forall i :: 0 <= i < |s| - |TrimLeft(s, cs)| ==> s[i] in cs
    ensures |TrimLeft(s, cs)| > 0 ==> TrimLeft(s, cs)[0] !in cs
  {
    if |s| > 0 && s[0] in cs {
      TrimLeftSpec(s[1..], cs);
    }
  }

  /** `rstrip` keeps a prefix, cuts off only characters of `cs`, and stops at the last other one. */
  lemma {:induction false} TrimRightSpec(s: string, cs: set<char>)
    decreases |s|
    ensures |TrimRight(s, cs)| <= |s| && TrimRight(s, cs) == s[..|TrimRight(s, cs)|]
    ensures forall i :: |TrimRight(s, cs)| <= i < |s| ==> s[i] in cs
    ensures |TrimRight(s, cs)| > 0 ==> TrimRight(s, cs)[|TrimRight(s, cs)| - 1] !in cs
  {
    if |s| > 0 && s[|s| - 1] in cs {
      TrimRightSpec(s[..|s| - 1], cs);
    }
  }

  /**
   * `strip` keeps the slice `s[i..i + |r|]` (with `i` the number of characters `lstrip` cuts)
   * where everything outside the slice is in `cs`, and the slice neither starts nor ends with
   * a character of `cs`.
   */
  lemma StripSpec(s: string, cs: set<char>)
    ensures var r, i := Strip(s, cs), |s| - |TrimLeft(s, cs)|;
      && 0 <= i <= i + |r| <= |s| && r == s[i..i + |r|]
      && (forall k :: 0 <= k < i ==> s[k] in cs)
      && (forall k :: i + |r| <= k < |s| ==> s[k] in cs)
    ensures var r := Strip(s, cs); |r| > 0 ==> r[0] !in cs && r[|r| - 1] !in cs
  {
    var l := TrimLeft(s, cs);
    var r := Strip(s, cs);
    TrimLeftSpec(s, cs);
    TrimRightSpec(l, cs);
    var i := |s| - |l|;
    assert r == l[..|r|];
    assert r == s[i..i + |r|];
    forall k | i + |r| <= k < |s|
      ensures s[k] in cs
    {
      assert s[k] == l[k - i];
    }
  }

  /** Stripping a string that has nothing to strip leaves it alone; hence `Strip` is idempotent. */
  lemma StripIdempotent(s: string, cs: set<char>)
    ensures Strip(Strip(s, cs), cs) == Strip(s, cs)
  {
    var r := Strip(s, cs);
    StripSpec(s, cs);
    if |r| > 0 {
      assert TrimLeft(r, cs) == r;
      assert TrimRight(r, cs) == r;
    }
  }

  /** ASCII `c.lower()`. */
  function LowerChar(c: char): char
  {
    if 'A' <= c <= 'Z' then (c as int + 32) as char else c
  }

  /** ASCII `s.lower()`. */
  function Lower(s: string): (r: string)
    ensures |r| == |s|
    ensures forall i :: 0 <= i < |s| ==> r[i] == LowerChar(s[i])
  {
    seq(|s|, i requires 0 <= i < |s| => LowerChar(s[i]))
  }

  /**
   * What ASCII lower-casing does: no upper-case letter is left, each one becomes its
   * lower-case letter, every other character is kept, and lower-casing twice changes nothing.
   */
  lemma LowerSpec(s: string)
    ensures |Lower(s)| == |s|
    ensures forall i :: 0 <= i < |s| ==> !('A' <= Lower(s)[i] <= 'Z')
    ensures forall i :: 0 <= i < |s| && 'A' <= s[i] <= 'Z' ==>
      'a' <= Lower(s)[i] <= 'z' && Lower(s)[i] as int == s[i] as int + 32
    ensures forall i :: 0 <= i < |s| && !('A' <= s[i] <= 'Z') ==> Lower(s)[i] == s[i]
    ensures Lower(Lower(s)) == Lower(s)
  {
    var r := Lower(s);
    assert Lower(r) == r by {
      forall i | 0 <= i < |r|
        ensures Lower(r)[i] == r[i]
      {
      }
    }
  }

  /** The length of the run of non-whitespace characters that starts `s`. */
  function TokenLength(s: string): (n: nat)
    ensures n <= |s|
    ensures forall i :: 0 <= i < n ==> s[i] !in Whitespace
    ensures n < |s| ==> s[n] in Whitespace
  {
    if |s| == 0 || s[0] in Whitespace then 0 else 1 + TokenLength(s[1..])
  }

  /**
   * Python's argument-less `s.split()`: the maximal runs of non-whitespace characters,
   * in order; every word is non-empty and holds no whitespace.
   */
  function Words(s: string): (ws: seq<string>)
    decreases |s|
    ensures forall i :: 0 <= i < |ws| ==> |ws[i]| > 0
    ensures forall i, j :: 0 <= i < |ws| && 0 <= j < |ws[i]| ==> ws[i][j] !in Whitespace
  {
    if |s| == 0 then []
    else if s[0] in Whitespace then Words(s[1..])
    else
      var n := TokenLength(s);
      [s[..n]] + Words(s[n..])
  }

  /** A run of non-whitespace ending at whitespace or at the end is the leading token. */
  lemma {:induction false} TokenLengthUnique(s: string, n: nat)
    requires n <= |s|
    requires forall i :: 0 <= i < n ==> s[i] !in Whitespace
    requires n < |s| ==> s[n] in Whitespace
    ensures TokenLength(s) == n
  {
    if n > 0 {
      TokenLengthUnique(s[1..], n - 1);
    }
  }

  /** The leading token of `a + [c] + b`, for a whitespace `c`, is the leading token of `a`. */
  lemma LeadingTokenOfJoin(a: string, c: char, b: string)
    requires c in Whitespace && |a| > 0 && a[0] !in Whitespace
    ensures TokenLength(a + [c] + b) == TokenLength(a)
    ensures (a + [c] + b)[..TokenLength(a)] == a[..TokenLength(a)]
    ensures (a + [c] + b)[TokenLength(a)..] == a[TokenLength(a)..] + [c] + b
  {
    var s := a + [c] + b;
    var n := TokenLength(a);
    assert forall i :: 0 <= i < n ==> s[i] == a[i];
    assert n < |s| && s[n] in Whitespace by {
      if n < |a| {
        assert s[n] == a[n];
      } else {
        assert s[n] == c;
      }
    }
    TokenLengthUnique(s, n);
    assert s[..n] == a[..n];
    assert s[n..] == a[n..] + [c] + b;
  }

  /**
   * `split()` cuts at every whitespace character: splitting `a + [c] + b` gives the words of
   * `a` followed by those of `b`, whatever run of whitespace surrounds `c`.
   */
  lemma {:induction false} WordsOfJoin(a: string, c: char, b: string)
    requires c in Whitespace
    decreases |a|
    ensures Words(a + [c] + b) == Words(a) + Words(b)
  {
    var s := a + [c] + b;
    if |a| == 0 {
      assert s[1..] == b;
    } else if a[0] in Whitespace {
      assert s[1..] == a[1..] + [c] + b;
      WordsOfJoin(a[1..], c, b);
    } else {
      var n := TokenLength(a);
      LeadingTokenOfJoin(a, c, b);
      WordsOfJoin(a[n..], c, b);
      calc {
        Words(s);
        [s[..n]] + Words(s[n..]);
        [a[..n]] + Words(a[n..] + [c] + b);
        [a[..n]] + (Words(a[n..]) + Words(b));
        Words(a) + Words(b);
      }
    }
  }

  /** `t` holds no whitespace character. */
  predicate NoWhitespace(t: string)
  {
    forall i :: 0 <= i < |t| ==> t[i] !in Whitespace
  }

  /** A non-empty text without whitespace is a single word, and the empty text has none. */
  lemma WordsOfToken(s: string)
    requires NoWhitespace(s)
    ensures Words(s) == if |s| == 0 then [] else [s]
  {
    if |s| > 0 {
      TokenLengthUnique(s, |s|);
      assert s[..|s|] == s;
      assert s[|s|..] == "";
    }
  }

  /**
   * `WordsOfToken` and `WordsOfJoin` pin `split()` down: any function on strings that maps
   * a whitespace-free text to its one word (or to none when empty) and cuts at every
   * whitespace character is `Words`.
   */
  lemma {:induction false} WordsDetermined(split: string -> seq<string>, s: string)
    requires forall t :: NoWhitespace(t) ==> split(t) == if |t| == 0 then [] else [t]
    requires forall a, c, b :: c in Whitespace ==> split(a + [c] + b) == split(a) + split(b)
    decreases |s|
    ensures split(s) == Words(s)
  {
    if NoWhitespace(s) {
      WordsOfToken(s);
    } else {
      var k :| 0 <= k < |s| && s[k] in Whitespace;
      var a, c, b := s[..k], s[k], s[k + 1..];
      assert s == a + [c] + b;
      assert split(s) == split(a) + split(b);
      WordsDetermined(split, a);
      WordsDetermined(split, b);
      WordsOfJoin(a, c, b);
    }
  }
}
