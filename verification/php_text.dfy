/**
 The handful of PHP string primitives the watcher relies on: `trim` with and
 without a character list, `strpos` for a single character, `strtolower`,
 prefix tests, PHP's `empty()` on strings, and the longest run of characters
 drawn from a set (what a greedy character class such as `[\d.]+` consumes).
 */
module PhpText {

  import opened Wrappers

  /** The characters PHP's `trim()` strips when no character list is given. */
  const Whitespace: set<char> := {' ', '\t', '\n', '\r', '\0', '\U{B}'}

  const Digits: set<char> := {'0', '1', '2', '3', '4', '5', '6', '7', '8', '9'}

  predicate AllIn(s: string, cs: set<char>)
  {
    forall i :: 0 <= i < |s| ==> s[i] in cs
  }

  /** Drops every leading character that belongs to `cs`. */
  function TrimLeft(s: string, cs: set<char>): (r: string)
    ensures |r| <= |s| && r == s[|s| - |r|..]
    ensures AllIn(s[..|s| - |r|], cs)
    ensures |r| == 0 || r[0] !in cs
  {
    if |s| > 0 && s[0] in cs then TrimLeft(s[1..], cs) else s
  }

  /** Drops every trailing character that belongs to `cs`. */
  function TrimRight(s: string, cs: set<char>): (r: string)
    ensures |r| <= |s| && r == s[..|r|]
    ensures AllIn(s[|r|..], cs)
    ensures |r| == 0 || r[|r| - 1] !in cs
  {
    if |s| > 0 && s[|s| - 1] in cs then TrimRight(s[..|s| - 1], cs) else s
  }

  /**
   PHP's `trim($s, $chars)`: drops the leading and then the trailing
   characters that belong to `cs`; what is left neither starts nor ends with
   one of them.
   */
  function TrimChars(s: string, cs: set<char>): (r: string)
    ensures |r| <= |s|
    ensures |r| == 0 || (r[0] !in cs && r[|r| - 1] !in cs)
  {
    TrimRight(TrimLeft(s, cs), cs)
  }

  /**
   The trimmed string is a contiguous middle part of `s`, and everything cut
   off on either side consists of characters of `cs`.
   */
  lemma TrimCharsIsMiddle(s: string, cs: set<char>)
    ensures var r := TrimChars(s, cs);
            exists a :: 0 <= a <= |s| - |r| && r == s[a..a + |r|]
                        && AllIn(s[..a], cs) && AllIn(s[a + |r|..], cs)
  {
    var left := TrimLeft(s, cs);
    var r := TrimRight(left, cs);
    var a := |s| - |left|;
    assert left == s[a..];
    assert r == left[..|r|];
    assert r == s[a..a + |r|];
    assert AllIn(s[..a], cs);
    assert s[a + |r|..] == left[|r|..];
    assert AllIn(s[a + |r|..], cs);
  }

  /** PHP's `trim($s)`. */
  function Trim(s: string): (r: string)
    ensures |r| <= |s|
    ensures |r| == 0 || (r[0] !in Whitespace && r[|r| - 1] !in Whitespace)
  {
    TrimChars(s, Whitespace)
  }

  /** Trimming a string that has nothing to trim leaves it as it is. */
  lemma {:induction false} TrimCharsOfTrimmed(s: string, cs: set<char>)
    requires |s| == 0 || (s[0] !in cs && s[|s| - 1] !in cs)
    ensures TrimChars(s, cs) == s
  {
    assert TrimLeft(s, cs) == s;
    assert TrimRight(s, cs) == s;
  }

  /** Leading characters of `cs` are all dropped, and nothing after them. */
  lemma {:induction false} TrimLeftOfPadded(a: string, x: string, cs: set<char>)
    requires AllIn(a, cs) && (|x| == 0 || x[0] !in cs)
    ensures TrimLeft(a + x, cs) == x
  {
    if |a| > 0 {
      assert (a + x)[1..] == a[1..] + x;
      TrimLeftOfPadded(a[1..], x, cs);
    } else {
      assert a + x == x;
    }
  }

  /** Trailing characters of `cs` are all dropped, and nothing before them. */
  lemma {:induction false} TrimRightOfPadded(x: string, b: string, cs: set<char>)
    requires AllIn(b, cs) && (|x| == 0 || x[|x| - 1] !in cs)
    ensures TrimRight(x + b, cs) == x
  {
    if |b| > 0 {
      assert (x + b)[..|x + b| - 1] == x + b[..|b| - 1];
      TrimRightOfPadded(x, b[..|b| - 1], cs);
    } else {
      assert x + b == x;
    }
  }

  /** `trim` removes exactly the padding around a value that has nothing of its own to trim. */
  lemma {:induction false} TrimCharsOfPadded(a: string, x: string, b: string, cs: set<char>)
    requires AllIn(a, cs) && AllIn(b, cs)
    requires |x| == 0 || (x[0] !in cs && x[|x| - 1] !in cs)
    ensures TrimChars(a + x + b, cs) == x
  {
    if |x| > 0 {
      assert a + x + b == a + (x + b);
      assert (x + b)[0] == x[0];
      TrimLeftOfPadded(a, x + b, cs);
      TrimRightOfPadded(x, b, cs);
    } else {
      assert a + x + b == (a + b) + "";
      assert AllIn(a + b, cs);
      TrimLeftOfPadded(a + b, "", cs);
      TrimRightOfPadded("", "", cs);
    }
  }

  /** Leading characters of `cs` make no difference to `trim`. */
  lemma {:induction false} TrimCharsDropsLeading(a: string, x: string, cs: set<char>)
    requires AllIn(a, cs) && |x| > 0 && x[0] !in cs
    ensures TrimChars(a + x, cs) == TrimChars(x, cs)
  {
    TrimLeftOfPadded(a, x, cs);
    TrimLeftOfPadded("", x, cs);
    assert "" + x == x;
  }

  /** Trimming twice is trimming once. */
  lemma TrimCharsIdempotent(s: string, cs: set<char>)
    ensures TrimChars(TrimChars(s, cs), cs) == TrimChars(s, cs)
  {
    TrimCharsOfTrimmed(TrimChars(s, cs), cs);
  }

  /**
   The position of the first occurrence of `c` in `s` (PHP's `strpos` with a
   one-character needle), or `None` when `c` does not occur.
   */
  function IndexOf(s: string, c: char): (r: Option<nat>)
    ensures r.None? <==> c !in s
    ensures r.Some? ==> r.value < |s| && s[r.value] == c && c !in s[..r.value]
  {
    if |s| == 0 then None
    else if s[0] == c then Some(0)
    else
      match IndexOf(s[1..], c)
      case None => None
      case Some(k) =>
        assert s[..k + 1] == [s[0]] + s[1..][..k];
        Some(k + 1)
  }

  /**
   The longest prefix of `s` made of characters of `cs`: what a greedy
   character class `[...]+` or `[...]*` consumes from the front of `s`.
   */
  function Span(s: string, cs: set<char>): (r: string)
    ensures |r| <= |s| && r == s[..|r|]
    ensures AllIn(r, cs)
    ensures |r| == |s| || s[|r|] !in cs
  {
    if |s| > 0 && s[0] in cs then [s[0]] + Span(s[1..], cs) else []
  }

  predicate StartsWith(s: string, prefix: string)
  {
    |prefix| <= |s| && s[..|prefix|] == prefix
  }

  /** An ASCII capital becomes the small letter 32 code points above it; any other character is kept. */
  function LowerChar(c: char): (r: char)
    ensures 'A' <= c <= 'Z' ==> 'a' <= r <= 'z' && r as int == c as int + 32
    ensures !('A' <= c <= 'Z') ==> r == c
  {
    if 'A' <= c <= 'Z' then (c as int - 'A' as int + 'a' as int) as char else c
  }

  /** PHP 8's `strtolower`: ASCII letters are lowered, everything else is kept. */
  function ToLower(s: string): (r: string)
    ensures |r| == |s|
    ensures forall i :: 0 <= i < |s| ==> r[i] == LowerChar(s[i])
  {
    seq(|s|, i requires 0 <= i < |s| => LowerChar(s[i]))
  }

  /**
   Lowering leaves no ASCII capital behind, keeps a string without capitals
   as it is, and so lowering twice is lowering once.
   */
  lemma ToLowerIdempotent(s: string)
    ensures forall i :: 0 <= i < |s| ==> !('A' <= ToLower(s)[i] <= 'Z')
    ensures (forall i :: 0 <= i < |s| ==> !('A' <= s[i] <= 'Z')) ==> ToLower(s) == s
    ensures ToLower(ToLower(s)) == ToLower(s)
  {
  }

  /** PHP's `empty()` applied to a string: true for "" and for "0". */
  predicate IsEmptyString(s: string)
  {
    s == "" || s == "0"
  }
}
