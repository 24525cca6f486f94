/**
 The scraper's number normaliser, `parseNumber`: it deletes thousands
 separators, spaces, percent signs and yen marks, accepts the rest as a number
 when it is a plain signed decimal, and otherwise falls back to the first
 substring matching `[+-]?[\d.]+`. Values are exact reals: PHP's float
 rounding is not modelled.
 */
module Numbers {

  import opened Wrappers
  import opened PhpText

  /** Characters `parseNumber` deletes before parsing: `,`, space, `%`, `¥` and `円`. */
  const Ignored: set<char> := {',', ' ', '%', '\U{A5}', '\U{5186}'}

  const Signs: set<char> := {'+', '-'}

  const DigitsAndDot: set<char> := Digits + {'.'}

  /** The text with every ignored character deleted (PHP's `str_replace` with an empty replacement). */
  function Clean(t: string): (c: string)
    ensures |c| <= |t|
    ensures forall i :: 0 <= i < |c| ==> c[i] !in Ignored
  {
    if |t| == 0 then []
    else (if t[0] in Ignored then [] else [t[0]]) + Clean(t[1..])
  }

  /** Cleaning distributes over concatenation. */
  lemma {:induction false} CleanAppend(a: string, b: string)
    ensures Clean(a + b) == Clean(a) + Clean(b)
  {
    if |a| == 0 {
      assert a + b == b;
    } else {
      assert (a + b)[1..] == a[1..] + b;
      CleanAppend(a[1..], b);
    }
  }

  /** A text made only of ignored characters cleans to nothing. */
  lemma {:induction false} CleanIgnoredOnly(x: string)
    requires AllIn(x, Ignored)
    ensures Clean(x) == []
  {
    if |x| > 0 {
      CleanIgnoredOnly(x[1..]);
    }
  }

  /** Cleaning keeps exactly the digits and dots of the text. */
  lemma {:induction false} CleanKeepsDigitsAndDots(t: string)
    ensures (exists i :: 0 <= i < |t| && t[i] in DigitsAndDot)
        <==> (exists i :: 0 <= i < |Clean(t)| && Clean(t)[i] in DigitsAndDot)
  {
    if |t| > 0 {
      CleanKeepsDigitsAndDots(t[1..]);
      var head := if t[0] in Ignored then [] else [t[0]];
      assert Clean(t) == head + Clean(t[1..]);
      if exists i :: 0 <= i < |t| && t[i] in DigitsAndDot {
        var i :| 0 <= i < |t| && t[i] in DigitsAndDot;
        if i == 0 {
          assert Clean(t)[0] == t[0];
        } else {
          assert t[1..][i - 1] in DigitsAndDot;
          var j :| 0 <= j < |Clean(t[1..])| && Clean(t[1..])[j] in DigitsAndDot;
          assert Clean(t)[|head| + j] in DigitsAndDot;
        }
      }
      if exists i :: 0 <= i < |Clean(t)| && Clean(t)[i] in DigitsAndDot {
        var i :| 0 <= i < |Clean(t)| && Clean(t)[i] in DigitsAndDot;
        if i < |head| {
          assert t[0] in DigitsAndDot;
        } else {
          assert Clean(t[1..])[i - |head|] in DigitsAndDot;
          var j :| 0 <= j < |t[1..]| && t[1..][j] in DigitsAndDot;
          assert t[j + 1] in DigitsAndDot;
        }
      }
    }
  }

  function DigitValue(c: char): (d: nat)
    requires c in Digits
    ensures d < 10
  {
    c as int - '0' as int
  }

  /** The value of a string of decimal digits, most significant first. */
  function DigitsValue(ds: string): nat
    requires AllIn(ds, Digits)
  {
    if |ds| == 0 then 0 else DigitsValue(ds[..|ds| - 1]) * 10 + DigitValue(ds[|ds| - 1])
  }

  /** The value of the digits after a decimal point: "67" is 0.67. */
  function FractionValue(ds: string): (r: real)
    requires AllIn(ds, Digits)
    ensures 0.0 <= r < 1.0
  {
    if |ds| == 0 then 0.0
    else (DigitValue(ds[0]) as real + FractionValue(ds[1..])) / 10.0
  }

  /**
   The value of the longest unsigned decimal at the front of `s`: integer
   digits, then an optional `.` and fraction digits. No digits at all is 0.
   */
  function UnsignedPrefixValue(s: string): (r: real)
    ensures r >= 0.0
  {
    var whole := Span(s, Digits);
    var rest := s[|whole|..];
    var fraction := if |rest| > 0 && rest[0] == '.' then Span(rest[1..], Digits) else [];
    DigitsValue(whole) as real + FractionValue(fraction)
  }

  /**
   PHP's `(float)` cast on a string of the shape `[+-]?[\d.]+`: an optional
   sign, then the longest decimal prefix; anything after it is ignored.
   */
  function FloatOf(s: string): (r: real)
    ensures |s| > 0 && s[0] == '-' ==> r == -UnsignedPrefixValue(s[1..])
    ensures |s| > 0 && s[0] == '+' ==> r == UnsignedPrefixValue(s[1..])
    ensures (|s| == 0 || s[0] !in Signs) ==> r == UnsignedPrefixValue(s)
  {
    if |s| > 0 && s[0] == '-' then -UnsignedPrefixValue(s[1..])
    else if |s| > 0 && s[0] == '+' then UnsignedPrefixValue(s[1..])
    else UnsignedPrefixValue(s)
  }

  function DotCount(s: string): nat
  {
    if |s| == 0 then 0 else (if s[0] == '.' then 1 else 0) + DotCount(s[1..])
  }

  function Unsigned(s: string): string
  {
    if |s| > 0 && s[0] in Signs then s[1..] else s
  }

  /**
   PHP's `is_numeric`, restricted to signed decimals: an optional sign, then
   digits with at most one `.`, and at least one digit ("1.", ".5" qualify,
   "." does not). Exponent forms and surrounding whitespace are not modelled.
   */
  predicate IsNumeric(s: string)
  {
    var body := Unsigned(s);
    && |body| > 0
    && AllIn(body, DigitsAndDot)
    && DotCount(body) <= 1
    && exists i :: 0 <= i < |body| && body[i] in Digits
  }

  /** A match of `[+-]?[\d.]+` can start at position `p` of `t`. */
  predicate MatchesAt(t: string, p: nat)
  {
    p < |t| &&
    (t[p] in DigitsAndDot || (t[p] in Signs && p + 1 < |t| && t[p + 1] in DigitsAndDot))
  }

  /** The greedy match of `[+-]?[\d.]+` starting at `p`. */
  function MatchText(t: string, p: nat): (m: string)
    requires MatchesAt(t, p)
    ensures |m| > 0 && p + |m| <= |t| && m == t[p..p + |m|]
  {
    if t[p] in Signs then
      var run := Span(t[p + 1..], DigitsAndDot);
      assert t[p..p + 1 + |run|] == [t[p]] + t[p + 1..][..|run|];
      [t[p]] + run
    else
      var run := Span(t[p..], DigitsAndDot);
      assert run == t[p..][..|run|];
      run
  }

  /** Where `preg_match('/([+-]?[\d.]+)/', t)` finds its match: the leftmost position a match can start at. */
  function LeftmostMatch(t: string): (p: Option<nat>)
    ensures p.None? <==> forall q :: 0 <= q < |t| ==> !MatchesAt(t, q)
    ensures p.Some? ==> MatchesAt(t, p.value) && forall q :: 0 <= q < p.value ==> !MatchesAt(t, q)
  {
    if |t| == 0 then None
    else if MatchesAt(t, 0) then Some(0)
    else
      match LeftmostMatch(t[1..])
      case None =>
        assert forall q :: 1 <= q < |t| ==> MatchesAt(t, q) == MatchesAt(t[1..], q - 1);
        None
      case Some(k) =>
        assert forall q :: 1 <= q < |t| ==> MatchesAt(t, q) == MatchesAt(t[1..], q - 1);
        assert MatchesAt(t, k + 1);
        Some(k + 1)
  }

  /** A match can start somewhere exactly when the text holds a digit or a dot. */
  lemma MatchExistsIffDigitOrDot(t: string)
    ensures (exists q :: 0 <= q < |t| && MatchesAt(t, q))
        <==> (exists i :: 0 <= i < |t| && t[i] in DigitsAndDot)
  {
    if exists q :: 0 <= q < |t| && MatchesAt(t, q) {
      var q :| 0 <= q < |t| && MatchesAt(t, q);
      if t[q] !in DigitsAndDot {
        assert t[q + 1] in DigitsAndDot;
      }
    }
    if exists i :: 0 <= i < |t| && t[i] in DigitsAndDot {
      var i :| 0 <= i < |t| && t[i] in DigitsAndDot;
      assert MatchesAt(t, i);
    }
  }

  /**
   `parseNumber`: the numeric value of the cleaned text when it is numeric,
   else the value of the first `[+-]?[\d.]+` match, else `None`. It is
   `None` exactly when the text holds no digit and no dot.
   */
  function ParseNumber(text: string): (r: Option<real>)
    ensures r.None? <==> forall i :: 0 <= i < |text| ==> text[i] !in DigitsAndDot
    ensures IsNumeric(Clean(text)) ==> r == Some(FloatOf(Clean(text)))
  {
    var c := Clean(text);
    CleanKeepsDigitsAndDots(text);
    MatchExistsIffDigitOrDot(c);
    if IsNumeric(c) then
      Some(FloatOf(c))
    else
      match LeftmostMatch(c)
      case None => None
      case Some(p) => Some(FloatOf(MatchText(c, p)))
  }

  /**
   Deleting the ignored characters first means that inserting any run of
   them anywhere in the text never changes the parsed value.
   */
  lemma ParseNumberIgnoresSeparators(a: string, x: string, b: string)
    requires AllIn(x, Ignored)
    ensures ParseNumber(a + x + b) == ParseNumber(a + b)
  {
    CleanAppend(a + x, b);
    CleanAppend(a, x);
    CleanAppend(a, b);
    CleanIgnoredOnly(x);
    assert Clean(a + x + b) == Clean(a + b);
  }

  /** A numeric cleaned text is matched whole by the fallback pattern, so both branches of `parseNumber` agree. */
  lemma {:induction false} NumericIsItsOwnMatch(c: string)
    requires IsNumeric(c)
    ensures MatchesAt(c, 0) && MatchText(c, 0) == c
  {
    var body := Unsigned(c);
    assert Span(body, DigitsAndDot) == body by {
      SpanOfAllIn(body, DigitsAndDot);
    }
    if c[0] in Signs {
      assert c[1..] == body;
      assert c == [c[0]] + body;
    } else {
      assert c[0..] == c;
    }
  }

  lemma {:induction false} SpanOfAllIn(s: string, cs: set<char>)
    requires AllIn(s, cs)
    ensures Span(s, cs) == s
  {
    if |s| > 0 {
      SpanOfAllIn(s[1..], cs);
      assert s == [s[0]] + s[1..];
    }
  }

  /** Whatever branch it takes, `parseNumber` returns the value of the first `[+-]?[\d.]+` match of the cleaned text. */
  lemma ParseNumberIsFirstMatch(text: string)
    ensures ParseNumber(text) ==
            match LeftmostMatch(Clean(text))
            case None => None
            case Some(p) => Some(FloatOf(MatchText(Clean(text), p)))
  {
    var c := Clean(text);
    if IsNumeric(c) {
      NumericIsItsOwnMatch(c);
      assert LeftmostMatch(c) == Some(0);
    }
  }

  /** A run of decimal digits parses to its integer value. */
  lemma ParseNumberOfDigits(ds: string)
    requires |ds| > 0 && AllIn(ds, Digits)
    ensures ParseNumber(ds) == Some(DigitsValue(ds) as real)
  {
    ParseNumberOfCleanNumeric(ds);
    FloatOfDigits(ds);
  }

  lemma ParseNumberOfCleanNumeric(ds: string)
    requires |ds| > 0 && AllIn(ds, Digits)
    ensures ParseNumber(ds) == Some(FloatOf(ds))
  {
    CleanOfKept(ds);
    DigitsAreNumeric(ds);
  }

  lemma FloatOfDigits(ds: string)
    requires AllIn(ds, Digits)
    ensures FloatOf(ds) == DigitsValue(ds) as real
  {
    UnsignedOfDigits(ds);
    FloatOfUnsigned(ds);
  }

  lemma UnsignedOfDigits(ds: string)
    requires AllIn(ds, Digits)
    ensures UnsignedPrefixValue(ds) == DigitsValue(ds) as real
  {
    SpanOfAllIn(ds, Digits);
    assert ds[|ds|..] == [];
  }

  /** Without a leading sign, the cast reads the text as an unsigned decimal. */
  lemma FloatOfUnsigned(s: string)
    requires |s| == 0 || s[0] in DigitsAndDot
    ensures FloatOf(s) == UnsignedPrefixValue(s)
  {
  }

  /** Appending a digit multiplies the value by ten and adds the digit. */
  lemma DigitsValueSnoc(ds: string, d: char)
    requires AllIn(ds, Digits) && d in Digits
    ensures DigitsValue(ds + [d]) == DigitsValue(ds) * 10 + DigitValue(d)
  {
    assert (ds + [d])[..|ds|] == ds;
  }

  lemma DigitsAreNumeric(ds: string)
    requires |ds| > 0 && AllIn(ds, Digits)
    ensures IsNumeric(ds)
  {
    NoDotsCount(ds);
    assert ds[0] in Digits;
    assert Unsigned(ds) == ds;
  }

  lemma {:induction false} CleanOfKept(s: string)
    requires forall i :: 0 <= i < |s| ==> s[i] !in Ignored
    ensures Clean(s) == s
  {
    if |s| > 0 {
      CleanOfKept(s[1..]);
      assert s == [s[0]] + s[1..];
    }
  }

  lemma {:induction false} NoDotsCount(s: string)
    requires AllIn(s, Digits)
    ensures DotCount(s) == 0
  {
    if |s| > 0 {
      NoDotsCount(s[1..]);
    }
  }

  /** The longest run of `cs` at the front of `a + b` is `a` when `b` starts outside `cs`. */
  lemma {:induction false} SpanStops(a: string, b: string, cs: set<char>)
    requires AllIn(a, cs) && |b| > 0 && b[0] !in cs
    ensures Span(a + b, cs) == a
  {
    if |a| > 0 {
      assert (a + b)[1..] == a[1..] + b;
      SpanStops(a[1..], b, cs);
      assert a == [a[0]] + a[1..];
    } else {
      assert a + b == b;
    }
  }

  lemma {:induction false} DotCountAppend(a: string, b: string)
    ensures DotCount(a + b) == DotCount(a) + DotCount(b)
  {
    if |a| == 0 {
      assert a + b == b;
    } else {
      assert (a + b)[1..] == a[1..] + b;
      DotCountAppend(a[1..], b);
    }
  }

  /** A decimal written as integer digits, a dot and fraction digits is numeric. */
  lemma DecimalTextIsNumeric(whole: string, fraction: string)
    requires AllIn(whole, Digits) && AllIn(fraction, Digits) && |whole| + |fraction| > 0
    ensures IsNumeric(whole + "." + fraction)
  {
    var s := whole + "." + fraction;
    assert s == whole + ("." + fraction);
    assert Unsigned(s) == s by {
      if |whole| > 0 {
        assert s[0] == whole[0];
      } else {
        assert s[0] == '.';
      }
    }
    NoDotsCount(whole);
    NoDotsCount(fraction);
    DotCountAppend(whole, "." + fraction);
    DotCountAppend(".", fraction);
    assert DotCount(".") == 1;
    assert AllIn(s, DigitsAndDot) by {
      forall i | 0 <= i < |s|
        ensures s[i] in DigitsAndDot
      {
        if i < |whole| {
          assert s[i] == whole[i];
        } else if i > |whole| {
          assert s[i] == fraction[i - |whole| - 1];
        }
      }
    }
    if |whole| > 0 {
      assert s[0] in Digits;
    } else {
      assert s[1] == fraction[0];
    }
  }

  /** A decimal written as integer digits, a dot and fraction digits has the value those digits denote. */
  lemma {:induction false} DecimalTextValue(whole: string, fraction: string)
    requires AllIn(whole, Digits) && AllIn(fraction, Digits)
    ensures FloatOf(whole + "." + fraction) == DigitsValue(whole) as real + FractionValue(fraction)
  {
    FloatOfSignedDecimal("", whole, fraction, "");
    assert "" + whole == whole;
    var t := whole + "." + fraction;
    assert t + "" == t;
  }

  /**
   Characters that would let PHP's cast read further after a run of digits:
   another digit, or an exponent mark.
   */
  const DigitOrExponent: set<char> := Digits + {'e', 'E'}

  /** The unsigned reading splits after the integer digits: the fraction, if any, follows a dot. */
  lemma {:induction false} UnsignedPrefixSplit(whole: string, tail: string)
    requires AllIn(whole, Digits)
    requires |tail| == 0 || tail[0] !in Digits
    ensures UnsignedPrefixValue(whole + tail)
            == DigitsValue(whole) as real
               + (if |tail| > 0 && tail[0] == '.' then FractionValue(Span(tail[1..], Digits)) else 0.0)
  {
    if |tail| == 0 {
      assert whole + tail == whole;
      SpanOfAllIn(whole, Digits);
      assert whole[|whole|..] == [];
    } else {
      SpanStops(whole, tail, Digits);
      assert (whole + tail)[|whole|..] == tail;
    }
  }

  /** The unsigned reading of integer digits, a dot and fraction digits, up to text that cannot continue them. */
  lemma {:induction false} UnsignedPrefixOfDecimal(whole: string, fraction: string, rest: string)
    requires AllIn(whole, Digits) && AllIn(fraction, Digits)
    requires |rest| == 0 || rest[0] !in DigitOrExponent
    ensures UnsignedPrefixValue(whole + ("." + fraction + rest)) == DigitsValue(whole) as real + FractionValue(fraction)
  {
    DotTail(fraction, rest);
    UnsignedPrefixSplit(whole, "." + fraction + rest);
  }

  /** After the dot, the fraction digits are read up to text that cannot continue them. */
  lemma {:induction false} DotTail(fraction: string, rest: string)
    requires AllIn(fraction, Digits)
    requires |rest| == 0 || rest[0] !in DigitOrExponent
    ensures var tail := "." + fraction + rest;
            |tail| > 0 && tail[0] == '.' && Span(tail[1..], Digits) == fraction
  {
    var tail := "." + fraction + rest;
    assert tail[1..] == fraction + rest;
    if |rest| == 0 {
      assert fraction + rest == fraction;
      SpanOfAllIn(fraction, Digits);
    } else {
      SpanStops(fraction, rest, Digits);
    }
  }

  /** The unsigned reading of integer digits followed by text that is neither a digit, a dot nor an exponent. */
  lemma {:induction false} UnsignedPrefixOfWhole(whole: string, rest: string)
    requires AllIn(whole, Digits)
    requires |rest| == 0 || (rest[0] !in DigitOrExponent && rest[0] != '.')
    ensures UnsignedPrefixValue(whole + rest) == DigitsValue(whole) as real
  {
    UnsignedPrefixSplit(whole, rest);
  }

  /** An optional sign before unsigned text: `-` negates the unsigned reading, `+` or no sign keeps it. */
  lemma {:induction false} FloatOfSigned(sign: string, u: string)
    requires sign == "" || sign == "+" || sign == "-"
    requires sign == "" ==> |u| == 0 || u[0] !in Signs
    ensures FloatOf(sign + u) == if sign == "-" then -UnsignedPrefixValue(u) else UnsignedPrefixValue(u)
  {
    if sign == "" {
      assert sign + u == u;
    } else {
      assert (sign + u)[0] == sign[0];
      assert (sign + u)[1..] == u;
    }
  }

  /**
   The cast of a signed decimal with a fraction: an optional `+` or `-`, the
   integer digits, a dot and the fraction digits; whatever follows and cannot
   continue the number is ignored, and `-` negates.
   */
  lemma {:induction false} FloatOfSignedDecimal(sign: string, whole: string, fraction: string, rest: string)
    requires sign == "" || sign == "+" || sign == "-"
    requires AllIn(whole, Digits) && AllIn(fraction, Digits)
    requires |rest| == 0 || rest[0] !in DigitOrExponent
    ensures var v := DigitsValue(whole) as real + FractionValue(fraction);
            FloatOf(sign + whole + "." + fraction + rest) == if sign == "-" then -v else v
  {
    var u := whole + ("." + fraction + rest);
    UnsignedPrefixOfDecimal(whole, fraction, rest);
    DecimalStartsUnsigned(whole, fraction, rest);
    FloatOfSigned(sign, u);
    AppendFour(sign, whole, ".", fraction, rest);
  }

  lemma DecimalStartsUnsigned(whole: string, fraction: string, rest: string)
    requires AllIn(whole, Digits)
    ensures (whole + ("." + fraction + rest))[0] !in Signs
  {
    var u := whole + ("." + fraction + rest);
    if |whole| > 0 {
      assert u[0] == whole[0];
    } else {
      assert u[0] == '.';
    }
  }

  lemma AppendThree(a: string, b: string, c: string)
    ensures a + b + c == a + (b + c)
  {
  }

  lemma AppendFour(a: string, b: string, c: string, d: string, e: string)
    ensures a + b + c + d + e == a + (b + (c + d + e))
  {
  }

  /** The cast of a signed integer: the same reading without a fraction. */
  lemma {:induction false} FloatOfSignedInteger(sign: string, whole: string, rest: string)
    requires sign == "" || sign == "+" || sign == "-"
    requires |whole| > 0 && AllIn(whole, Digits)
    requires |rest| == 0 || (rest[0] !in DigitOrExponent && rest[0] != '.')
    ensures var v := DigitsValue(whole) as real;
            FloatOf(sign + whole + rest) == if sign == "-" then -v else v
  {
    var u := whole + rest;
    UnsignedPrefixOfWhole(whole, rest);
    assert u[0] == whole[0];
    FloatOfSigned(sign, u);
    AppendThree(sign, whole, rest);
  }

  /** "12,345.67円" parses to 12345.67. */
  lemma ParseNumberYenExample(t: string)
    requires t == "12,345.67\U{5186}"
    ensures ParseNumber(t) == Some(12345.67)
  {
    YenClean(t);
    DecimalExample(Clean(t));
    ParseNumberOfNumericClean(t, 12345.67);
  }

  lemma ParseNumberOfNumericClean(text: string, v: real)
    requires IsNumeric(Clean(text)) && FloatOf(Clean(text)) == v
    ensures ParseNumber(text) == Some(v)
  {
  }

  lemma YenClean(t: string)
    requires t == "12,345.67\U{5186}"
    ensures Clean(t) == "12345.67"
  {
    assert t == "12" + [','] + "345.67" + ['\U{5186}'];
    CleanDropsTwo("12", ',', "345.67", '\U{5186}');
    assert "12" + "345.67" == "12345.67";
  }

  /** Deleting two separators from between and after kept text leaves the kept text. */
  lemma {:induction false} CleanDropsTwo(a: string, x: char, b: string, y: char)
    requires forall i :: 0 <= i < |a| ==> a[i] !in Ignored
    requires forall i :: 0 <= i < |b| ==> b[i] !in Ignored
    requires x in Ignored && y in Ignored
    ensures Clean(a + [x] + b + [y]) == a + b
  {
    var ax := a + [x];
    CleanDropLast(ax + b, y);
    CleanAppend(ax, b);
    CleanDropLast(a, x);
    CleanOfKept(a);
    CleanOfKept(b);
  }

  /** A separator at the end of a text is deleted. */
  lemma CleanDropLast(s: string, x: char)
    requires x in Ignored
    ensures Clean(s + [x]) == Clean(s)
  {
    CleanAppend(s, [x]);
    assert [x][1..] == [];
    assert Clean(s) + [] == Clean(s);
  }

  lemma DecimalExample(c: string)
    requires c == "12345.67"
    ensures IsNumeric(c) && FloatOf(c) == 12345.67
  {
    assert c == "12345" + "." + "67";
    DecimalTextIsNumeric("12345", "67");
    DecimalTextValue("12345", "67");
    DigitsExample("12345");
    assert FractionValue("67") == 0.67;
  }

  lemma DigitsExample(ds: string)
    requires ds == "12345"
    ensures DigitsValue(ds) == 12345
  {
    assert DigitsValue("1") == 1;
    DigitsValueSnoc("1", '2');
    assert "1" + ['2'] == "12";
    DigitsValueSnoc("12", '3');
    assert "12" + ['3'] == "123";
    DigitsValueSnoc("123", '4');
    assert "123" + ['4'] == "1234";
    DigitsValueSnoc("1234", '5');
    assert "1234" + ['5'] == ds;
  }

  /** "+1.23%" parses to 1.23. */
  lemma ParseNumberPercentExample(t: string)
    requires t == "+1.23%"
    ensures ParseNumber(t) == Some(1.23)
  {
    var c := t[..5];
    assert Clean(t) == c by {
      assert t == c + [t[5]];
      CleanAppend(c, [t[5]]);
      CleanOfKept(c);
    }
    SignedDecimalExample(c);
  }

  lemma SignedDecimalExample(c: string)
    requires c == "+1.23"
    ensures IsNumeric(c) && FloatOf(c) == 1.23
  {
    var u := c[1..];
    assert u == "1" + "." + "23";
    DecimalTextIsNumeric("1", "23");
    DecimalTextValue("1", "23");
    assert DigitsValue("1") == 1;
    assert FractionValue("23") == 0.23;
    assert c[0] == '+' && Unsigned(c) == u;
  }

  /** "N/A" holds no digit and no dot, so it parses to nothing. */
  lemma ParseNumberNotAvailableExample(t: string)
    requires t == "N/A"
    ensures ParseNumber(t) == None
  {
    assert t[0] !in DigitsAndDot && t[1] !in DigitsAndDot && t[2] !in DigitsAndDot;
    NoDigitNoNumber(t);
  }

  lemma NoDigitNoNumber(text: string)
    requires forall i :: 0 <= i < |text| ==> text[i] !in DigitsAndDot
    ensures ParseNumber(text) == None
  {
  }
}
