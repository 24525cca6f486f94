/**
 The `.env` loader (load_env.php): `KEY=VALUE` lines are read into the
 environment, the first definition of a key wins and a key that is already
 set is never overwritten; `env()` reads a key back, turning the words true,
 false, empty and null (in any case, optionally in parentheses) into the
 corresponding PHP values. `$_ENV` and the process environment are modelled
 as one map from names to values.
 */
module EnvLoader {

  import opened Wrappers
  import opened PhpText

  /** The quote characters stripped from both ends of a value. */
  const Quotes: set<char> := {'"', '\''}

  /** What `env()` returns. */
  datatype EnvValue = Str(s: string) | Bool(b: bool) | Null

  /**
   One line of the file: `None` for a comment (its trimmed text starts with
   `#`) or a line without `=`; otherwise the text before the first `=` as
   the key and the text after it as the value, both trimmed, and the value
   also stripped of surrounding quotes.
   */
  function ParseLine(line: string): (r: Option<(string, string)>)
    ensures r.None? <==> StartsWith(Trim(line), "#") || '=' !in line
  {
    if StartsWith(Trim(line), "#") then None
    else
      match IndexOf(line, '=')
      case None => None
      case Some(i) => Some((Trim(line[..i]), TrimChars(Trim(line[i + 1..]), Quotes)))
  }

  /** A string with nothing for `trim` to remove at either end. */
  predicate Trimmed(s: string, cs: set<char>)
  {
    |s| == 0 || (s[0] !in cs && s[|s| - 1] !in cs)
  }

  /** A string whose first character is kept by `trim` still starts with it after trimming. */
  lemma TrimKeepsFirst(s: string, cs: set<char>)
    requires |s| > 0 && s[0] !in cs
    ensures |TrimChars(s, cs)| > 0 && TrimChars(s, cs)[0] == s[0]
  {
    var r := TrimChars(s, cs);
    TrimCharsIsMiddle(s, cs);
    var a :| 0 <= a <= |s| - |r| && r == s[a..a + |r|] && AllIn(s[..a], cs) && AllIn(s[a + |r|..], cs);
    if a > 0 {
      assert s[..a][0] == s[0];
    }
  }

  lemma TrimOfTrimmed(s: string)
    requires Trimmed(s, Whitespace)
    ensures Trim(s) == s
  {
    TrimCharsOfTrimmed(s, Whitespace);
  }

  /**
   Round trip: a line written as `key=value` with a trimmed key that holds
   no `=` and does not start with `#`, and a value with nothing to trim,
   parses back to that key and value.
   */
  lemma {:induction false} ParseLineRoundTrip(key: string, value: string)
    requires '=' !in key && Trimmed(key, Whitespace) && (|key| == 0 || key[0] != '#')
    requires Trimmed(value, Whitespace) && Trimmed(value, Quotes)
    ensures ParseLine(key + "=" + value) == Some((key, value))
  {
    TrimOfTrimmed(key);
    TrimOfTrimmed(value);
    TrimCharsOfTrimmed(value, Quotes);
    ParseLineOfSplit(key, value);
  }

  /** The same round trip for a value written inside quotes. */
  lemma {:induction false} ParseLineQuotedRoundTrip(key: string, value: string, q: char)
    requires '=' !in key && Trimmed(key, Whitespace) && (|key| == 0 || key[0] != '#')
    requires |value| > 0 && Trimmed(value, Quotes) && q in Quotes
    ensures ParseLine(key + "=" + [q] + value + [q]) == Some((key, value))
  {
    var quoted := [q] + value + [q];
    QuotedLine(key, value, q);
    ParseLineOfSplit(key, quoted);
    assert ParseLine(key + "=" + [q] + value + [q]) == Some((Trim(key), TrimChars(Trim(quoted), Quotes)));
    TrimOfTrimmed(key);
    QuotedValue(value, q);
  }

  lemma QuotedLine(key: string, value: string, q: char)
    ensures key + "=" + [q] + value + [q] == key + "=" + ([q] + value + [q])
  {
  }

  /** Stripping quotes from a value written between two quote characters gives back the value. */
  lemma {:induction false} QuotedValue(value: string, q: char)
    requires |value| > 0 && Trimmed(value, Quotes) && q in Quotes
    ensures TrimChars(Trim([q] + value + [q]), Quotes) == value
  {
    var quoted := [q] + value + [q];
    assert quoted[0] == q && quoted[|quoted| - 1] == q;
    TrimOfTrimmed(quoted);
    assert AllIn([q], Quotes);
    TrimCharsOfPadded([q], value, [q], Quotes);
  }

  /** The first `=` of `key=rest` is the one after the key. */
  lemma IndexOfSplit(key: string, rest: string)
    requires '=' !in key
    ensures IndexOf(key + "=" + rest, '=') == Some(|key|)
  {
    var line := key + "=" + rest;
    assert line[|key|] == '=';
  }

  /** A line whose first character is neither blank nor `#` is not a comment. */
  lemma NotComment(line: string)
    requires |line| > 0 && line[0] !in Whitespace && line[0] != '#'
    ensures !StartsWith(Trim(line), "#")
  {
    TrimKeepsFirst(line, Whitespace);
    var t := Trim(line);
    assert t == TrimChars(line, Whitespace);
    assert t[..1][0] == line[0];
  }

  /** `key=rest` splits at the `=` after the key, and is not a comment. */
  lemma {:induction false} ParseLineOfSplit(key: string, rest: string)
    requires '=' !in key && Trimmed(key, Whitespace) && (|key| == 0 || key[0] != '#')
    ensures ParseLine(key + "=" + rest) == Some((Trim(key), TrimChars(Trim(rest), Quotes)))
  {
    var line := key + "=" + rest;
    assert line[..|key|] == key;
    assert line[|key| + 1..] == rest;
    NotComment(line);
    IndexOfSplit(key, rest);
  }

  /** A line split at its first `=` that is not a comment yields its trimmed key and value. */
  lemma {:induction false} ParseLineAtFirstEquals(key: string, rest: string)
    requires '=' !in key && !StartsWith(Trim(key + "=" + rest), "#")
    ensures ParseLine(key + "=" + rest) == Some((Trim(key), TrimChars(Trim(rest), Quotes)))
  {
    var line := key + "=" + rest;
    assert line[..|key|] == key;
    assert line[|key| + 1..] == rest;
    IndexOfSplit(key, rest);
  }

  /** Blanks before text that starts with neither a blank nor `#` do not make a comment. */
  lemma {:induction false} NotCommentAfterBlanks(a: string, rest: string)
    requires AllIn(a, Whitespace) && |rest| > 0 && rest[0] !in Whitespace && rest[0] != '#'
    ensures !StartsWith(Trim(a + rest), "#")
  {
    TrimCharsDropsLeading(a, rest, Whitespace);
    NotComment(rest);
  }

  /**
   The key and the value are trimmed: blanks around either side of the `=`
   make no difference to what a line defines.
   */
  lemma {:induction false} ParseLineTrimsKeyAndValue(a: string, key: string, b: string,
                                                     c: string, value: string, d: string)
    requires AllIn(a, Whitespace) && AllIn(b, Whitespace) && AllIn(c, Whitespace) && AllIn(d, Whitespace)
    requires '=' !in key && Trimmed(key, Whitespace) && (|key| == 0 || key[0] != '#')
    requires Trimmed(value, Whitespace)
    ensures ParseLine(a + key + b + "=" + c + value + d) == Some((key, TrimChars(value, Quotes)))
    ensures ParseLine(a + key + b + "=" + c + value + d) == ParseLine(key + "=" + value)
  {
    var k := a + key + b;
    var v := c + value + d;
    assert a + key + b + "=" + c + value + d == k + "=" + v;
    assert '=' !in k by {
      assert forall i :: 0 <= i < |k| ==> k[i] in Whitespace || k[i] in key;
    }
    if |key| > 0 {
      assert k + "=" + v == a + (key + b + "=" + v);
      NotCommentAfterBlanks(a, key + b + "=" + v);
    } else {
      assert k + "=" + v == (a + b) + ("=" + v);
      assert AllIn(a + b, Whitespace);
      NotCommentAfterBlanks(a + b, "=" + v);
    }
    ParseLineAtFirstEquals(k, v);
    TrimCharsOfPadded(a, key, b, Whitespace);
    TrimCharsOfPadded(c, value, d, Whitespace);
    ParseLineRoundTripTrimmed(key, value);
  }

  /** The unpadded line defines the key with the value stripped of quotes. */
  lemma ParseLineRoundTripTrimmed(key: string, value: string)
    requires '=' !in key && Trimmed(key, Whitespace) && (|key| == 0 || key[0] != '#')
    requires Trimmed(value, Whitespace)
    ensures ParseLine(key + "=" + value) == Some((key, TrimChars(value, Quotes)))
  {
    TrimOfTrimmed(key);
    TrimOfTrimmed(value);
    ParseLineOfSplit(key, value);
  }

  /** A parsed line: the key it sets and the value, or `None` when it sets nothing. */
  type Entry = Option<(string, string)>

  /** The value an entry gives `key`, if it sets that key. */
  function Defines(e: Entry, key: string): Option<string>
  {
    if e.Some? && e.value.0 == key then Some(e.value.1) else None
  }

  /** Every line of a file, parsed. */
  function ParseLines(lines: seq<string>): (r: seq<Entry>)
    ensures |r| == |lines|
    ensures forall i :: 0 <= i < |lines| ==> r[i] == ParseLine(lines[i])
  {
    seq(|lines|, i requires 0 <= i < |lines| => ParseLine(lines[i]))
  }

  /** The value of the first entry that sets `key`. */
  function FirstDefinition(entries: seq<Entry>, key: string): (r: Option<string>)
    ensures r.None? <==> forall i :: 0 <= i < |entries| ==> Defines(entries[i], key).None?
    ensures r.Some? ==> exists i :: 0 <= i < |entries| && Defines(entries[i], key) == r
                                    && forall j :: 0 <= j < i ==> Defines(entries[j], key).None?
  {
    if |entries| == 0 then None
    else if Defines(entries[0], key).Some? then Defines(entries[0], key)
    else
      var rest := FirstDefinition(entries[1..], key);
      assert forall i :: 1 <= i < |entries| ==> entries[i] == entries[1..][i - 1];
      if rest.Some? then
        var i :| 0 <= i < |entries[1..]| && Defines(entries[1..][i], key) == rest
                 && forall j :: 0 <= j < i ==> Defines(entries[1..][j], key).None?;
        assert Defines(entries[i + 1], key) == rest;
        rest
      else rest
  }

  /** Adding an entry at the end only matters for keys no earlier entry set. */
  lemma {:induction false} FirstDefinitionSnoc(entries: seq<Entry>, e: Entry, key: string)
    ensures FirstDefinition(entries + [e], key)
            == if FirstDefinition(entries, key).Some? then FirstDefinition(entries, key) else Defines(e, key)
  {
    if |entries| > 0 {
      assert (entries + [e])[1..] == entries[1..] + [e];
      FirstDefinitionSnoc(entries[1..], e, key);
    }
  }

  /**
   `env` is what applying `entries` in order to `env0` gives: a key that is
   already set keeps its value, and every other key set by some entry gets the
   value of its first entry.
   */
  ghost predicate Loaded(entries: seq<Entry>, env0: map<string, string>, env: map<string, string>)
  {
    && (forall k :: k in env <==> k in env0 || FirstDefinition(entries, k).Some?)
    && (forall k :: k in env0 ==> k in env && env[k] == env0[k])
    && (forall k :: k in env && k !in env0 ==> FirstDefinition(entries, k) == Some(env[k]))
  }

  /** One entry applied: it sets its key only when the key is not set yet. */
  function Apply(env: map<string, string>, e: Entry): map<string, string>
  {
    if e.Some? && e.value.0 !in env then env[e.value.0 := e.value.1] else env
  }

  lemma {:induction false} LoadedSnoc(entries: seq<Entry>, e: Entry, env0: map<string, string>, env: map<string, string>)
    requires Loaded(entries, env0, env)
    ensures Loaded(entries + [e], env0, Apply(env, e))
  {
    var env' := Apply(env, e);
    forall k
      ensures k in env' <==> k in env0 || FirstDefinition(entries + [e], k).Some?
      ensures k in env0 ==> k in env' && env'[k] == env0[k]
      ensures k in env' && k !in env0 ==> FirstDefinition(entries + [e], k) == Some(env'[k])
    {
      LoadedSnocKey(entries, e, env0, env, k);
    }
  }

  lemma {:induction false} LoadedSnocKey(entries: seq<Entry>, e: Entry, env0: map<string, string>,
                                         env: map<string, string>, k: string)
    requires Loaded(entries, env0, env)
    ensures k in Apply(env, e) <==> k in env0 || FirstDefinition(entries + [e], k).Some?
    ensures k in env0 ==> k in Apply(env, e) && Apply(env, e)[k] == env0[k]
    ensures k in Apply(env, e) && k !in env0 ==> FirstDefinition(entries + [e], k) == Some(Apply(env, e)[k])
  {
    FirstDefinitionSnoc(entries, e, k);
    assert k in env <==> k in env0 || FirstDefinition(entries, k).Some?;
    assert k in env && k !in env0 ==> FirstDefinition(entries, k) == Some(env[k]);
  }

  /**
   Applies parsed lines in order: a key that is already set keeps its value,
   and every other key set by some entry gets the value of its first entry.
   */
  method LoadEntries(entries: seq<Entry>, env0: map<string, string>) returns (env: map<string, string>)
    ensures forall k :: k in env <==> k in env0 || FirstDefinition(entries, k).Some?
    ensures forall k :: k in env0 ==> env[k] == env0[k]
    ensures forall k :: k in env && k !in env0 ==> FirstDefinition(entries, k) == Some(env[k])
  {
    env := env0;
    for i := 0 to |entries|
      invariant Loaded(entries[..i], env0, env)
    {
      LoadedSnoc(entries[..i], entries[i], env0, env);
      assert entries[..i + 1] == entries[..i] + [entries[i]];
      env := Apply(env, entries[i]);
    }
    assert entries[..|entries|] == entries;
  }

  /**
   `loadEnv`: a missing file loads nothing and reports it; otherwise the
   file's lines are parsed and applied in order.
   */
  method LoadEnv(file: Option<seq<string>>, env0: map<string, string>)
    returns (env: map<string, string>, found: bool)
    ensures found <==> file.Some?
    ensures !found ==> env == env0
    ensures found ==> forall k :: k in env <==> k in env0 || FirstDefinition(ParseLines(file.value), k).Some?
    ensures forall k :: k in env0 ==> k in env && env[k] == env0[k]
    ensures found ==> forall k :: k in env && k !in env0 ==> FirstDefinition(ParseLines(file.value), k) == Some(env[k])
  {
    if file.None? {
      return env0, false;
    }
    env := LoadEntries(ParseLines(file.value), env0);
    found := true;
  }

  const TrueWords: set<string> := {"true", "(true)"}
  const FalseWords: set<string> := {"false", "(false)"}
  const EmptyWords: set<string> := {"empty", "(empty)"}
  const NullWords: set<string> := {"null", "(null)"}

  /**
   How `env()` reads a stored value: the four keywords, compared without
   regard to ASCII case, become true, false, the empty string and null;
   anything else comes back unchanged.
   */
  function Interpret(raw: string): (r: EnvValue)
    ensures r.Str? ==> r.s == raw || (r.s == "" && ToLower(raw) in EmptyWords)
    ensures ToLower(raw) in EmptyWords ==> r == Str("")
    ensures r == Bool(true) <==> ToLower(raw) in TrueWords
    ensures r == Bool(false) <==> ToLower(raw) in FalseWords
    ensures r == Null <==> ToLower(raw) in NullWords
  {
    var lowered := ToLower(raw);
    if lowered in TrueWords then Bool(true)
    else if lowered in FalseWords then Bool(false)
    else if lowered in EmptyWords then Str("")
    else if lowered in NullWords then Null
    else Str(raw)
  }

  /** Two values that differ only in letter case read back alike unless they are plain strings. */
  lemma InterpretIgnoresCase(a: string, b: string)
    requires ToLower(a) == ToLower(b)
    ensures Interpret(a).Str? == Interpret(b).Str?
    ensures !Interpret(a).Str? ==> Interpret(a) == Interpret(b)
    ensures Interpret(a).Str? && Interpret(a).s == "" ==> Interpret(b) == Str("")
  {
  }

  /** `env($key, $default)`: the default when the key is unset, otherwise the interpreted value. */
  function Env(vars: map<string, string>, key: string, default: EnvValue): (r: EnvValue)
    ensures key !in vars ==> r == default
    ensures key in vars ==> r == Interpret(vars[key])
    ensures key in vars && !Interpret(vars[key]).Str? ==> ToLower(vars[key]) in TrueWords + FalseWords + NullWords
    ensures key in vars && r.Str? && r.s != "" ==> r.s == vars[key]
  {
    if key in vars then Interpret(vars[key]) else default
  }

  /** A value reads back unchanged exactly when it is none of the keywords. */
  lemma InterpretKeepsPlainValues(raw: string)
    ensures Interpret(raw) == Str(raw) <==> ToLower(raw) !in TrueWords + FalseWords + EmptyWords + NullWords
  {
    if ToLower(raw) in EmptyWords {
      assert |ToLower(raw)| > 0;
    }
  }

  /** Setting a key changes what `env()` reads for that key and for no other. */
  lemma EnvReadsBack(vars: map<string, string>, key: string, raw: string, other: string, default: EnvValue)
    ensures Env(vars[key := raw], key, default) == Interpret(raw)
    ensures other != key ==> Env(vars[key := raw], other, default) == Env(vars, other, default)
  {
  }
}
