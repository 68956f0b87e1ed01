/**
  The path rewriter of the deployment tooling: five conversions of
  root-absolute asset paths into relative ones, each a global replace of a
  literal pattern, with the number of replacements counted.  Reading and
  writing the files and the console report are left out; a file is its
  content, or `None` when it does not exist.
 */
module PathRewriter {
  import opened Common

  datatype Conversion = Conversion(from: string, to: string)

  /** The conversions, applied in this order: `href="/css/` to `href="css/`,
      `src="/js/` to `src="js/`, `src="/assets/` to `src="assets/`,
      `href="/assets/` to `href="assets/` and `src="/images/` to
      `src="images/` (see `Spelled0` to `Spelled4`). */
  const Conversions: seq<Conversion> := [
    Rule("href", "css"),
    Rule("src", "js"),
    Rule("src", "assets"),
    Rule("href", "assets"),
    Rule("src", "images")
  ]

  // ---------------------------------------------------------------- escaping

  /** The characters `[.*+?^${}()|[\]\\]` escapes. */
  predicate IsMeta(c: char)
  {
    || c == '.' || c == '*' || c == '+' || c == '?' || c == '^' || c == '$'
    || c == '{' || c == '}' || c == '(' || c == ')' || c == '|' || c == '[' || c == ']' || c == '\\'
  }

  /** `from.replace(/[.*+?^${}()|[\]\\]/g, '\\$&')`. */
  function Escape(s: string): (r: string)
    ensures (forall i :: 0 <= i < |s| ==> !IsMeta(s[i])) ==> r == s
    ensures |r| >= |s|
  {
    if |s| == 0 then ""
    else (if IsMeta(s[0]) then ['\\', s[0]] else [s[0]]) + Escape(s[1..])
  }

  // ------------------------------------------------------------- replace all

  /** `from` occurs in `t` at position `k`. */
  predicate MatchAt(t: string, k: int, from: string)
  {
    0 <= k && k + |from| <= |t| && t[k..k + |from|] == from
  }

  predicate NoMatch(t: string, from: string)
  {
    forall k :: 0 <= k <= |t| ==> !MatchAt(t, k, from)
  }

  /** `content.replace(regex, to)` with a global literal pattern: scan left
      to right, replace each occurrence and resume after it. */
  function ReplaceAll(s: string, from: string, to: string): string
    requires |from| > 0
    decreases |s|
  {
    if |s| < |from| then s
    else if s[..|from|] == from then to + ReplaceAll(s[|from|..], from, to)
    else [s[0]] + ReplaceAll(s[1..], from, to)
  }

  /** `content.match(regex).length` (0 for `null`): the same scan, counting. */
  function Count(s: string, from: string): nat
    requires |from| > 0
    decreases |s|
  {
    if |s| < |from| then 0
    else if s[..|from|] == from then 1 + Count(s[|from|..], from)
    else Count(s[1..], from)
  }

  lemma TimesMinusOne(n: int, d: int)
    requires d == -1
    ensures n * d == -n
  {
  }

  lemma OneMore(n: int, d: int)
    ensures (1 + n) * d == d + n * d
  {
  }

  /** Each replacement changes the length by `|to| - |from|`. */
  lemma {:induction false} ReplaceLength(s: string, from: string, to: string)
    requires |from| > 0
    ensures |ReplaceAll(s, from, to)| == |s| + Count(s, from) * (|to| - |from|)
    decreases |s|
  {
    if |s| >= |from| {
      var d := |to| - |from|;
      if s[..|from|] == from {
        ReplaceLength(s[|from|..], from, to);
        OneMore(Count(s[|from|..], from), d);
      } else {
        ReplaceLength(s[1..], from, to);
      }
    }
  }

  /** The number of occurrences of a character. */
  function Occurrences(s: string, c: char): nat
  {
    if |s| == 0 then 0 else (if s[0] == c then 1 else 0) + Occurrences(s[1..], c)
  }

  lemma {:induction false} OccurrencesAppend(a: string, b: string, c: char)
    ensures Occurrences(a + b, c) == Occurrences(a, c) + Occurrences(b, c)
    decreases |a|
  {
    if |a| == 0 {
      assert a + b == b;
    } else {
      assert (a + b)[1..] == a[1..] + b;
      OccurrencesAppend(a[1..], b, c);
    }
  }

  /** Each replacement changes the number of `c`s by what `to` has more of
      them than `from`. */
  lemma {:induction false} ReplaceOccurrences(s: string, from: string, to: string, c: char)
    requires |from| > 0
    ensures Occurrences(ReplaceAll(s, from, to), c) ==
            Occurrences(s, c) + Count(s, from) * (Occurrences(to, c) - Occurrences(from, c))
    decreases |s|
  {
    if |s| >= |from| {
      var d := Occurrences(to, c) - Occurrences(from, c);
      if s[..|from|] == from {
        ReplaceOccurrences(s[|from|..], from, to, c);
        OneMore(Count(s[|from|..], from), d);
        OccurrencesAppend(to, ReplaceAll(s[|from|..], from, to), c);
        OccurrencesAppend(from, s[|from|..], c);
        assert s == from + s[|from|..];
      } else {
        ReplaceOccurrences(s[1..], from, to, c);
        OccurrencesAppend([s[0]], ReplaceAll(s[1..], from, to), c);
        OccurrencesAppend([s[0]], s[1..], c);
        assert s == [s[0]] + s[1..];
      }
    }
  }

  /** A text is left alone exactly when the pattern does not occur in it. */
  lemma {:induction false} CountZeroIff(s: string, from: string)
    requires |from| > 0
    ensures Count(s, from) == 0 <==> NoMatch(s, from)
    decreases |s|
  {
    if |s| < |from| {
    } else if s[..|from|] == from {
      assert MatchAt(s, 0, from);
    } else {
      CountZeroIff(s[1..], from);
      NoMatchTail(s, from);
    }
  }

  /** Without a match at the front, `s` has no match exactly when its tail
      has none. */
  lemma NoMatchTail(s: string, from: string)
    requires |s| >= |from| > 0 && s[..|from|] != from
    ensures NoMatch(s, from) <==> NoMatch(s[1..], from)
  {
    forall k | 0 <= k <= |s[1..]|
      ensures MatchAt(s[1..], k, from) <==> MatchAt(s, k + 1, from)
    {
      if k + |from| <= |s[1..]| {
        var a, b := s[k + 1..k + 1 + |from|], s[1..][k..k + |from|];
        forall m | 0 <= m < |from|
          ensures a[m] == b[m]
        {
        }
        assert a == b;
      }
    }
    assert !MatchAt(s, 0, from);
    if NoMatch(s[1..], from) {
      forall k | 0 <= k <= |s|
        ensures !MatchAt(s, k, from)
      {
        if k > 0 {
          assert !MatchAt(s[1..], k - 1, from);
        }
      }
    }
  }

  /** Without an occurrence, replacing changes nothing, whatever `to` is. */
  lemma {:induction false} NoMatchUnchanged(s: string, from: string, to: string)
    requires |from| > 0 && Count(s, from) == 0
    ensures ReplaceAll(s, from, to) == s
    decreases |s|
  {
    if |s| >= |from| {
      NoMatchUnchanged(s[1..], from, to);
      assert s == [s[0]] + s[1..];
    }
  }

  // ------------------------------------------------ nothing left to replace

  lemma PrefixOfAppend(a: string, b: string, n: nat)
    requires n <= |a|
    ensures (a + b)[..n] == a[..n]
  {
    var x, y := (a + b)[..n], a[..n];
    forall m | 0 <= m < n
      ensures x[m] == y[m]
    {
    }
  }

  lemma SliceOfRight(a: string, b: string, i: nat, j: nat)
    requires |a| <= i <= j <= |a| + |b|
    ensures (a + b)[i..j] == b[i - |a|..j - |a|]
  {
    var x, y := (a + b)[i..j], b[i - |a|..j - |a|];
    forall m | 0 <= m < j - i
      ensures x[m] == y[m]
    {
    }
  }

  lemma SliceAcross(a: string, b: string, k: nat, n: nat)
    requires k <= |a| <= k + n <= |a| + |b|
    ensures (a + b)[k..k + n][..|a| - k] == a[k..]
  {
    var x, y := (a + b)[k..k + n][..|a| - k], a[k..];
    forall m | 0 <= m < |a| - k
      ensures x[m] == y[m]
    {
    }
  }

  lemma ConsPrefix(c: char, rest: string, n: nat)
    requires 1 <= n <= 1 + |rest|
    ensures ([c] + rest)[..n] == [c] + rest[..n - 1]
  {
    var x, y := ([c] + rest)[..n], [c] + rest[..n - 1];
    forall m | 0 <= m < n
      ensures x[m] == y[m]
    {
    }
  }

  predicate IsPrefix(a: string, b: string)
  {
    |a| <= |b| && b[..|a|] == a
  }

  /** Conditions under which a replacement can neither leave nor create an
      occurrence: `to` is one shorter; no proper suffix of `from`
      starts `to` (so an untouched tail cannot run into an inserted `to`);
      and no suffix of `to` starts `from` (so an inserted `to` cannot begin
      one). */
  predicate Safe(from: string, to: string)
  {
    && |from| > 0 && |from| == |to| + 1
    && (forall j :: 1 <= j < |from| ==> !IsPrefix(from[j..], to))
    && (forall k :: 0 <= k < |to| ==> !IsPrefix(to[k..], from))
  }

  /** If the result starts with a proper suffix of `from`, so did the text. */
  lemma {:induction false} SuffixComesFromText(t: string, from: string, to: string, j: nat)
    requires Safe(from, to) && 1 <= j < |from|
    ensures IsPrefix(from[j..], ReplaceAll(t, from, to)) ==> IsPrefix(from[j..], t)
    decreases |t|
  {
    var r := ReplaceAll(t, from, to);
    var n := |from| - j;
    if |t| >= |from| {
      if t[..|from|] == from {
        PrefixOfAppend(to, ReplaceAll(t[|from|..], from, to), n);
        assert !IsPrefix(from[j..], to);
      } else {
        var rest := ReplaceAll(t[1..], from, to);
        assert r == [t[0]] + rest;
        if j + 1 < |from| {
          SuffixComesFromText(t[1..], from, to, j + 1);
          assert from[j..] == [from[j]] + from[j + 1..];
          if |rest| >= n - 1 {
            ConsPrefix(t[0], rest, n);
          }
          ConsPrefix(t[0], t[1..], n);
          assert [t[0]] + t[1..] == t;
        }
      }
    }
  }

  /** After a replacement the pattern no longer occurs. */
  lemma {:induction false} ReplaceRemovesAll(s: string, from: string, to: string)
    requires Safe(from, to)
    ensures NoMatch(ReplaceAll(s, from, to), from)
    decreases |s|
  {
    if |s| < |from| {
    } else if s[..|from|] == from {
      ReplaceRemovesAll(s[|from|..], from, to);
      NoMatchAfterTo(ReplaceAll(s[|from|..], from, to), from, to);
    } else {
      ReplaceRemovesAll(s[1..], from, to);
      NoMatchAfterKept(s, from, to);
    }
  }

  /** An inserted `to` followed by text without a match has no match. */
  lemma NoMatchAfterTo(rest: string, from: string, to: string)
    requires Safe(from, to) && NoMatch(rest, from)
    ensures NoMatch(to + rest, from)
  {
    var r := to + rest;
    forall k | 0 <= k <= |r| && k + |from| <= |r|
      ensures !MatchAt(r, k, from)
    {
      if k < |to| {
        SliceAcross(to, rest, k, |from|);
        assert !IsPrefix(to[k..], from);
      } else {
        SliceOfRight(to, rest, k, k + |from|);
        assert !MatchAt(rest, k - |to|, from);
      }
    }
  }

  /** A kept first character does not start a match when the rest has none. */
  lemma NoMatchAfterKept(s: string, from: string, to: string)
    requires Safe(from, to) && |s| >= |from| && s[..|from|] != from
    requires NoMatch(ReplaceAll(s[1..], from, to), from)
    ensures NoMatch(ReplaceAll(s, from, to), from)
  {
    var rest := ReplaceAll(s[1..], from, to);
    var r := ReplaceAll(s, from, to);
    assert r == [s[0]] + rest;
    NoMatchAtFront(s, from, to);
    forall k | 1 <= k <= |r| && k + |from| <= |r|
      ensures !MatchAt(r, k, from)
    {
      SliceOfRight([s[0]], rest, k, k + |from|);
      assert !MatchAt(rest, k - 1, from);
    }
  }

  /** Nor does the kept character start a match: the match would continue
      with a proper suffix of `from`, which the text would have held too. */
  lemma NoMatchAtFront(s: string, from: string, to: string)
    requires Safe(from, to) && |s| >= |from| && s[..|from|] != from
    ensures !MatchAt(ReplaceAll(s, from, to), 0, from)
  {
    var n := |from|;
    var rest := ReplaceAll(s[1..], from, to);
    var r := ReplaceAll(s, from, to);
    assert r == [s[0]] + rest;
    if |r| >= n {
      if n == 1 {
        assert s[..1] == [s[0]] && r[..1] == [s[0]];
      } else if s[0] != from[0] {
        assert r[..n][0] != from[0];
      } else {
        assert [s[0]] + s[1..] == s;
        ConsPrefix(s[0], s[1..], n);
        assert from == [from[0]] + from[1..];
        assert !IsPrefix(from[1..], s[1..]);
        SuffixComesFromText(s[1..], from, to, 1);
        ConsPrefix(s[0], rest, n);
      }
    }
  }

  /** A second replacement finds nothing and changes nothing. */
  lemma ReplaceIdempotent(s: string, from: string, to: string)
    requires Safe(from, to)
    ensures Count(ReplaceAll(s, from, to), from) == 0
    ensures ReplaceAll(ReplaceAll(s, from, to), from, to) == ReplaceAll(s, from, to)
  {
    ReplaceRemovesAll(s, from, to);
    CountZeroIff(ReplaceAll(s, from, to), from);
    NoMatchUnchanged(ReplaceAll(s, from, to), from, to);
  }

  /** Each conversion drops exactly the `/` after the opening quote. */
  predicate DropsOneSlash(c: Conversion)
  {
    exists k :: 0 <= k < |c.from| && c.from[k] == '/' && c.to == c.from[..k] + c.from[k + 1..]
  }

  lemma ConversionSafe(c: Conversion, k: nat)
    requires k < |c.from| && c.from[k] == '/' && c.to == c.from[..k] + c.from[k + 1..]
    ensures DropsOneSlash(c) && |c.to| + 1 == |c.from|
    ensures Occurrences(c.to, '/') + 1 == Occurrences(c.from, '/')
  {
    assert c.from == c.from[..k] + ['/'] + c.from[k + 1..];
    OccurrencesAppend(c.from[..k] + ['/'], c.from[k + 1..], '/');
    OccurrencesAppend(c.from[..k], ['/'], '/');
    OccurrencesAppend(c.from[..k], c.from[k + 1..], '/');
  }

  /** What each conversion satisfies: its pattern holds no metacharacter,
      so the regular expression matches it literally; it drops one `/`;
      and it meets the conditions of `Safe`. */
  predicate Good(c: Conversion)
  {
    && Escape(c.from) == c.from
    && Safe(c.from, c.to) && DropsOneSlash(c) && |c.to| + 1 == |c.from|
    && Occurrences(c.to, '/') + 1 == Occurrences(c.from, '/')
  }

  /** The shape of every conversion: attribute `A`, directory `D`, and
      `A="/D/` becomes `A="D/`. */
  function Rule(attr: string, dir: string): Conversion
  {
    Conversion(attr + "=\"/" + dir + "/", attr + "=\"" + dir + "/")
  }

  /** A non-empty word of lower-case letters. */
  predicate Word(s: string)
  {
    |s| > 0 && forall i :: 0 <= i < |s| ==> 'a' <= s[i] <= 'z'
  }

  lemma Spelled0() ensures Conversions[0] == Conversion("href=\"/css/", "href=\"css/") {}
  lemma Spelled1() ensures Conversions[1] == Conversion("src=\"/js/", "src=\"js/") {}
  lemma Spelled2() ensures Conversions[2] == Conversion("src=\"/assets/", "src=\"assets/") {}
  lemma Spelled3() ensures Conversions[3] == Conversion("href=\"/assets/", "href=\"assets/") {}
  lemma Spelled4() ensures Conversions[4] == Conversion("src=\"/images/", "src=\"images/") {}

  /** Where the `/`, `=` and `"` of a rule's pattern sit; every other
      character is a letter. */
  lemma FromChars(attr: string, dir: string, i: nat)
    requires Word(attr) && Word(dir) && i < |Rule(attr, dir).from|
    ensures var f := Rule(attr, dir).from;
            && (f[i] == '/' <==> i == |attr| + 2 || i == |f| - 1)
            && (f[i] == '=' <==> i == |attr|)
            && (f[i] == '"' <==> i == |attr| + 1)
            && !IsMeta(f[i])
  {
    var f := Rule(attr, dir).from;
    if i < |attr| {
      assert f[i] == attr[i];
    } else if i >= |attr| + 3 && i < |f| - 1 {
      assert f[i] == dir[i - |attr| - 3];
    }
  }

  /** Where the `/`, `=` and `"` of a rule's replacement sit. */
  lemma ToChars(attr: string, dir: string, i: nat)
    requires Word(attr) && Word(dir) && i < |Rule(attr, dir).to|
    ensures var t := Rule(attr, dir).to;
            && (t[i] == '/' <==> i == |t| - 1)
            && (t[i] == '=' <==> i == |attr|)
            && (t[i] == '"' <==> i == |attr| + 1)
  {
    var t := Rule(attr, dir).to;
    if i < |attr| {
      assert t[i] == attr[i];
    } else if i >= |attr| + 2 && i < |t| - 1 {
      assert t[i] == dir[i - |attr| - 2];
    }
  }

  /** No proper suffix of a rule's pattern starts its replacement: the
      suffix would end in the replacement's only `/`, which is its last
      character, so it would be the whole replacement bar one character,
      whose `"` sits one place too early. */
  lemma RuleSuffixesMiss(attr: string, dir: string)
    requires Word(attr) && Word(dir)
    ensures var c := Rule(attr, dir);
            forall j :: 1 <= j < |c.from| ==> !IsPrefix(c.from[j..], c.to)
  {
    var c := Rule(attr, dir);
    forall j | 1 <= j < |c.from|
      ensures !IsPrefix(c.from[j..], c.to)
    {
      if j == 1 {
        FromChars(attr, dir, |attr| + 1);
        ToChars(attr, dir, |attr|);
        assert c.from[j..][|attr|] != c.to[..|c.from| - j][|attr|];
      } else {
        var n := |c.from| - j;
        FromChars(attr, dir, |c.from| - 1);
        ToChars(attr, dir, n - 1);
        assert c.from[j..][n - 1] != c.to[..n][n - 1];
      }
    }
  }

  /** No suffix of a rule's replacement starts its pattern: the suffix
      would end in a `/` of the pattern, the one after `="`, and so would
      have to start with the attribute and its `=`, which only the whole
      replacement does, and the whole replacement is too long. */
  lemma RuleToSuffixesMiss(attr: string, dir: string)
    requires Word(attr) && Word(dir)
    ensures var c := Rule(attr, dir);
            forall k :: 0 <= k < |c.to| ==> !IsPrefix(c.to[k..], c.from)
  {
    var c := Rule(attr, dir);
    forall k | 0 <= k < |c.to|
      ensures !IsPrefix(c.to[k..], c.from)
    {
      var m := |c.to| - k;
      ToChars(attr, dir, |c.to| - 1);
      FromChars(attr, dir, m - 1);
      if m - 1 != |attr| + 2 {
        assert c.to[k..][m - 1] != c.from[..m][m - 1];
      } else {
        ToChars(attr, dir, k + |attr|);
        FromChars(attr, dir, |attr|);
        assert c.to[k..][|attr|] != c.from[..m][|attr|];
      }
    }
  }

  /** Every rule is `Good`. */
  lemma RuleGood(attr: string, dir: string)
    requires Word(attr) && Word(dir)
    ensures Good(Rule(attr, dir))
  {
    var c := Rule(attr, dir);
    var k := |attr| + 2;
    forall i | 0 <= i < |c.from|
      ensures !IsMeta(c.from[i])
    {
      FromChars(attr, dir, i);
    }
    assert c.from[..k] == attr + "=\"";
    assert c.from[k + 1..] == dir + "/";
    ConversionSafe(c, k);
    RuleSuffixesMiss(attr, dir);
    RuleToSuffixesMiss(attr, dir);
  }

  lemma Words()
    ensures Word("href") && Word("src") && Word("css") && Word("js") && Word("assets") && Word("images")
  {
  }

  /** `c` is a rule over two words. */
  ghost predicate IsRule(c: Conversion)
  {
    exists attr, dir :: Word(attr) && Word(dir) && c == Rule(attr, dir)
  }

  lemma AllRules()
    ensures forall i :: 0 <= i < |Conversions| ==> IsRule(Conversions[i])
  {
    Words();
    assert Conversions[0] == Rule("href", "css");
    assert Conversions[1] == Rule("src", "js");
    assert Conversions[2] == Rule("src", "assets");
    assert Conversions[3] == Rule("href", "assets");
    assert Conversions[4] == Rule("src", "images");
  }

  /** Every conversion is `Good`. */
  lemma ConversionsSafe()
    ensures forall i :: 0 <= i < |Conversions| ==> Good(Conversions[i])
  {
    AllRules();
    forall i | 0 <= i < |Conversions|
      ensures Good(Conversions[i])
    {
      var attr, dir :| Word(attr) && Word(dir) && Conversions[i] == Rule(attr, dir);
      RuleGood(attr, dir);
    }
  }


  // -------------------------------------------------------------- one file

  /** The loop over the conversions: a conversion with matches replaces them
      and adds their number to `changes`; one without is skipped. */
  function Convert(content: string, convs: seq<Conversion>): (r: (string, nat))
    requires forall i :: 0 <= i < |convs| ==> |convs[i].from| > 0
    decreases |convs|
  {
    if |convs| == 0 then (content, 0)
    else
      var c := convs[0];
      var n := Count(content, c.from);
      var next := if n > 0 then ReplaceAll(content, c.from, c.to) else content;
      var rest := Convert(next, convs[1..]);
      (rest.0, n + rest.1)
  }

  /** With conversions that each drop one `/`, the text shrinks by the
      number of changes and loses exactly that many `/`s. */
  lemma {:induction false} ConvertShrinks(content: string, convs: seq<Conversion>)
    requires forall i :: 0 <= i < |convs| ==> |convs[i].from| > 0 && |convs[i].to| + 1 == |convs[i].from|
    requires forall i :: 0 <= i < |convs| ==> Occurrences(convs[i].to, '/') + 1 == Occurrences(convs[i].from, '/')
    ensures var r := Convert(content, convs);
            |r.0| + r.1 == |content| && Occurrences(r.0, '/') + r.1 == Occurrences(content, '/')
    ensures Convert(content, convs).1 == 0 ==> Convert(content, convs).0 == content
    decreases |convs|
  {
    if |convs| > 0 {
      var c := convs[0];
      ReplaceLength(content, c.from, c.to);
      ReplaceOccurrences(content, c.from, c.to, '/');
      var n := Count(content, c.from);
      var next := if n > 0 then ReplaceAll(content, c.from, c.to) else content;
      ConvertShrinks(next, convs[1..]);
      TimesMinusOne(n, |c.to| - |c.from|);
      TimesMinusOne(n, Occurrences(c.to, '/') - Occurrences(c.from, '/'));
    }
  }

  datatype FileResult = FileResult(written: Option<string>, changes: nat)

  /** One file of `fixAbsolutePaths`: a missing file is skipped; the file is
      written back only when some conversion matched. */
  function FixFile(file: Option<string>): (r: FileResult)
    ensures file.None? ==> r == FileResult(None, 0)
    ensures r.written.Some? <==> r.changes > 0
    ensures r.written.Some? ==> |r.written.value| + r.changes == |file.value|
  {
    match file
    case None => FileResult(None, 0)
    case Some(content) =>
      ConversionsSafe();
      ConvertShrinks(content, Conversions);
      var (text, changes) := Convert(content, Conversions);
      if changes > 0 then FileResult(Some(text), changes) else FileResult(None, 0)
  }

  /** The first conversion leaves no `href="/css/` behind, and the change
      count covers every one it replaced. */
  lemma FirstConversionComplete(content: string)
    ensures var c := Conversions[0];
            NoMatch(Convert(content, [c]).0, c.from) &&
            Convert(content, [c]).1 == Count(content, c.from)
  {
    var c := Conversions[0];
    ConversionsSafe();
    ReplaceRemovesAll(content, c.from, c.to);
    CountZeroIff(content, c.from);
  }

  /** `fixAbsolutePaths` over `index.html` and `dist/index.html`: the total
      is the sum of the files' changes. */
  function FixAbsolutePaths(files: seq<Option<string>>): (r: (seq<FileResult>, nat))
    ensures |r.0| == |files|
    ensures forall i :: 0 <= i < |files| ==> r.0[i] == FixFile(files[i])
    ensures r.1 == SumChanges(r.0)
  {
    var results := seq(|files|, i requires 0 <= i < |files| => FixFile(files[i]));
    (results, SumChanges(results))
  }

  function SumChanges(rs: seq<FileResult>): nat
  {
    if |rs| == 0 then 0 else rs[0].changes + SumChanges(rs[1..])
  }

  /** Nothing is reported converted exactly when no file is written. */
  lemma {:induction false} TotalZeroIff(rs: seq<FileResult>)
    requires forall i :: 0 <= i < |rs| ==> (rs[i].written.Some? <==> rs[i].changes > 0)
    ensures SumChanges(rs) == 0 <==> forall i :: 0 <= i < |rs| ==> rs[i].written.None?
  {
    if |rs| > 0 {
      TotalZeroIff(rs[1..]);
      assert forall i :: 1 <= i < |rs| ==> rs[1..][i - 1] == rs[i];
    }
  }
}
