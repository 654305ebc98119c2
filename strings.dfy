/**
 * The Python string operations the cleaners and the ledger rely on, over `string`
 * (a `seq<char>`): `strip`, `split`, `join`, `lower`, `in`, slicing, the two regular
 * expression substitutions, `str(int)` and `int(str)`.
 */
module Strings {
  import opened Optional

  /** `c.isspace()`; the regex class `\s`, `str.split()` and `str.strip()` use the same set. */
  predicate IsSpace(c: char) {
    || c == ' '
    || ('\t' <= c <= '\r')
    || ('\U{1C}' <= c <= '\U{1F}')
    || c == '\U{85}' || c == '\U{A0}' || c == '\U{1680}'
    || ('\U{2000}' <= c <= '\U{200A}')
    || c == '\U{2028}' || c == '\U{2029}' || c == '\U{202F}' || c == '\U{205F}' || c == '\U{3000}'
  }

  predicate IsDigit(c: char) { '0' <= c <= '9' }

  /** The characters both cleaners strip from file names: backslash, slash, star, `?`, `:`, `"`, `<`, `>` and `|`. */
  predicate IsIllegalNameChar(c: char) {
    c == '\\' || c == '/' || c == '*' || c == '?' || c == ':' || c == '\"' || c == '<' || c == '>' || c == '|'
  }

  /** `s.lstrip()` */
  function LStrip(s: string): (r: string)
    ensures |r| <= |s| && r == s[|s| - |r|..]
    ensures r == [] || !IsSpace(r[0])
    ensures s != [] && IsSpace(s[0]) ==> |r| < |s|
  {
    if s == [] || !IsSpace(s[0]) then s else LStrip(s[1..])
  }

  /** `s.strip()`: `s` without the whitespace at either end. */
  function Strip(s: string): string
    decreases |s|
  {
    if s != [] && IsSpace(s[0]) then Strip(s[1..])
    else if s != [] && IsSpace(s[|s| - 1]) then Strip(s[..|s| - 1])
    else s
  }

  /** Where in `s` the text `strip()` keeps begins. */
  function StripOffset(s: string): nat
    decreases |s|
  {
    if s != [] && IsSpace(s[0]) then 1 + StripOffset(s[1..])
    else if s != [] && IsSpace(s[|s| - 1]) then StripOffset(s[..|s| - 1])
    else 0
  }

  /** What `strip()` leaves is a slice of `s` ... */
  lemma {:induction false} StripIsSlice(s: string)
    ensures StripOffset(s) + |Strip(s)| <= |s| && Strip(s) == s[StripOffset(s)..StripOffset(s) + |Strip(s)|]
    decreases |s|
  {
    if s != [] && IsSpace(s[0]) {
      StripIsSlice(s[1..]);
    } else if s != [] && IsSpace(s[|s| - 1]) {
      StripIsSlice(s[..|s| - 1]);
    }
  }

  /** ... that neither begins nor ends with whitespace ... */
  lemma {:induction false} StripTrims(s: string)
    ensures Strip(s) == [] || (!IsSpace(Strip(s)[0]) && !IsSpace(Strip(s)[|Strip(s)| - 1]))
    decreases |s|
  {
    if s != [] && IsSpace(s[0]) {
      StripTrims(s[1..]);
    } else if s != [] && IsSpace(s[|s| - 1]) {
      StripTrims(s[..|s| - 1]);
    }
  }

  /** ... and it removes whitespace only: everything before and after the kept slice is whitespace. */
  lemma {:induction false} StripRemovesOnlySpace(s: string)
    ensures forall k :: 0 <= k < StripOffset(s) && k < |s| ==> IsSpace(s[k])
    ensures forall k :: StripOffset(s) + |Strip(s)| <= k < |s| ==> IsSpace(s[k])
    decreases |s|
  {
    if s != [] && IsSpace(s[0]) {
      StripRemovesOnlySpace(s[1..]);
      assert forall k :: 0 < k < |s| ==> s[k] == s[1..][k - 1];
    } else if s != [] && IsSpace(s[|s| - 1]) {
      StripRemovesOnlySpace(s[..|s| - 1]);
      assert forall k :: 0 <= k < |s| - 1 ==> s[k] == s[..|s| - 1][k];
    }
  }

  /** The longest prefix of `s` that holds no whitespace. */
  function WordPrefix(s: string): (w: string)
    ensures |w| <= |s| && w == s[..|w|]
    ensures s != [] && !IsSpace(s[0]) ==> w != []
  {
    if s == [] || IsSpace(s[0]) then [] else [s[0]] + WordPrefix(s[1..])
  }

  /** The prefix is a whole word: it holds no whitespace and whitespace follows it. */
  lemma {:induction false} WordPrefixIsMaximal(s: string)
    ensures forall k :: 0 <= k < |WordPrefix(s)| ==> !IsSpace(s[k])
    ensures |WordPrefix(s)| < |s| ==> IsSpace(s[|WordPrefix(s)|])
    decreases |s|
  {
    if s != [] && !IsSpace(s[0]) {
      WordPrefixIsMaximal(s[1..]);
    }
  }

  /** `s.split()`: the maximal runs of non-whitespace characters of `s`, in order. */
  function Words(s: string): seq<string>
    decreases |s|
  {
    var t := LStrip(s);
    if t == [] then [] else
      var w := WordPrefix(t);
      [w] + Words(t[|w|..])
  }

  /** A word of `split()`: non-empty and free of whitespace. */
  predicate IsWord(w: string) {
    w != [] && forall k :: 0 <= k < |w| ==> !IsSpace(w[k])
  }

  /** Every piece `split()` returns is a word. */
  lemma {:induction false} WordsAreWords(s: string)
    ensures forall i :: 0 <= i < |Words(s)| ==> IsWord(Words(s)[i])
    decreases |s|
  {
    var t := LStrip(s);
    if t != [] {
      var w := WordPrefix(t);
      var rest := Words(t[|w|..]);
      assert Words(s) == [w] + rest;
      assert IsWord(w) by {
        WordPrefixIsMaximal(t);
      }
      WordsAreWords(t[|w|..]);
      forall i | 0 < i < |Words(s)| ensures IsWord(Words(s)[i]) {
        assert Words(s)[i] == rest[i - 1];
      }
    }
  }

  /** `sep.join(parts)` */
  function Join(sep: string, parts: seq<string>): string {
    if |parts| == 0 then ""
    else if |parts| == 1 then parts[0]
    else parts[0] + sep + Join(sep, parts[1..])
  }

  /** `s.split(sep)` for a one-character separator; never empty. */
  function SplitOn(s: string, sep: char): (parts: seq<string>)
    ensures |parts| >= 1
  {
    if s == [] then [""]
    else
      var rest := SplitOn(s[1..], sep);
      if s[0] == sep then [""] + rest else [[s[0]] + rest[0]] + rest[1..]
  }

  /** The pieces of `s.split(sep)` hold no separator, and joining them with it gives `s` back. */
  lemma {:induction false} SplitThenJoin(s: string, sep: char)
    ensures forall i :: 0 <= i < |SplitOn(s, sep)| ==> sep !in SplitOn(s, sep)[i]
    ensures Join([sep], SplitOn(s, sep)) == s
  {
    if s != [] {
      var rest := SplitOn(s[1..], sep);
      SplitThenJoin(s[1..], sep);
      if s[0] == sep {
        assert ([""] + rest)[1..] == rest;
      } else {
        var r := [[s[0]] + rest[0]] + rest[1..];
        assert r[1..] == rest[1..];
        assert Join([sep], r) == [s[0]] + Join([sep], rest);
      }
    }
  }

  lemma {:induction false} SplitWithoutSeparator(s: string, sep: char)
    requires sep !in s
    ensures SplitOn(s, sep) == [s]
  {
    if s != [] {
      SplitWithoutSeparator(s[1..], sep);
      assert [s[0]] + s[1..] == s;
    }
  }

  /** Splitting around one separator splits each side independently. */
  lemma {:induction false} SplitAround(a: string, b: string, sep: char)
    ensures SplitOn(a + [sep] + b, sep) == SplitOn(a, sep) + SplitOn(b, sep)
  {
    if a == [] {
      assert a + [sep] + b == [sep] + b;
      assert ([sep] + b)[1..] == b;
    } else {
      assert (a + [sep] + b)[1..] == a[1..] + [sep] + b;
      SplitAround(a[1..], b, sep);
    }
  }

  function LowerChar(c: char): char {
    if 'A' <= c <= 'Z' then (c as int - 'A' as int + 'a' as int) as char else c
  }

  /** `s.lower()` on the ASCII letters. */
  function AsciiLower(s: string): (r: string)
    ensures |r| == |s|
  {
    seq(|s|, k requires 0 <= k < |s| => LowerChar(s[k]))
  }

  /** `pattern in s` */
  predicate Contains(s: string, pattern: string)
    decreases |s|
  {
    pattern <= s || (s != [] && Contains(s[1..], pattern))
  }

  /** `a` can be obtained from `b` by deleting elements, so `a` keeps `b`'s order. */
  ghost predicate IsSubsequence<T>(a: seq<T>, b: seq<T>)
    decreases |b|
  {
    if a == [] then true
    else if b == [] then false
    else (a[0] == b[0] && IsSubsequence(a[1..], b[1..])) || IsSubsequence(a, b[1..])
  }

  /** `s[:n]` */
  function Take(s: string, n: nat): (r: string)
    ensures |r| == (if |s| <= n then |s| else n) && r == s[..|r|]
  {
    if |s| <= n then s else s[..n]
  }

  /** Removes every illegal file-name character (the first substitution of `clean_filename`). */
  function DropIllegal(s: string): (r: string)
    ensures forall k :: 0 <= k < |r| ==> !IsIllegalNameChar(r[k])
    ensures (forall k :: 0 <= k < |s| ==> !IsIllegalNameChar(s[k])) ==> r == s
  {
    if s == [] then []
    else (if IsIllegalNameChar(s[0]) then [] else [s[0]]) + DropIllegal(s[1..])
  }

  /** Dropping the illegal characters keeps every other character, as often as it occurs. */
  lemma {:induction false} DropIllegalKeepsTheRest(s: string)
    ensures forall c :: multiset(DropIllegal(s))[c] == if IsIllegalNameChar(c) then 0 else multiset(s)[c]
  {
    if s != [] {
      DropIllegalKeepsTheRest(s[1..]);
      assert s == [s[0]] + s[1..];
    }
  }

  /** ... and keeps them in their order. */
  lemma {:induction false} DropIllegalKeepsOrder(s: string)
    ensures IsSubsequence(DropIllegal(s), s)
  {
    if s != [] {
      DropIllegalKeepsOrder(s[1..]);
      var rest := DropIllegal(s[1..]);
      if IsIllegalNameChar(s[0]) {
        assert DropIllegal(s) == rest;
        assert rest == [] || IsSubsequence(rest, s[1..]);
      } else {
        assert ([s[0]] + rest)[1..] == rest;
        assert IsSubsequence([s[0]] + rest, s);
      }
    }
  }

  /** Replaces every illegal file-name character by a space (the first substitution of `clean_text`). */
  function BlankIllegal(s: string): (r: string)
    ensures |r| == |s|
  {
    seq(|s|, k requires 0 <= k < |s| => if IsIllegalNameChar(s[k]) then ' ' else s[k])
  }

  /** `s.replace(c, '')` */
  function Without(s: string, c: char): (r: string)
    ensures c !in r
    ensures c !in s ==> r == s
  {
    if s == [] then []
    else (if s[0] == c then [] else [s[0]]) + Without(s[1..], c)
  }

  /** Removing `c` keeps every other character, as often as it occurs ... */
  lemma {:induction false} WithoutKeepsTheRest(s: string, c: char)
    ensures forall x :: multiset(Without(s, c))[x] == if x == c then 0 else multiset(s)[x]
  {
    if s != [] {
      WithoutKeepsTheRest(s[1..], c);
      assert s == [s[0]] + s[1..];
    }
  }

  /** ... and in its order. */
  lemma {:induction false} WithoutKeepsOrder(s: string, c: char)
    ensures IsSubsequence(Without(s, c), s)
  {
    if s != [] {
      WithoutKeepsOrder(s[1..], c);
      var rest := Without(s[1..], c);
      if s[0] == c {
        assert Without(s, c) == rest;
        assert rest == [] || IsSubsequence(rest, s[1..]);
      } else {
        assert ([s[0]] + rest)[1..] == rest;
        assert IsSubsequence([s[0]] + rest, s);
      }
    }
  }

  /** `re.sub(r'\s+', rep, s)`: each maximal run of whitespace becomes the one character `rep`. */
  function CollapseSpaces(s: string, rep: char): (r: string)
    ensures s != [] ==> r != [] && (!IsSpace(s[0]) ==> r[0] == s[0])
    decreases |s|
  {
    if s == [] then []
    else if IsSpace(s[0]) then [rep] + CollapseSpaces(LStrip(s), rep)
    else [s[0]] + CollapseSpaces(s[1..], rep)
  }

  /** Every character of `r` is `rep` or a non-whitespace character of `s`. */
  predicate OnlyReplacementOrKept(r: string, s: string, rep: char) {
    forall k :: 0 <= k < |r| ==> r[k] == rep || (!IsSpace(r[k]) && r[k] in s)
  }

  /** `rep` never appears twice in a row in `r`. */
  predicate NoDoubled(r: string, rep: char) {
    forall k :: 0 <= k < |r| - 1 ==> !(r[k] == rep && r[k + 1] == rep)
  }

  /** One step of the substitution: the first character or whitespace run, then the rest. */
  lemma CollapseStep(s: string, rep: char)
    requires s != []
    ensures IsSpace(s[0]) ==> CollapseSpaces(s, rep) == [rep] + CollapseSpaces(LStrip(s), rep)
    ensures !IsSpace(s[0]) ==> CollapseSpaces(s, rep) == [s[0]] + CollapseSpaces(s[1..], rep)
  {
  }

  lemma ConsKeeps(h: char, c: string, rest: string, s: string, rep: char)
    requires h == rep || (!IsSpace(h) && h in s)
    requires OnlyReplacementOrKept(c, rest, rep)
    requires |rest| <= |s| && rest == s[|s| - |rest|..]
    ensures OnlyReplacementOrKept([h] + c, s, rep)
  {
    var r := [h] + c;
    forall k | 0 < k < |r| && r[k] != rep
      ensures !IsSpace(r[k]) && r[k] in s
    {
      assert r[k] == c[k - 1];
      var i :| 0 <= i < |rest| && rest[i] == r[k];
      assert s[|s| - |rest| + i] == r[k];
    }
  }

  lemma ConsNoDoubled(h: char, c: string, rep: char)
    requires NoDoubled(c, rep)
    requires h == rep ==> c == [] || c[0] != rep
    ensures NoDoubled([h] + c, rep)
  {
    var r := [h] + c;
    forall k | 0 < k < |r| - 1
      ensures !(r[k] == rep && r[k + 1] == rep)
    {
      assert r[k] == c[k - 1] && r[k + 1] == c[k];
    }
  }

  /** Every character of the result is the replacement or a non-whitespace character of the input. */
  lemma {:induction false} CollapsedCharacters(s: string, rep: char)
    ensures OnlyReplacementOrKept(CollapseSpaces(s, rep), s, rep)
    decreases |s|
  {
    if s != [] {
      CollapseStep(s, rep);
      if IsSpace(s[0]) {
        CollapsedCharacters(LStrip(s), rep);
        ConsKeeps(rep, CollapseSpaces(LStrip(s), rep), LStrip(s), s, rep);
      } else {
        CollapsedCharacters(s[1..], rep);
        ConsKeeps(s[0], CollapseSpaces(s[1..], rep), s[1..], s, rep);
      }
    }
  }

  /** A whitespace replacement never appears twice in a row. */
  lemma {:induction false} CollapsedHasNoDoubleReplacement(s: string, rep: char)
    requires IsSpace(rep)
    ensures NoDoubled(CollapseSpaces(s, rep), rep)
    decreases |s|
  {
    if s != [] {
      CollapseStep(s, rep);
      if IsSpace(s[0]) {
        var t := LStrip(s);
        CollapsedHasNoDoubleReplacement(t, rep);
        ConsNoDoubled(rep, CollapseSpaces(t, rep), rep);
      } else {
        CollapsedHasNoDoubleReplacement(s[1..], rep);
        ConsNoDoubled(s[0], CollapseSpaces(s[1..], rep), rep);
      }
    }
  }

  /** Text without whitespace comes back unchanged. */
  lemma {:induction false} CollapseKeepsSpaceless(s: string, rep: char)
    requires forall k :: 0 <= k < |s| ==> !IsSpace(s[k])
    ensures CollapseSpaces(s, rep) == s
  {
    if s != [] {
      CollapseKeepsSpaceless(s[1..], rep);
    }
  }

  /**
   * The substitution read word by word: the words of `s` joined by `rep`, with one `rep` for
   * a leading and one for a trailing whitespace run; whitespace alone becomes a single `rep`.
   */
  function RunsReplaced(s: string, rep: char): string {
    if s == [] then []
    else if Words(s) == [] then [rep]
    else
      var inner := Join([rep], Words(s)) + Edge(IsSpace(s[|s| - 1]), rep);
      if IsSpace(s[0]) then [rep] + inner else inner
  }

  /** `rep` for a whitespace run at one end of the text, nothing otherwise. */
  function Edge(run: bool, rep: char): string {
    if run then [rep] else []
  }

  /** A leading run without whitespace passes through the substitution unchanged. */
  lemma {:induction false} CollapseKeepsLeadingWord(w: string, rest: string, rep: char)
    requires forall i :: 0 <= i < |w| ==> !IsSpace(w[i])
    ensures CollapseSpaces(w + rest, rep) == w + CollapseSpaces(rest, rep)
    decreases |w|
  {
    if w == [] {
      assert w + rest == rest;
    } else {
      var s := w + rest;
      assert s[0] == w[0] && s[1..] == w[1..] + rest;
      CollapseStep(s, rep);
      CollapseKeepsLeadingWord(w[1..], rest, rep);
      AppendIsAssociative([w[0]], w[1..], CollapseSpaces(rest, rep));
      assert [w[0]] + w[1..] == w;
    }
  }

  /** Text that `lstrip()` empties ends in whitespace. */
  lemma {:induction false} BlankEndsInSpace(s: string)
    requires s != [] && LStrip(s) == []
    ensures IsSpace(s[|s| - 1])
    decreases |s|
  {
    assert IsSpace(s[0]);
    if |s| > 1 {
      assert LStrip(s[1..]) == [];
      BlankEndsInSpace(s[1..]);
      assert s[1..][|s| - 2] == s[|s| - 1];
    }
  }

  /** Joining a first part to at least one more puts the separator after it. */
  lemma JoinCons(sep: string, w: string, parts: seq<string>)
    requires parts != []
    ensures Join(sep, [w] + parts) == w + sep + Join(sep, parts)
  {
    assert ([w] + parts)[1..] == parts;
  }

  lemma AppendEmpty<T>(a: seq<T>)
    ensures a + [] == a
  {
  }

  lemma AppendIsAssociative<T>(a: seq<T>, b: seq<T>, c: seq<T>)
    ensures a + b + c == a + (b + c)
  {
  }

  /** `split()` ignores leading whitespace and otherwise starts with the leading word. */
  lemma WordsStep(s: string)
    requires s != []
    ensures IsSpace(s[0]) ==> Words(s) == Words(LStrip(s))
    ensures !IsSpace(s[0]) ==> Words(s) == [WordPrefix(s)] + Words(s[|WordPrefix(s)|..])
  {
  }

  /** Text starting with a non-whitespace character has a word. */
  lemma WordsOfWordStart(s: string)
    requires s != [] && !IsSpace(s[0])
    ensures Words(s) != []
  {
    WordsStep(s);
  }

  /** Whitespace alone reads as one `rep`. */
  lemma RunsOfBlank(s: string, rep: char)
    requires s != [] && IsSpace(s[0]) && LStrip(s) == []
    ensures RunsReplaced(s, rep) == [rep] + RunsReplaced(LStrip(s), rep)
  {
    WordsStep(s);
    assert Words(LStrip(s)) == [];
    AppendEmpty([rep]);
  }

  /** Whitespace and then a word reads as one `rep` and then the rest. */
  lemma RunsOfSpaceThenWord(s: string, rep: char)
    requires s != [] && IsSpace(s[0]) && LStrip(s) != []
    ensures RunsReplaced(s, rep) == [rep] + RunsReplaced(LStrip(s), rep)
  {
    var t := LStrip(s);
    WordsStep(s);
    WordsOfWordStart(t);
    assert t[|t| - 1] == s[|s| - 1];
  }

  /** The reference reading of a leading whitespace run: one `rep`, then the rest. */
  lemma RunsAfterSpace(s: string, rep: char)
    requires s != [] && IsSpace(s[0])
    ensures RunsReplaced(s, rep) == [rep] + RunsReplaced(LStrip(s), rep)
  {
    if LStrip(s) == [] {
      RunsOfBlank(s, rep);
    } else {
      RunsOfSpaceThenWord(s, rep);
    }
  }

  /** The reference reading of a word followed by whitespace only. */
  lemma RunsOfLastWord(s: string, rep: char)
    requires s != [] && !IsSpace(s[0])
    requires Words(s) == [WordPrefix(s)]
    ensures RunsReplaced(s, rep) == WordPrefix(s) + Edge(IsSpace(s[|s| - 1]), rep)
  {
    WordsOfWordStart(s);
  }

  /** A text that is one word reads as that word. */
  lemma RunsOfWholeWord(s: string, rep: char)
    requires s != [] && !IsSpace(s[0]) && |WordPrefix(s)| == |s|
    ensures RunsReplaced(s, rep) == WordPrefix(s) + RunsReplaced(s[|WordPrefix(s)|..], rep)
  {
    var w := WordPrefix(s);
    WordPrefixIsMaximal(s);
    WordsStep(s);
    assert w == s && s[|w|..] == [];
    assert [w] + Words(s[|w|..]) == [w];
    RunsOfLastWord(s, rep);
    AppendEmpty(w);
  }

  /** A word and then whitespace only reads as the word and one `rep`. */
  lemma RunsOfWordThenBlank(s: string, rep: char)
    requires s != [] && !IsSpace(s[0]) && |WordPrefix(s)| < |s|
    requires Words(s[|WordPrefix(s)|..]) == []
    ensures RunsReplaced(s, rep) == WordPrefix(s) + RunsReplaced(s[|WordPrefix(s)|..], rep)
  {
    var w := WordPrefix(s);
    var rest := s[|w|..];
    WordPrefixIsMaximal(s);
    WordsStep(s);
    assert rest[|rest| - 1] == s[|s| - 1];
    BlankEndsInSpace(rest);
    assert [w] + Words(rest) == [w];
    RunsOfLastWord(s, rep);
  }

  /** A word and then more words reads as the word, one `rep`, and the rest. */
  lemma RunsOfWordThenMore(s: string, rep: char)
    requires s != [] && !IsSpace(s[0]) && |WordPrefix(s)| < |s|
    requires Words(s[|WordPrefix(s)|..]) != []
    ensures RunsReplaced(s, rep) == WordPrefix(s) + RunsReplaced(s[|WordPrefix(s)|..], rep)
  {
    var w := WordPrefix(s);
    var rest := s[|w|..];
    WordPrefixIsMaximal(s);
    WordsStep(s);
    assert rest[|rest| - 1] == s[|s| - 1];
    var trail := Edge(IsSpace(s[|s| - 1]), rep);
    WordsOfWordStart(s);
    JoinCons([rep], w, Words(rest));
    AppendIsAssociative(w + [rep], Join([rep], Words(rest)), trail);
    AppendIsAssociative(w, [rep], Join([rep], Words(rest)) + trail);
  }

  /** The reference reading of a leading word: the word, then the rest. */
  lemma RunsAfterWord(s: string, rep: char)
    requires s != [] && !IsSpace(s[0])
    ensures RunsReplaced(s, rep) == WordPrefix(s) + RunsReplaced(s[|WordPrefix(s)|..], rep)
  {
    if |WordPrefix(s)| == |s| {
      RunsOfWholeWord(s, rep);
    } else if Words(s[|WordPrefix(s)|..]) == [] {
      RunsOfWordThenBlank(s, rep);
    } else {
      RunsOfWordThenMore(s, rep);
    }
  }

  /**
   * `re.sub(r'\s+', rep, s)` word by word: the characters of every word are kept in order and
   * every whitespace run, inner or at either end, becomes exactly one `rep`.
   */
  lemma {:induction false} CollapseIsRunsReplaced(s: string, rep: char)
    ensures CollapseSpaces(s, rep) == RunsReplaced(s, rep)
    decreases |s|
  {
    if s == [] {
    } else if IsSpace(s[0]) {
      CollapseStep(s, rep);
      CollapseIsRunsReplaced(LStrip(s), rep);
      RunsAfterSpace(s, rep);
    } else {
      var w := WordPrefix(s);
      var rest := s[|w|..];
      WordPrefixIsMaximal(s);
      assert s == w + rest;
      CollapseKeepsLeadingWord(w, rest, rep);
      CollapseIsRunsReplaced(rest, rep);
      RunsAfterWord(s, rep);
    }
  }

  function DigitChar(d: nat): char
    requires d < 10
  {
    ('0' as int + d) as char
  }

  /** `str(n)` for a natural number: its decimal digits. */
  function NatToString(n: nat): (r: string)
    ensures |r| >= 1 && forall k :: 0 <= k < |r| ==> IsDigit(r[k])
  {
    if n < 10 then [DigitChar(n)] else NatToString(n / 10) + [DigitChar(n % 10)]
  }

  /** `str(i)` for an integer: a minus sign for negatives, then the digits. */
  function IntToString(i: int): string {
    if i < 0 then "-" + NatToString(-i) else NatToString(i)
  }

  /** The base-10 value of a run of digits, underscores skipped. */
  function DigitsValue(s: string): nat {
    if s == [] then 0
    else
      var last := s[|s| - 1];
      if IsDigit(last) then 10 * DigitsValue(s[..|s| - 1]) + (last as int - '0' as int)
      else DigitsValue(s[..|s| - 1])
  }

  /** The digits `int()` accepts in base 10: digits, with single underscores between them. */
  predicate IsDigitBody(b: string) {
    && |b| > 0 && IsDigit(b[0]) && IsDigit(b[|b| - 1])
    && (forall k :: 0 <= k < |b| ==> IsDigit(b[k]) || b[k] == '_')
    && (forall k :: 0 <= k < |b| - 1 ==> b[k] == '_' ==> b[k + 1] != '_')
  }

  /** `int(s)` in base 10: optional surrounding whitespace, an optional sign, a digit body; `None` where `int` raises. */
  function ParseInt(s: string): Option<int> {
    var t := Strip(s);
    if t != [] && (t[0] == '+' || t[0] == '-') then
      if IsDigitBody(t[1..]) then
        var v: int := DigitsValue(t[1..]);
        Some(if t[0] == '-' then -v else v)
      else None
    else if IsDigitBody(t) then Some(DigitsValue(t))
    else None
  }

  lemma {:induction false} DigitsValueOfNatToString(n: nat)
    ensures DigitsValue(NatToString(n)) == n
  {
    if n >= 10 {
      var s := NatToString(n);
      assert s[..|s| - 1] == NatToString(n / 10);
      DigitsValueOfNatToString(n / 10);
    }
  }

  lemma NatToStringInjective(a: nat, b: nat)
    requires NatToString(a) == NatToString(b)
    ensures a == b
  {
    DigitsValueOfNatToString(a);
    DigitsValueOfNatToString(b);
  }

  lemma NatToStringIsDigitBody(n: nat)
    ensures IsDigitBody(NatToString(n))
  {
    var d := NatToString(n);
    assert forall k :: 0 <= k < |d| ==> IsDigit(d[k]);
  }

  lemma ParseIntOfDigitBody(d: string)
    requires IsDigitBody(d)
    ensures ParseInt(d) == Some(DigitsValue(d))
  {
    assert !IsSpace(d[0]) && !IsSpace(d[|d| - 1]);
    assert Strip(d) == d;
  }

  lemma ParseIntOfNegatedDigitBody(d: string)
    requires IsDigitBody(d)
    ensures ParseInt("-" + d) == Some(-(DigitsValue(d) as int))
  {
    var m := "-" + d;
    assert m[1..] == d;
    assert m[0] == '-' && m[|m| - 1] == d[|d| - 1];
    assert !IsSpace(m[0]) && !IsSpace(m[|m| - 1]);
    assert Strip(m) == m;
  }

  /** `int(str(i)) == i`: printing an integer and parsing it back gives the integer. */
  lemma ParseIntOfIntToString(i: int)
    ensures ParseInt(IntToString(i)) == Some(i)
  {
    var n: nat := if i < 0 then -i else i;
    DigitsValueOfNatToString(n);
    NatToStringIsDigitBody(n);
    if i < 0 {
      ParseIntOfNegatedDigitBody(NatToString(n));
    } else {
      ParseIntOfDigitBody(NatToString(n));
    }
  }
}
