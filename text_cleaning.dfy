/** The Cleaner's text normaliser, `clean_amharic_text`.

    After the markup step, the function is a fixed chain of four regular
    expression substitutions. Three of them delete every character of a
    class (a `Filter`); one replaces each whitespace run by a single space
    and trims the ends. */
module TextCleaning {
  import opened CharClasses

  // ---------------------------------------------------------------------
  // Deleting the characters of a class
  // ---------------------------------------------------------------------

  /** The characters of `s` that `keep` accepts, in their original order:
      what `re.sub` over a one-character class with an empty replacement
      leaves. */
  function Filter(s: string, keep: char -> bool): (r: string)
    ensures |r| <= |s|
    ensures forall c :: c in r ==> c in s && keep(c)
  {
    if s == [] then []
    else (if keep(s[0]) then [s[0]] else []) + Filter(s[1..], keep)
  }

  lemma {:induction false} FilterAppend(a: string, b: string, keep: char -> bool)
    ensures Filter(a + b, keep) == Filter(a, keep) + Filter(b, keep)
  {
    if a == [] {
      assert a + b == b;
    } else {
      assert (a + b)[1..] == a[1..] + b;
      FilterAppend(a[1..], b, keep);
    }
  }

  /** Filtering twice is filtering once by both tests. */
  lemma {:induction false} FilterFusion(s: string, p: char -> bool, q: char -> bool, both: char -> bool)
    requires forall c :: both(c) == (p(c) && q(c))
    ensures Filter(Filter(s, p), q) == Filter(s, both)
  {
    if s != [] {
      FilterFusion(s[1..], p, q, both);
      var head := if p(s[0]) then [s[0]] else [];
      FilterAppend(head, Filter(s[1..], p), q);
      if p(s[0]) {
        assert [s[0]][1..] == [];
      }
    }
  }

  /** A filter that rejects every character of `s` leaves nothing. */
  lemma FilterNothing(s: string, keep: char -> bool)
    requires forall i :: 0 <= i < |s| ==> !keep(s[i])
    ensures Filter(s, keep) == []
  {
  }

  /** A filter that accepts every character of `s` leaves it as it is. */
  lemma {:induction false} FilterEverything(s: string, keep: char -> bool)
    requires forall i :: 0 <= i < |s| ==> keep(s[i])
    ensures Filter(s, keep) == s
  {
    if s != [] {
      FilterEverything(s[1..], keep);
    }
  }

  /** Every character of `s` that `keep` accepts is kept. */
  lemma {:induction false} FilterKeeps(s: string, keep: char -> bool)
    ensures forall c :: c in s && keep(c) ==> c in Filter(s, keep)
  {
    if s != [] {
      FilterKeeps(s[1..], keep);
      assert forall c :: c in s ==> c == s[0] || c in s[1..];
    }
  }

  /** The characters of `s` that are not whitespace, in order. */
  function NonSpace(cls: Classes, s: string): string
  {
    Filter(s, c => !cls.isSpace(c))
  }

  // ---------------------------------------------------------------------
  // The four substitutions
  // ---------------------------------------------------------------------

  /** `re.sub(r'[^\w\s]', '', text)`: keep word characters and whitespace. */
  function RemoveSpecial(cls: Classes, s: string): string
  {
    Filter(s, c => cls.isWord(c) || cls.isSpace(c))
  }

  /** The character class of the second substitution, member by member,
      grouped by script. In the pattern `\\` is the backslash and is
      followed by a literal `|`; the semicolon is listed there twice. */
  const AsciiMarks: set<char> := {
    '!', '@', '#', '$', '%', '^', '&', '*', '(', ')', '[', ']', '{', '}',
    ';', '"', '\'', ':', ',', '.', '/', '<', '>', '?', '\\', '|', '`',
    '~', '-', '=', '+'
  }

  const TypographicMarks: set<char> := {
    '«', '»', '…', '“', '”', '›', '’', '‘', '‹', '´'
  }

  /** Ethiopic wordspace, full stop, comma, semicolon, colon, preface colon,
      question mark, paragraph separator and section mark. */
  const EthiopicMarks: set<char> := {
    '፡', '።', '፤', '፦', '፥', '፧', '፨', '፠', '፣'
  }

  const Punctuation: set<char> := AsciiMarks + TypographicMarks + EthiopicMarks

  /** No ASCII letter or digit, no underscore, no Ethiopic syllable and
      none of space, tab, newline and carriage return is one of the marks. */
  lemma NotPunctuation(c: char)
    requires IsAsciiAlnum(c) || c == '_' || 'ሀ' <= c <= 'ፚ' || c in " \t\n\r"
    ensures c !in Punctuation
  {
    NotAsciiMark(c);
    NotTypographicMark(c);
    NotEthiopicMark(c);
  }

  lemma NotAsciiMark(c: char)
    requires IsAsciiAlnum(c) || c == '_' || 'ሀ' <= c <= 'ፚ' || c in " \t\n\r"
    ensures c !in AsciiMarks
  {
  }

  lemma NotTypographicMark(c: char)
    requires IsAsciiAlnum(c) || c == '_' || 'ሀ' <= c <= 'ፚ' || c in " \t\n\r"
    ensures c !in TypographicMarks
  {
  }

  lemma NotEthiopicMark(c: char)
    requires IsAsciiAlnum(c) || c == '_' || 'ሀ' <= c <= 'ፚ' || c in " \t\n\r"
    ensures c !in EthiopicMarks
  {
  }

  /** The second substitution: delete every character of `Punctuation`. */
  function RemovePunctuation(s: string): string
  {
    Filter(s, c => c !in Punctuation)
  }

  /** `str.lstrip()`: drop the leading whitespace run. */
  function SkipSpaces(cls: Classes, s: string): (r: string)
    ensures |r| <= |s| && r == s[|s| - |r|..]
    ensures forall i :: 0 <= i < |s| - |r| ==> cls.isSpace(s[i])
    ensures r == [] || !cls.isSpace(r[0])
  {
    if s != [] && cls.isSpace(s[0]) then
      var r := SkipSpaces(cls, s[1..]);
      assert s[1..][|s| - 1 - |r|..] == s[|s| - |r|..];
      r
    else s
  }

  /** `str.rstrip()`: drop the trailing whitespace run. */
  function TrimEnd(cls: Classes, s: string): (r: string)
    ensures |r| <= |s| && r == s[..|r|]
    ensures forall i :: |r| <= i < |s| ==> cls.isSpace(s[i])
    ensures r == [] || !cls.isSpace(r[|r| - 1])
  {
    if s != [] && cls.isSpace(s[|s| - 1]) then
      var r := TrimEnd(cls, s[..|s| - 1]);
      assert s[..|s| - 1][..|r|] == s[..|r|];
      r
    else s
  }

  /** `str.strip()`. Python decides it with the same whitespace table as
      `\s`, so the same `isSpace` is used. */
  function Strip(cls: Classes, s: string): string
  {
    TrimEnd(cls, SkipSpaces(cls, s))
  }

  /** `re.sub(r'\s+', ' ', text)`: every maximal whitespace run becomes one
      plain space; every other character is kept. */
  function CollapseWhitespace(cls: Classes, s: string): (r: string)
    ensures |r| <= |s|
    decreases |s|
  {
    if s == [] then []
    else if cls.isSpace(s[0]) then [' '] + CollapseWhitespace(cls, SkipSpaces(cls, s[1..]))
    else [s[0]] + CollapseWhitespace(cls, s[1..])
  }

  /** Collapsing adds no character except the plain space, and keeps no
      whitespace character other than it. */
  lemma {:induction false} CollapseKeeps(cls: Classes, s: string)
    ensures forall c :: c in CollapseWhitespace(cls, s) ==> c == ' ' || (c in s && !cls.isSpace(c))
    decreases |s|
  {
    if s != [] {
      if cls.isSpace(s[0]) {
        CollapseKeeps(cls, SkipSpaces(cls, s[1..]));
        SkipSpacesKeeps(cls, s[1..]);
      } else {
        CollapseKeeps(cls, s[1..]);
      }
      assert forall c :: c in s[1..] ==> c in s;
    }
  }

  /** The whole third step: `re.sub(r'\s+', ' ', text).strip()`. */
  function SquashWhitespace(cls: Classes, s: string): string
  {
    Strip(cls, CollapseWhitespace(cls, s))
  }

  /** The fourth substitution, `re.sub('[A-Za-z0-9]', '', text)`. */
  function RemoveAsciiAlnum(s: string): string
  {
    Filter(s, c => !IsAsciiAlnum(c))
  }

  /** The last step works character by character, so it splits over a
      concatenation. */
  lemma RemoveAsciiAlnumAppend(a: string, b: string)
    ensures RemoveAsciiAlnum(a + b) == RemoveAsciiAlnum(a) + RemoveAsciiAlnum(b)
  {
    FilterAppend(a, b, c => !IsAsciiAlnum(c));
  }

  /** `clean_amharic_text` after the markup step: the four substitutions in
      source order, applied to the text the markup parser returned. */
  function Normalise(cls: Classes, text: string): string
  {
    RemoveAsciiAlnum(SquashWhitespace(cls, RemovePunctuation(RemoveSpecial(cls, text))))
  }

  /** `clean_amharic_text`: the markup parser (BeautifulSoup's
      `get_text(strip=True)`, not part of this model) is the parameter
      `getText`; its result goes through `Normalise`. */
  function CleanAmharicText(cls: Classes, getText: string -> string, text: string): string
  {
    Normalise(cls, getText(text))
  }

  /** A character of the markup-stripped text that reaches the output:
      a word character, not whitespace, not in the punctuation list, and not
      an ASCII letter or digit. */
  predicate Survives(cls: Classes, c: char)
  {
    cls.isWord(c) && !cls.isSpace(c) && c !in Punctuation && !IsAsciiAlnum(c)
  }

  /** Whitespace as `re.sub(r'\s+', ' ', ...)` leaves it: every whitespace
      character is a plain space and no two whitespace characters are
      adjacent. */
  ghost predicate Separated(cls: Classes, t: string)
  {
    && (forall i :: 0 <= i < |t| && cls.isSpace(t[i]) ==> t[i] == ' ')
    && (forall i :: 0 <= i < |t| - 1 && cls.isSpace(t[i]) ==> !cls.isSpace(t[i + 1]))
  }

  /** Whitespace as the whole third step leaves it: separated, and no
      whitespace at either end. */
  ghost predicate WhitespaceNormal(cls: Classes, t: string)
  {
    && Separated(cls, t)
    && (t == [] || (!cls.isSpace(t[0]) && !cls.isSpace(t[|t| - 1])))
  }

  // ---------------------------------------------------------------------
  // The whitespace step
  // ---------------------------------------------------------------------

  lemma {:induction false} SkipSpacesKeeps(cls: Classes, s: string)
    ensures forall c :: c in SkipSpaces(cls, s) ==> c in s
    ensures NonSpace(cls, SkipSpaces(cls, s)) == NonSpace(cls, s)
  {
    if s != [] && cls.isSpace(s[0]) {
      SkipSpacesKeeps(cls, s[1..]);
    }
  }

  lemma {:induction false} TrimEndKeeps(cls: Classes, s: string)
    ensures forall c :: c in TrimEnd(cls, s) ==> c in s
    ensures NonSpace(cls, TrimEnd(cls, s)) == NonSpace(cls, s)
  {
    if s != [] && cls.isSpace(s[|s| - 1]) {
      var init := s[..|s| - 1];
      TrimEndKeeps(cls, init);
      assert s == init + [s[|s| - 1]];
      FilterAppend(init, [s[|s| - 1]], c => !cls.isSpace(c));
    }
  }

  /** Stripping only removes whitespace, and only from the ends. */
  lemma StripKeeps(cls: Classes, s: string)
    ensures |Strip(cls, s)| <= |s|
    ensures forall c :: c in Strip(cls, s) ==> c in s
    ensures NonSpace(cls, Strip(cls, s)) == NonSpace(cls, s)
  {
    SkipSpacesKeeps(cls, s);
    TrimEndKeeps(cls, SkipSpaces(cls, s));
  }

  /** A string that starts with a non-space character collapses to one that
      starts with that character. */
  lemma CollapseHead(cls: Classes, s: string)
    requires s != [] && !cls.isSpace(s[0])
    ensures CollapseWhitespace(cls, s) != [] && CollapseWhitespace(cls, s)[0] == s[0]
  {
  }

  /** Collapsing keeps every non-whitespace character, in order. */
  lemma {:induction false} CollapseNonSpace(cls: Classes, s: string)
    requires cls.isSpace(' ')
    ensures NonSpace(cls, CollapseWhitespace(cls, s)) == NonSpace(cls, s)
    decreases |s|
  {
    var keep := c => !cls.isSpace(c);
    if s != [] {
      if cls.isSpace(s[0]) {
        var rest := SkipSpaces(cls, s[1..]);
        CollapseNonSpace(cls, rest);
        SkipSpacesKeeps(cls, s[1..]);
        FilterAppend([' '], CollapseWhitespace(cls, rest), keep);
      } else {
        CollapseNonSpace(cls, s[1..]);
        FilterAppend([s[0]], CollapseWhitespace(cls, s[1..]), keep);
      }
    }
  }

  /** After collapsing, the whitespace is separated. */
  lemma {:induction false} CollapseSeparated(cls: Classes, s: string)
    ensures Separated(cls, CollapseWhitespace(cls, s))
    decreases |s|
  {
    if s != [] {
      var rest := if cls.isSpace(s[0]) then SkipSpaces(cls, s[1..]) else s[1..];
      CollapseSeparated(cls, rest);
      var u := CollapseWhitespace(cls, rest);
      if cls.isSpace(s[0]) {
        if rest != [] {
          CollapseHead(cls, rest);
        }
        SeparatedCons(cls, ' ', u);
      } else {
        SeparatedCons(cls, s[0], u);
      }
    }
  }

  /** One character in front of separated text keeps it separated, unless
      it is whitespace other than ' ' or whitespace before whitespace. */
  lemma SeparatedCons(cls: Classes, x: char, u: string)
    requires Separated(cls, u)
    requires cls.isSpace(x) ==> x == ' ' && (u == [] || !cls.isSpace(u[0]))
    ensures Separated(cls, [x] + u)
  {
    var t := [x] + u;
    assert forall i :: 0 < i < |t| ==> t[i] == u[i - 1];
  }

  lemma SeparatedSuffix(cls: Classes, t: string, lo: nat)
    requires Separated(cls, t) && lo <= |t|
    ensures Separated(cls, t[lo..])
  {
    var w := t[lo..];
    assert forall i :: 0 <= i < |w| ==> w[i] == t[lo + i];
  }

  lemma SeparatedPrefix(cls: Classes, t: string, hi: nat)
    requires Separated(cls, t) && hi <= |t|
    ensures Separated(cls, t[..hi])
  {
    var w := t[..hi];
    assert forall i :: 0 <= i < |w| ==> w[i] == t[i];
  }

  /** Stripping separated text leaves it whitespace-normal. */
  lemma StripNormal(cls: Classes, t: string)
    requires Separated(cls, t)
    ensures WhitespaceNormal(cls, Strip(cls, t))
  {
    var u := SkipSpaces(cls, t);
    SeparatedSuffix(cls, t, |t| - |u|);
    var r := TrimEnd(cls, u);
    SeparatedPrefix(cls, u, |r|);
    assert r == [] || r[0] == u[0];
  }

  /** The text produced by the third step is whitespace-normal, whatever the
      step is given. */
  lemma SquashNormal(cls: Classes, s: string)
    ensures WhitespaceNormal(cls, SquashWhitespace(cls, s))
  {
    CollapseSeparated(cls, s);
    StripNormal(cls, CollapseWhitespace(cls, s));
  }

  /** The third step only rewrites whitespace: the non-whitespace
      characters go through unchanged and in order. */
  lemma SquashNonSpace(cls: Classes, s: string)
    requires cls.isSpace(' ')
    ensures NonSpace(cls, SquashWhitespace(cls, s)) == NonSpace(cls, s)
  {
    StripKeeps(cls, CollapseWhitespace(cls, s));
    CollapseNonSpace(cls, s);
  }

  /** Collapsing leaves separated text as it is. */
  lemma {:induction false} CollapseOfSeparated(cls: Classes, t: string)
    requires Separated(cls, t)
    ensures CollapseWhitespace(cls, t) == t
    decreases |t|
  {
    if t != [] {
      var rest := t[1..];
      SeparatedSuffix(cls, t, 1);
      CollapseOfSeparated(cls, rest);
      assert t == [t[0]] + rest;
      if cls.isSpace(t[0]) {
        assert t[0] == ' ';
        if rest != [] {
          assert rest[0] == t[1];
        }
        assert SkipSpaces(cls, rest) == rest;
      }
    }
  }

  /** Whitespace-normal text goes through the third step unchanged. */
  lemma SquashOfNormal(cls: Classes, t: string)
    requires WhitespaceNormal(cls, t)
    ensures SquashWhitespace(cls, t) == t
  {
    CollapseOfSeparated(cls, t);
  }

  /** The third step is idempotent: its output is a fixed point. */
  lemma SquashIdempotent(cls: Classes, s: string)
    ensures SquashWhitespace(cls, SquashWhitespace(cls, s)) == SquashWhitespace(cls, s)
  {
    SquashNormal(cls, s);
    SquashOfNormal(cls, SquashWhitespace(cls, s));
  }

  // ---------------------------------------------------------------------
  // Where the spaces go
  // ---------------------------------------------------------------------

  /** `lstrip` removes exactly a leading whitespace run. */
  lemma {:induction false} SkipSpacesRun(cls: Classes, w: string, b: string)
    requires forall i :: 0 <= i < |w| ==> cls.isSpace(w[i])
    requires b == [] || !cls.isSpace(b[0])
    ensures SkipSpaces(cls, w + b) == b
  {
    if w == [] {
      assert w + b == b;
    } else {
      assert (w + b)[1..] == w[1..] + b;
      SkipSpacesRun(cls, w[1..], b);
    }
  }

  /** Text that ends with a non-whitespace character shields what follows
      it from `lstrip`. */
  lemma {:induction false} SkipSpacesAppend(cls: Classes, a: string, b: string)
    requires a != [] && !cls.isSpace(a[|a| - 1])
    ensures SkipSpaces(cls, a + b) == SkipSpaces(cls, a) + b
  {
    assert (a + b)[0] == a[0];
    if cls.isSpace(a[0]) {
      assert (a + b)[1..] == a[1..] + b;
      SkipSpacesAppend(cls, a[1..], b);
    }
  }

  /** A whitespace run followed by a non-whitespace character (or by
      nothing) collapses to exactly one plain space. */
  lemma CollapseRun(cls: Classes, w: string, b: string)
    requires w != [] && forall i :: 0 <= i < |w| ==> cls.isSpace(w[i])
    requires b == [] || !cls.isSpace(b[0])
    ensures CollapseWhitespace(cls, w + b) == [' '] + CollapseWhitespace(cls, b)
  {
    assert (w + b)[0] == w[0];
    assert (w + b)[1..] == w[1..] + b;
    SkipSpacesRun(cls, w[1..], b);
  }

  /** Collapsing works run by run: text that ends with a non-whitespace
      character collapses independently of what follows it. */
  lemma {:induction false} CollapseAppend(cls: Classes, a: string, b: string)
    requires a == [] || !cls.isSpace(a[|a| - 1])
    ensures CollapseWhitespace(cls, a + b) == CollapseWhitespace(cls, a) + CollapseWhitespace(cls, b)
    decreases |a|, 1
  {
    if a == [] {
      assert a + b == b;
    } else if cls.isSpace(a[0]) {
      CollapseAppendRun(cls, a, b);
    } else {
      var ab := a + b;
      assert ab[0] == a[0];
      assert ab[1..] == a[1..] + b;
      CollapseAppend(cls, a[1..], b);
      calc {
        CollapseWhitespace(cls, ab);
        [a[0]] + CollapseWhitespace(cls, a[1..] + b);
        [a[0]] + (CollapseWhitespace(cls, a[1..]) + CollapseWhitespace(cls, b));
        ([a[0]] + CollapseWhitespace(cls, a[1..])) + CollapseWhitespace(cls, b);
      }
    }
  }

  /** The case of `CollapseAppend` where `a` starts with whitespace. */
  lemma {:induction false} CollapseAppendRun(cls: Classes, a: string, b: string)
    requires a != [] && cls.isSpace(a[0]) && !cls.isSpace(a[|a| - 1])
    ensures CollapseWhitespace(cls, a + b) == CollapseWhitespace(cls, a) + CollapseWhitespace(cls, b)
    decreases |a|, 0
  {
    var ab := a + b;
    var tail := a[1..];
    assert ab[0] == a[0];
    assert ab[1..] == tail + b;
    assert tail[|tail| - 1] == a[|a| - 1];
    SkipSpacesAppend(cls, tail, b);
    var r := SkipSpaces(cls, tail);
    assert r != [] && r[|r| - 1] == tail[|tail| - 1];
    CollapseAppend(cls, r, b);
    calc {
      CollapseWhitespace(cls, ab);
      [' '] + CollapseWhitespace(cls, SkipSpaces(cls, tail + b));
      [' '] + CollapseWhitespace(cls, r + b);
      [' '] + (CollapseWhitespace(cls, r) + CollapseWhitespace(cls, b));
      ([' '] + CollapseWhitespace(cls, r)) + CollapseWhitespace(cls, b);
    }
  }

  /** Three whitespace runs in a row are one whitespace run. */
  lemma SpaceRunJoin(cls: Classes, s: string, w: string, t: string)
    requires forall i :: 0 <= i < |s| ==> cls.isSpace(s[i])
    requires forall i :: 0 <= i < |w| ==> cls.isSpace(w[i])
    requires forall i :: 0 <= i < |t| ==> cls.isSpace(t[i])
    ensures forall i :: 0 <= i < |s + w + t| ==> cls.isSpace((s + w + t)[i])
  {
    var run := s + w + t;
    forall i | 0 <= i < |run| ensures cls.isSpace(run[i]) {
      if i < |s| {
        assert run[i] == s[i];
      } else if i < |s| + |w| {
        assert run[i] == w[i - |s|];
      } else {
        assert run[i] == t[i - |s| - |w|];
      }
    }
  }

  /** A whitespace run between a text that ends with a non-whitespace
      character and one that starts with one becomes one plain space. */
  lemma CollapseBetween(cls: Classes, p: string, run: string, q: string)
    requires p == [] || !cls.isSpace(p[|p| - 1])
    requires run != [] && forall i :: 0 <= i < |run| ==> cls.isSpace(run[i])
    requires q == [] || !cls.isSpace(q[0])
    ensures CollapseWhitespace(cls, p + (run + q))
      == CollapseWhitespace(cls, p) + ([' '] + CollapseWhitespace(cls, q))
  {
    CollapseRun(cls, run, q);
    CollapseAppend(cls, p, run + q);
  }

  /** A text is its `rstrip` followed by a whitespace run. */
  lemma TrimEndSplit(cls: Classes, x: string, s: string)
    requires s == x[|TrimEnd(cls, x)|..]
    ensures x == TrimEnd(cls, x) + s
    ensures forall i :: 0 <= i < |s| ==> cls.isSpace(s[i])
  {
    assert forall i :: 0 <= i < |s| ==> s[i] == x[|TrimEnd(cls, x)| + i];
  }

  /** A text is a whitespace run followed by its `lstrip`. */
  lemma SkipSpacesSplit(cls: Classes, y: string, t: string)
    requires t == y[..|y| - |SkipSpaces(cls, y)|]
    ensures y == t + SkipSpaces(cls, y)
    ensures forall i :: 0 <= i < |t| ==> cls.isSpace(t[i])
  {
    assert forall i :: 0 <= i < |t| ==> t[i] == y[i];
  }

  /** Regrouping a text around a whitespace run into edge-trimmed parts. */
  lemma Regroup(p: string, s: string, w: string, t: string, q: string)
    ensures (p + s) + w + (t + q) == p + ((s + w + t) + q)
  {
  }

  /** A whitespace run between two texts becomes one plain space between
      their collapsed forms, with their own edge whitespace merged into it. */
  lemma CollapseAround(cls: Classes, x: string, w: string, y: string)
    requires w != [] && forall i :: 0 <= i < |w| ==> cls.isSpace(w[i])
    ensures CollapseWhitespace(cls, x + w + y)
      == CollapseWhitespace(cls, TrimEnd(cls, x)) + ([' '] + CollapseWhitespace(cls, SkipSpaces(cls, y)))
  {
    var x' := TrimEnd(cls, x);
    var y' := SkipSpaces(cls, y);
    var s := x[|x'|..];
    var t := y[..|y| - |y'|];
    TrimEndSplit(cls, x, s);
    SkipSpacesSplit(cls, y, t);
    SpaceRunJoin(cls, s, w, t);
    Regroup(x', s, w, t, y');
    CollapseBetween(cls, x', s + w + t, y');
  }

  /** The first two steps keep a run of unlisted whitespace and work on the
      text around it separately. */
  lemma FirstStepsAround(cls: Classes, x: string, w: string, y: string)
    requires forall i :: 0 <= i < |w| ==> cls.isSpace(w[i]) && w[i] !in Punctuation
    ensures RemovePunctuation(RemoveSpecial(cls, x + w + y))
      == RemovePunctuation(RemoveSpecial(cls, x)) + w + RemovePunctuation(RemoveSpecial(cls, y))
  {
    var special := c => cls.isWord(c) || cls.isSpace(c);
    var unlisted := c => c !in Punctuation;
    FilterAppend(x + w, y, special);
    FilterAppend(x, w, special);
    FilterEverything(w, special);
    var x1 := RemoveSpecial(cls, x);
    var y1 := RemoveSpecial(cls, y);
    FilterAppend(x1 + w, y1, unlisted);
    FilterAppend(x1, w, unlisted);
    FilterEverything(w, unlisted);
  }

  /** Only the position of a whitespace run matters, not its length or its
      characters: `re.sub(r'\s+', ' ', ...)` turns any run of unlisted
      whitespace into the same single space. */
  lemma NormaliseRunInvariant(cls: Classes, x: string, w1: string, w2: string, y: string)
    requires w1 != [] && forall i :: 0 <= i < |w1| ==> cls.isSpace(w1[i]) && w1[i] !in Punctuation
    requires w2 != [] && forall i :: 0 <= i < |w2| ==> cls.isSpace(w2[i]) && w2[i] !in Punctuation
    ensures Normalise(cls, x + w1 + y) == Normalise(cls, x + w2 + y)
  {
    var x1 := RemovePunctuation(RemoveSpecial(cls, x));
    var y1 := RemovePunctuation(RemoveSpecial(cls, y));
    FirstStepsAround(cls, x, w1, y);
    FirstStepsAround(cls, x, w2, y);
    CollapseAround(cls, x1, w1, y1);
    CollapseAround(cls, x1, w2, y1);
  }

  // ---------------------------------------------------------------------
  // Properties of the whole normaliser
  // ---------------------------------------------------------------------

  /** The output is never longer than the markup-stripped input. */
  lemma NormaliseLength(cls: Classes, text: string)
    ensures |Normalise(cls, text)| <= |text|
  {
    var t := RemovePunctuation(RemoveSpecial(cls, text));
    StripKeeps(cls, CollapseWhitespace(cls, t));
  }

  /** No ASCII letter or digit, no listed punctuation mark, and nothing but
      word characters and the plain space survive. */
  lemma NormaliseAlphabet(cls: Classes, text: string)
    ensures forall c :: c in Normalise(cls, text) ==> !IsAsciiAlnum(c) && c !in Punctuation
    ensures forall c :: c in Normalise(cls, text) ==> c == ' ' || (cls.isWord(c) && !cls.isSpace(c))
  {
    var a := RemoveSpecial(cls, text);
    var b := RemovePunctuation(a);
    var t := CollapseWhitespace(cls, b);
    var sq := Strip(cls, t);
    var r := RemoveAsciiAlnum(sq);
    assert r == Normalise(cls, text);
    CollapseKeeps(cls, b);
    StripKeeps(cls, t);
    NotPunctuation(' ');
  }

  /** Under the Unicode facts, the only whitespace in the output is the
      plain space: tab, newline and carriage return never survive. */
  lemma NormaliseOnlyPlainSpace(cls: Classes, text: string)
    requires cls.Valid()
    ensures forall c :: c in Normalise(cls, text) && cls.isSpace(c) ==> c == ' '
    ensures '\t' !in Normalise(cls, text) && '\n' !in Normalise(cls, text) && '\r' !in Normalise(cls, text)
  {
    NormaliseAlphabet(cls, text);
  }

  /** The non-whitespace characters of the output are exactly the surviving
      characters of the input, in their original order. */
  lemma NormaliseKeepsOrder(cls: Classes, text: string)
    requires cls.isSpace(' ')
    ensures NonSpace(cls, Normalise(cls, text)) == Filter(text, c => Survives(cls, c))
  {
    var notSpace := c => !cls.isSpace(c);
    var notAlnum := c => !IsAsciiAlnum(c);
    var special := c => cls.isWord(c) || cls.isSpace(c);
    var notPunct := c => c !in Punctuation;
    var a := RemoveSpecial(cls, text);
    var b := RemovePunctuation(a);
    var sq := SquashWhitespace(cls, b);
    // the last step commutes with dropping whitespace
    FilterFusion(sq, notAlnum, notSpace, c => !IsAsciiAlnum(c) && !cls.isSpace(c));
    FilterFusion(sq, notSpace, notAlnum, c => !IsAsciiAlnum(c) && !cls.isSpace(c));
    SquashNonSpace(cls, b);
    // the first two steps and dropping whitespace are one filter
    FilterFusion(text, special, notPunct, c => (cls.isWord(c) || cls.isSpace(c)) && c !in Punctuation);
    FilterFusion(text, c => (cls.isWord(c) || cls.isSpace(c)) && c !in Punctuation, notSpace,
      c => cls.isWord(c) && !cls.isSpace(c) && c !in Punctuation);
    FilterFusion(text, c => cls.isWord(c) && !cls.isSpace(c) && c !in Punctuation, notAlnum,
      c => Survives(cls, c));
  }

  /** What `clean_amharic_text` promises of every call: the result is no
      longer than the markup parser's text, and holds no ASCII letter or
      digit, no listed mark, and nothing but word characters and plain
      spaces. */
  lemma CleanAmharicTextBounds(cls: Classes, getText: string -> string, text: string)
    ensures |CleanAmharicText(cls, getText, text)| <= |getText(text)|
    ensures forall c :: c in CleanAmharicText(cls, getText, text) ==> !IsAsciiAlnum(c) && c !in Punctuation
    ensures forall c :: c in CleanAmharicText(cls, getText, text) ==> c == ' ' || (cls.isWord(c) && !cls.isSpace(c))
  {
    NormaliseLength(cls, getText(text));
    NormaliseAlphabet(cls, getText(text));
  }

  /** An input made only of whitespace and non-word characters cleans to
      the empty string. */
  lemma NormaliseBlank(cls: Classes, text: string)
    requires cls.isSpace(' ')
    requires forall i :: 0 <= i < |text| ==> !cls.isWord(text[i]) || cls.isSpace(text[i])
    ensures Normalise(cls, text) == []
  {
    var b := RemovePunctuation(RemoveSpecial(cls, text));
    assert forall c :: c in b ==> cls.isSpace(c);
    var t := CollapseWhitespace(cls, b);
    CollapseKeeps(cls, b);
    assert forall c :: c in t ==> c == ' ';
    StripKeeps(cls, t);
    var r := Strip(cls, t);
    assert forall c :: c in r ==> c == ' ';
  }

  /** Conversely, an empty output means no character of the input survives. */
  lemma NormaliseEmpty(cls: Classes, text: string)
    requires cls.isSpace(' ')
    requires Normalise(cls, text) == []
    ensures forall c :: c in text ==> !Survives(cls, c)
  {
    NormaliseKeepsOrder(cls, text);
    FilterKeeps(text, c => Survives(cls, c));
  }
}
