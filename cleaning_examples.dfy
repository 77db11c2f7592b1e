/** Worked examples of `clean_amharic_text` after the markup step, for every
    classification that satisfies `Valid()`. They show what the general lemmas leave open: the
    last step runs after the whitespace step, so the final text need not be
    whitespace-normal, and cleaning twice can change it again. */
module CleaningExamples {
  import opened CharClasses
  import opened TextCleaning

  /** A non-empty run of ASCII letters and digits. */
  ghost predicate LatinWord(w: string)
  {
    w != [] && forall i :: 0 <= i < |w| ==> IsAsciiAlnum(w[i])
  }

  /** A non-empty run of Ethiopic syllables, each of them assigned and so a
      word character of the table. */
  ghost predicate EthiopicWord(cls: Classes, w: string)
  {
    w != [] && forall i :: 0 <= i < |w| ==> 'ሀ' <= w[i] <= 'ፚ' && cls.isWord(w[i])
  }

  /** Letters, digits and Ethiopic syllables, separated by single inner
      spaces. */
  ghost predicate SpacedWords(cls: Classes, s: string)
  {
    && s != []
    && (forall i :: 0 <= i < |s| ==>
          IsAsciiAlnum(s[i]) || s[i] == ' ' || ('ሀ' <= s[i] <= 'ፚ' && cls.isWord(s[i])))
    && (forall i :: 0 <= i < |s| - 1 ==> !(s[i] == ' ' && s[i + 1] == ' '))
    && s[0] != ' ' && s[|s| - 1] != ' '
  }

  lemma WordsAreSpaced(cls: Classes, w: string)
    requires LatinWord(w) || EthiopicWord(cls, w)
    ensures SpacedWords(cls, w)
  {
  }

  lemma JoinSpaced(cls: Classes, a: string, b: string)
    requires SpacedWords(cls, a) && SpacedWords(cls, b)
    ensures SpacedWords(cls, a + " " + b)
  {
    var s := a + " " + b;
    assert forall i :: 0 <= i < |a| ==> s[i] == a[i];
    assert s[|a|] == ' ';
    assert forall i :: |a| < i < |s| ==> s[i] == b[i - |a| - 1];
  }

  /** The first three steps leave such a text alone. */
  lemma FirstStepsKeep(cls: Classes, s: string)
    requires cls.Valid() && SpacedWords(cls, s)
    ensures SquashWhitespace(cls, RemovePunctuation(RemoveSpecial(cls, s))) == s
  {
    FilterEverything(s, c => cls.isWord(c) || cls.isSpace(c));
    forall i | 0 <= i < |s| ensures s[i] !in Punctuation {
      NotPunctuation(s[i]);
    }
    FilterEverything(s, c => c !in Punctuation);
    SpacedIsNormal(cls, s);
    SquashOfNormal(cls, s);
  }

  lemma SpacedIsNormal(cls: Classes, s: string)
    requires cls.Valid() && SpacedWords(cls, s)
    ensures WhitespaceNormal(cls, s)
  {
    assert forall i :: 0 <= i < |s| ==> (cls.isSpace(s[i]) <==> s[i] == ' ');
  }

  lemma LatinWordVanishes(w: string)
    requires LatinWord(w)
    ensures RemoveAsciiAlnum(w) == []
  {
    FilterNothing(w, c => !IsAsciiAlnum(c));
  }

  lemma EthiopicWordStays(cls: Classes, e: string)
    requires EthiopicWord(cls, e)
    ensures RemoveAsciiAlnum(e) == e
  {
    FilterEverything(e, c => !IsAsciiAlnum(c));
  }

  lemma SpaceStays()
    ensures RemoveAsciiAlnum(" ") == " "
  {
    FilterEverything(" ", c => !IsAsciiAlnum(c));
  }

  /** The underscore is a word character that no step deletes, so every
      underscore of the input reaches the output. */
  lemma UnderscoreSurvives(cls: Classes, text: string)
    requires cls.Valid() && '_' in text
    ensures Survives(cls, '_')
    ensures '_' in Normalise(cls, text)
  {
    NotPunctuation('_');
    NormaliseKeepsOrder(cls, text);
    FilterKeeps(text, c => Survives(cls, c));
    assert '_' in NonSpace(cls, Normalise(cls, text));
  }

  /** A lone Latin word ("Hi") cleans to the empty string. */
  lemma LatinWordCleansToEmpty(cls: Classes, w: string)
    requires cls.Valid() && LatinWord(w)
    ensures Normalise(cls, w) == ""
  {
    WordsAreSpaced(cls, w);
    FirstStepsKeep(cls, w);
    LatinWordVanishes(w);
  }

  /** Deleting a Latin word between two Ethiopic ones leaves two spaces
      ("ሀ a ለ" becomes "ሀ  ለ"). */
  lemma LatinWordLeavesDoubleSpace(cls: Classes, e1: string, w: string, e2: string)
    requires cls.Valid()
    requires EthiopicWord(cls, e1) && LatinWord(w) && EthiopicWord(cls, e2)
    ensures Normalise(cls, e1 + " " + w + " " + e2) == e1 + "  " + e2
  {
    WordsAreSpaced(cls, e1);
    WordsAreSpaced(cls, w);
    WordsAreSpaced(cls, e2);
    JoinSpaced(cls, e1, w);
    JoinSpaced(cls, e1 + " " + w, e2);
    FirstStepsKeep(cls, e1 + " " + w + " " + e2);
    LastStepDropsMiddle(cls, e1, w, e2);
  }

  lemma LastStepDropsMiddle(cls: Classes, e1: string, w: string, e2: string)
    requires EthiopicWord(cls, e1) && LatinWord(w) && EthiopicWord(cls, e2)
    ensures RemoveAsciiAlnum(e1 + " " + w + " " + e2) == e1 + "  " + e2
  {
    calc {
      RemoveAsciiAlnum(e1 + " " + w + " " + e2);
      { RemoveAsciiAlnumAppend(e1 + " " + w + " ", e2); EthiopicWordStays(cls, e2); }
      RemoveAsciiAlnum(e1 + " " + w + " ") + e2;
      { RemoveAsciiAlnumAppend(e1 + " " + w, " "); SpaceStays(); }
      RemoveAsciiAlnum(e1 + " " + w) + " " + e2;
      { RemoveAsciiAlnumAppend(e1 + " ", w); LatinWordVanishes(w); assert RemoveAsciiAlnum(e1 + " ") + [] == RemoveAsciiAlnum(e1 + " "); }
      RemoveAsciiAlnum(e1 + " ") + " " + e2;
      { RemoveAsciiAlnumAppend(e1, " "); SpaceStays(); EthiopicWordStays(cls, e1); }
      e1 + " " + " " + e2;
      { assert e1 + " " + " " == e1 + "  "; }
      e1 + "  " + e2;
    }
  }

  /** Two Latin words clean to the single space that separated them
      ("Hi there" becomes " "). */
  lemma LatinTextLeavesOneSpace(cls: Classes, w1: string, w2: string)
    requires cls.Valid() && LatinWord(w1) && LatinWord(w2)
    ensures Normalise(cls, w1 + " " + w2) == " "
  {
    WordsAreSpaced(cls, w1);
    WordsAreSpaced(cls, w2);
    JoinSpaced(cls, w1, w2);
    FirstStepsKeep(cls, w1 + " " + w2);
    LastStepKeepsSpace(w1, w2);
  }

  lemma LastStepKeepsSpace(w1: string, w2: string)
    requires LatinWord(w1) && LatinWord(w2)
    ensures RemoveAsciiAlnum(w1 + " " + w2) == " "
  {
    LatinWordVanishes(w1);
    LatinWordVanishes(w2);
    SpaceStays();
    RemoveAsciiAlnumAppend(w1 + " ", w2);
    RemoveAsciiAlnumAppend(w1, " ");
    assert [] + " " + [] == " ";
  }

  /** So cleaning is not idempotent: a second pass strips that space. */
  lemma CleaningTwiceDiffers(cls: Classes, w1: string, w2: string)
    requires cls.Valid() && LatinWord(w1) && LatinWord(w2)
    ensures Normalise(cls, Normalise(cls, w1 + " " + w2)) == ""
    ensures Normalise(cls, Normalise(cls, w1 + " " + w2)) != Normalise(cls, w1 + " " + w2)
  {
    LatinTextLeavesOneSpace(cls, w1, w2);
    NormaliseBlank(cls, " ");
  }

  /** Runs of mixed whitespace clean like single spaces: the text
      "a   b\n\tc" cleans to the same result as "a b c", whatever stands in
      place of the letters. */
  lemma WhitespaceRunsFold(cls: Classes, x: string, y: string, z: string)
    requires cls.Valid()
    ensures Normalise(cls, x + "   " + y + "\n\t" + z) == Normalise(cls, x + " " + y + " " + z)
  {
    TwoRunsFold(cls, x, "   ", y, "\n\t", z);
  }

  /** Two whitespace runs clean like two single spaces. */
  lemma TwoRunsFold(cls: Classes, x: string, w1: string, y: string, w2: string, z: string)
    requires cls.Valid()
    requires w1 != [] && forall i :: 0 <= i < |w1| ==> w1[i] in " \t\n\r"
    requires w2 != [] && forall i :: 0 <= i < |w2| ==> w2[i] in " \t\n\r"
    ensures Normalise(cls, x + w1 + y + w2 + z) == Normalise(cls, x + " " + y + " " + z)
  {
    var mid := y + w2 + z;
    Reassociate(x, w1, y, w2, z);
    RunFolds(cls, x, w1, mid);
    Reassociate(x, " ", y, w2, z);
    RunFolds(cls, x + " " + y, w2, z);
  }

  lemma Reassociate(a: string, b: string, c: string, d: string, e: string)
    ensures a + b + c + d + e == a + b + (c + d + e)
  {
  }

  /** A run of space, tab, newline and carriage return cleans like one
      space. */
  lemma RunFolds(cls: Classes, x: string, w: string, y: string)
    requires cls.Valid()
    requires w != [] && forall i :: 0 <= i < |w| ==> w[i] in " \t\n\r"
    ensures Normalise(cls, x + w + y) == Normalise(cls, x + " " + y)
  {
    forall i | 0 <= i < |w| ensures cls.isSpace(w[i]) && w[i] !in Punctuation {
      NotPunctuation(w[i]);
    }
    NotPunctuation(' ');
    NormaliseRunInvariant(cls, x, w, " ", y);
  }
}
