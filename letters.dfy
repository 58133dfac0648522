/** Words the index set reads one letter at a time, a soft sign that no later rule can
    consume, and three words worked through the whole transcription. */
module Letters {
  import opened Wrappers
  import opened Strings
  import opened Tables
  import opened Transcription

  // ---------------------------------------------------------------------------
  // The layout of the rules

  /** The first 33 rules are the multi-letter ones: each holds ь, except дз and дж. */
  lemma MultiLetterRules()
    ensures forall k :: 0 <= k < 33 && k != 11 && k != 12 ==> SoftSign in AllRules[k].pattern
    ensures AllRules[11].pattern == "дз" && AllRules[12].pattern == "дж"
  {
  }

  /** The letters of the one-letter rules, in rule order: the consonants from м, then the
      vowels. */
  const OneLetterHeads: string := "мнбдґптцчквўгзжфсшхлрйаеіуои"

  /** No letter has two one-letter rules. */
  lemma OneLetterHeadsDistinct()
    ensures |OneLetterHeads| == 28
    ensures forall i, j :: 0 <= i < j < |OneLetterHeads| ==> OneLetterHeads[i] != OneLetterHeads[j]
  {
  }

  /** Where the consonant and vowel tables sit in `Phonema.ALL`. */
  lemma OneLetterTables()
    ensures forall k :: 33 <= k < 55 ==> AllRules[k] == Consonants[k - 33]
    ensures forall k :: 55 <= k < 61 ==> AllRules[k] == Vowels[k - 55]
  {
    assert AllRules == (DoubleSoftConsonants + DoubleConsonants + SoftConsonants) + Consonants + Vowels;
  }

  lemma ConsonantHead(j: nat)
    requires j < 22
    ensures AllRules[33 + j].pattern == [OneLetterHeads[j]]
  {
    OneLetterTables();
    if j < 11 {
      assert j == 0 || j == 1 || j == 2 || j == 3 || j == 4 || j == 5 || j == 6 || j == 7 || j == 8 || j == 9 || j == 10;
    } else {
      assert j == 11 || j == 12 || j == 13 || j == 14 || j == 15 || j == 16 || j == 17 || j == 18 || j == 19 || j == 20 || j == 21;
    }
  }

  lemma VowelHead(j: nat)
    requires j < 6
    ensures AllRules[55 + j].pattern == [OneLetterHeads[22 + j]]
  {
    OneLetterTables();
    assert j == 0 || j == 1 || j == 2 || j == 3 || j == 4 || j == 5;
  }

  /** The last 28 rules are the one-letter rules. */
  lemma SingleLetterRules()
    ensures forall k :: 33 <= k < 61 ==> AllRules[k].pattern == [OneLetterHeads[k - 33]]
  {
    forall k | 33 <= k < 61
      ensures AllRules[k].pattern == [OneLetterHeads[k - 33]]
    {
      if k < 55 {
        ConsonantHead(k - 33);
      } else {
        VowelHead(k - 55);
      }
    }
  }

  /** A plain letter's one-letter rule is the only rule whose pattern is that letter. */
  lemma OneLetterRuleUnique(x: char, k: nat)
    requires x in PlainLetters - {SoftSign} && k < 61 && AllRules[k].pattern == [x]
    ensures OneLetterRule(x) == k
  {
    var r := OneLetterRule(x);
    assert 33 <= k by {
      MultiLetterRules();
    }
    SingleLetterRules();
    assert OneLetterHeads[r - 33] == x == OneLetterHeads[k - 33];
    OneLetterHeadsDistinct();
  }

  // ---------------------------------------------------------------------------
  // Rules that find nothing

  /** Rules none of whose patterns occurs leave the mask as it is. */
  lemma {:induction false} EncodeSkips(entries: seq<(char, Rule)>, s: string, a: nat, b: nat)
    requires a <= b <= |entries|
    requires forall k :: a <= k < b ==> !Occurs(entries[k].1.pattern, EncodeWith(entries, s, a))
    ensures EncodeWith(entries, s, b) == EncodeWith(entries, s, a)
    decreases b - a
  {
    if a < b {
      EncodeSkips(entries, s, a, b - 1);
      ReplaceNoOccurrence(EncodeWith(entries, s, a), entries[b - 1].1.pattern, [entries[b - 1].0]);
    }
  }

  /** A mask of codes only is final: every pattern starts with a Cyrillic letter, which is
      not there. */
  lemma CodesStay(entries: seq<(char, Rule)>, s: string, a: nat, b: nat)
    requires a <= b <= |entries|
    requires forall i :: 0 <= i < |EncodeWith(entries, s, a)| ==> EncodeWith(entries, s, a)[i] as int < 128
    ensures EncodeWith(entries, s, b) == EncodeWith(entries, s, a)
  {
    var m := EncodeWith(entries, s, a);
    forall k | a <= k < b
      ensures !Occurs(entries[k].1.pattern, m)
    {
      var p := entries[k].1.pattern;
      MissingCharNotOccurs(p, m, p[0]);
    }
    EncodeSkips(entries, s, a, b);
  }

  // ---------------------------------------------------------------------------
  // Words read letter by letter

  /** Every letter of `t` has a one-letter rule. */
  predicate OneLetterWord(t: string) {
    forall i :: 0 <= i < |t| ==> t[i] in PlainLetters - {SoftSign}
  }

  /** A word no multi-letter rule applies to: no ь, and neither дз nor дж. */
  predicate ReadsLetterByLetter(t: string) {
    OneLetterWord(t) && !Occurs("дз", t) && !Occurs("дж", t)
  }

  /** A letter once the first `n` rules have run: the code of its one-letter rule once that
      rule is among them, the letter itself before. */
  function LetterAfter(x: char, n: nat): char
    requires x in PlainLetters - {SoftSign}
  {
    if OneLetterRule(x) < n then CodeChar(OneLetterRule(x)) else x
  }

  function SpelledAfter(t: string, n: nat): (r: string)
    requires OneLetterWord(t)
    ensures |r| == |t| && forall i :: 0 <= i < |t| ==> r[i] == LetterAfter(t[i], n)
  {
    seq(|t|, i requires 0 <= i < |t| => LetterAfter(t[i], n))
  }

  /** The multi-letter rules find nothing in such a word. */
  lemma {:induction false} MultiLetterRulesSkip(t: string, n: nat)
    requires ReadsLetterByLetter(t) && n <= 33
    ensures EncodeWith(Indexset, t, n) == t
  {
    if n > 0 {
      MultiLetterRulesSkip(t, n - 1);
      IndexsetLayout();
      MultiLetterRules();
      var pat := AllRules[n - 1].pattern;
      if n - 1 != 11 && n - 1 != 12 {
        assert SoftSign !in t;
        MissingCharNotOccurs(pat, t, SoftSign);
      }
      ReplaceNoOccurrence(t, pat, [CodeChar(n - 1)]);
    }
  }

  /** Each one-letter rule turns its letter into its code and touches nothing else. */
  lemma {:induction false} OneLetterRulesSpell(t: string, n: nat)
    requires ReadsLetterByLetter(t) && 33 <= n <= 61
    ensures EncodeWith(Indexset, t, n) == SpelledAfter(t, n)
  {
    IndexsetLayout();
    if n == 33 {
      MultiLetterRulesSkip(t, 33);
      assert SpelledAfter(t, 33) == t;
    } else {
      var k := n - 1;
      OneLetterRulesSpell(t, k);
      var prev := SpelledAfter(t, k);
      SingleLetterRules();
      var x := OneLetterHeads[k - 33];
      assert EncodeWith(Indexset, t, n) == Replace(prev, [x], [CodeChar(k)]);
      ReplaceSingle(prev, x, [CodeChar(k)]);
      var next := Subst(prev, x, [CodeChar(k)]);
      SubstLength(prev, x, [CodeChar(k)]);
      assert |next| == |t|;
      forall i | 0 <= i < |t|
        ensures next[i] == SpelledAfter(t, n)[i]
      {
        SubstOneAt(prev, x, CodeChar(k), i);
        LetterStep(t[i], k);
      }
    }
  }

  /** Rule `k`, one letter long, turns that letter into its code and leaves every other
      letter, and every code already written, as it is. */
  lemma LetterStep(x: char, k: nat)
    requires x in PlainLetters - {SoftSign} && 33 <= k < 61
    ensures var y := OneLetterHeads[k - 33];
      LetterAfter(x, k + 1) == if LetterAfter(x, k) == y then CodeChar(k) else LetterAfter(x, k)
  {
    SingleLetterRules();
    var j := OneLetterRule(x);
    if j < k {
      CodeNotInPattern(CodeChar(j), AllRules[k].pattern);
    } else if x == OneLetterHeads[k - 33] {
      OneLetterRuleUnique(x, k);
    }
  }

  /** The mask of such a word has one code per letter: the code of its one-letter rule. */
  lemma EncodeLetterByLetter(t: string)
    requires ReadsLetterByLetter(t)
    ensures |Encode(t)| == |t|
    ensures forall i :: 0 <= i < |t| ==> Encode(t)[i] == CodeChar(OneLetterRule(t[i]))
  {
    IndexsetLayout();
    OneLetterRulesSpell(t, 61);
  }

  /** The IPA strings of the one-letter rules of `t`'s letters, in order. */
  function LetterIpas(t: string): (r: seq<string>)
    requires OneLetterWord(t)
    ensures |r| == |t|
  {
    seq(|t|, i requires 0 <= i < |t| => AllRules[OneLetterRule(t[i])].ipa)
  }

  /** An accepted word whose prepared form has no ь, дз or дж is transcribed letter by
      letter: the IPA strings of its letters' own rules, joined and bracketed. */
  lemma LetterByLetterTranscription(w: string)
    requires Matches(w) && ReadsLetterByLetter(Prepare(w))
    ensures Transcribe(w) == Success("[" + Concat(LetterIpas(Prepare(w))) + "]")
  {
    var t := Prepare(w);
    var m := Mask(w);
    EncodeLetterByLetter(t);
    forall i | 0 <= i < |m|
      ensures Get(m[i]) == Some(AllRules[OneLetterRule(t[i])])
    {
      IndexsetLayout();
      GetCode(OneLetterRule(t[i]));
    }
    assert Decode(m).value == LetterIpas(t);
  }

  // ---------------------------------------------------------------------------
  // A soft sign after a code

  /** A ь right after a code stays there through every later rule: no pattern starts with ь,
      and no pattern holds a code. */
  lemma {:induction false} EncodeKeepsCodedSoftSign(entries: seq<(char, Rule)>, s: string, c: char, a: nat, b: nat)
    requires a <= b <= |entries| && c as int < 128
    requires forall j :: 0 <= j < |entries| ==> entries[j].1.pattern[0] != SoftSign
    requires Occurs([c, SoftSign], EncodeWith(entries, s, a))
    ensures Occurs([c, SoftSign], EncodeWith(entries, s, b))
    decreases b - a
  {
    if a < b {
      EncodeKeepsCodedSoftSign(entries, s, c, a, b - 1);
      var pat := entries[b - 1].1.pattern;
      CodeNotInPattern(c, pat);
      ReplaceKeepsPair(EncodeWith(entries, s, b - 1), pat, [entries[b - 1].0], c, SoftSign);
    }
  }

  /** Once a ь sits right after a code, the word fails: that ь reaches the mask. */
  lemma CodedSoftSignFails(w: string, c: char, n: nat)
    requires Matches(w) && c as int < 128 && n <= 61
    requires Occurs([c, SoftSign], EncodeWith(Indexset, Prepare(w), n))
    ensures SoftSign in Mask(w) && Transcribe(w) == Failure(UnmappedCode(SoftSign))
  {
    IndexsetLayout();
    RulesNotSoftLed();
    EncodeKeepsCodedSoftSign(Indexset, Prepare(w), c, n, 61);
    OccursChars([c, SoftSign], Mask(w), SoftSign);
    TranscribeFailures(w);
  }

  // ---------------------------------------------------------------------------
  // A word that is one pattern

  /** The mask of a single code decodes to that code's rule. */
  lemma DecodeOneCode(k: nat)
    requires k < |AllRules|
    ensures Decode([CodeChar(k)]) == Success([AllRules[k].ipa])
  {
    var m := [CodeChar(k)];
    assert Get(m[0]) == Some(AllRules[k]) by {
      IndexsetLayout();
      GetCode(k);
    }
    var r := Decode(m);
    assert r.Success? && |r.value| == 1 && r.value[0] == AllRules[k].ipa;
    assert r.value == [AllRules[k].ipa];
  }

  /** A word that is exactly one rule's pattern, which no earlier rule finds, is masked as
      that rule's code alone. */
  lemma WholeWordMask(t: string, k: nat)
    requires k < |AllRules| && t == AllRules[k].pattern
    requires forall j :: 0 <= j < k ==> !Occurs(AllRules[j].pattern, t)
    ensures Encode(t) == [CodeChar(k)]
  {
    IndexsetLayout();
    EncodeSkips(Indexset, t, 0, k);
    var m, c := EncodeWith(Indexset, t, k + 1), CodeChar(k);
    assert m == [c] by {
      EncodeStep(Indexset, t, k);
      assert m == Replace(t, t, [c]);
      assert t[..|t|] == t && t[|t|..] == [];
    }
    assert forall i :: 0 <= i < |m| ==> m[i] as int < 128;
    CodesStay(Indexset, t, k + 1, 61);
  }

  /** A word whose prepared form is exactly one rule's pattern, which no earlier rule finds,
      is transcribed as that rule's IPA string alone. */
  lemma WholeWordTranscription(w: string, k: nat)
    requires Matches(w) && k < |AllRules| && Prepare(w) == AllRules[k].pattern
    requires forall j :: 0 <= j < k ==> !Occurs(AllRules[j].pattern, Prepare(w))
    ensures Mask(w) == [CodeChar(k)]
    ensures Transcribe(w) == Success("[" + AllRules[k].ipa + "]")
  {
    WholeWordMask(Prepare(w), k);
    DecodeOneCode(k);
    var parts := [AllRules[k].ipa];
    assert parts[..0] == [];
    assert Concat(parts) == AllRules[k].ipa;
  }

  // ---------------------------------------------------------------------------
  // Worked words

  /** A non-empty word of lower-case letters other than щ passes the validator, and the
      first three stages leave it as it is. */
  lemma PrepareLower(w: string)
    requires |w| > 0 && forall i :: 0 <= i < |w| ==> w[i] in LowerLetters && w[i] != 'щ'
    ensures Matches(w) && Prepare(w) == ResolveVowels(w)
  {
    LowerWordFixed(w);
    assert AllInCharset(w);
    assert Body(w) == w;
    NormalizeFormatted(w);
    assert Normalize(w) == w;
    FormattedHasNoAccent(w);
    ExpandComplexConsonantsSpec(w);
    SubstAbsent(w, 'щ', "шч");
  }

  lemma LowerWordFixed(w: string)
    requires forall i :: 0 <= i < |w| ==> w[i] in LowerLetters
    ensures forall i :: 0 <= i < |w| ==> NormalChar(w[i]) == w[i] && InCharset(w[i])
  {
    forall i | 0 <= i < |w|
      ensures NormalChar(w[i]) == w[i]
    {
      LowerFixed(w[i]);
    }
  }

  /** The vowel pass copies characters that are not iotated vowels. */
  lemma {:induction false} ResolvedPlain(s: string, n: nat)
    requires n <= |s| && forall i :: 0 <= i < n ==> ComplexVowelForms(s[i]).None?
    ensures Resolved(s, n) == s[..n]
  {
    if n > 0 {
      ResolvedPlain(s, n - 1);
      assert s[..n] == s[..n - 1] + [s[n - 1]];
    }
  }

  /** A word without iotated vowels and apostrophes goes through the vowel pass unchanged. */
  lemma PlainResolves(s: string)
    requires forall i :: 0 <= i < |s| ==> ComplexVowelForms(s[i]).None? && s[i] != Apostrophe
    ensures ResolveVowels(s) == s
  {
    ResolvedPlain(s, |s|);
    assert s[..|s|] == s;
    ReplaceSingle(s, Apostrophe, []);
    SubstAbsent(s, Apostrophe, []);
  }

  /** мрія: я after і is written йа, and every letter of мрійа has its own rule. */
  lemma MriyaTranscription()
    ensures Prepare("мрія") == "мрійа" && Transcribe("мрія") == Success("[mrijɑ]")
  {
    Mriya("мрія");
  }

  lemma Mriya(w: string)
    requires w == "мрія"
    ensures Prepare(w) == "мрійа" && Transcribe(w) == Success("[mrijɑ]")
  {
    MriyaPrepared(w);
    MriyaReads(Prepare(w));
    MriyaLetters(Prepare(w));
    LetterByLetterTranscription(w);
  }

  lemma MriyaPrepared(w: string)
    requires w == "мрія"
    ensures Matches(w) && Prepare(w) == "мрійа"
  {
    PrepareLower(w);
    ResolveVowelsExamples();
  }

  lemma MriyaReads(t: string)
    requires t == "мрійа"
    ensures ReadsLetterByLetter(t)
  {
    MriyaPlain();
    forall i | 0 <= i < |t|
      ensures t[i] in PlainLetters - {SoftSign}
    {
      assert i == 0 || i == 1 || i == 2 || i == 3 || i == 4;
    }
    MissingCharNotOccurs("дз", t, 'д');
    MissingCharNotOccurs("дж", t, 'д');
  }

  lemma MriyaLetters(t: string)
    requires t == "мрійа" && OneLetterWord(t)
    ensures "[" + Concat(LetterIpas(t)) + "]" == "[mrijɑ]"
  {
    FiveLetterIpas(t);
    assert t[0] == 'м' && t[1] == 'р' && t[2] == 'і' && t[3] == 'й' && t[4] == 'а';
    MriyaRules();
    MriyaJoin();
  }

  lemma FiveLetterIpas(t: string)
    requires OneLetterWord(t) && |t| == 5
    ensures LetterIpas(t) == [AllRules[OneLetterRule(t[0])].ipa, AllRules[OneLetterRule(t[1])].ipa,
      AllRules[OneLetterRule(t[2])].ipa, AllRules[OneLetterRule(t[3])].ipa, AllRules[OneLetterRule(t[4])].ipa]
  {
    var r := LetterIpas(t);
    assert r[0] == AllRules[OneLetterRule(t[0])].ipa && r[1] == AllRules[OneLetterRule(t[1])].ipa;
    assert r[2] == AllRules[OneLetterRule(t[2])].ipa && r[3] == AllRules[OneLetterRule(t[3])].ipa;
    assert r[4] == AllRules[OneLetterRule(t[4])].ipa;
  }

  lemma MriyaPlain()
    ensures 'м' in PlainLetters - {SoftSign} && 'р' in PlainLetters - {SoftSign}
    ensures 'і' in PlainLetters - {SoftSign} && 'й' in PlainLetters - {SoftSign}
    ensures 'а' in PlainLetters - {SoftSign}
  {
  }

  lemma MriyaRules()
    ensures AllRules[OneLetterRule('м')].ipa == "m" && AllRules[OneLetterRule('р')].ipa == "r"
    ensures AllRules[OneLetterRule('і')].ipa == "i" && AllRules[OneLetterRule('й')].ipa == "j"
    ensures AllRules[OneLetterRule('а')].ipa == "ɑ"
  {
    MriyaPlain();
    assert OneLetterRule('м') == 33 && OneLetterRule('р') == 53 && OneLetterRule('і') == 57;
    assert OneLetterRule('й') == 54 && OneLetterRule('а') == 55;
    OneLetterTables();
  }

  lemma MriyaJoin()
    ensures Concat(["m", "r", "i", "j", "ɑ"]) == "mrijɑ"
  {
    var p0: seq<string> := [];
    var p1, p2, p3, p4 := p0 + ["m"], p0 + ["m"] + ["r"], p0 + ["m"] + ["r"] + ["i"], p0 + ["m"] + ["r"] + ["i"] + ["j"];
    ConcatSnoc(p0, "m");
    ConcatSnoc(p1, "r");
    ConcatSnoc(p2, "i");
    ConcatSnoc(p3, "j");
    ConcatSnoc(p4, "ɑ");
    assert p4 + ["ɑ"] == ["m", "r", "i", "j", "ɑ"];
    assert "" + "m" + "r" + "i" + "j" + "ɑ" == "mrijɑ";
  }

  /** ннь: the first rule takes the whole word, so it is one long palatal nasal, [ɲː]. */
  lemma DoubledSoftN()
    ensures Prepare("ннь") == "ннь" && Mask("ннь") == "a" && Transcribe("ннь") == Success("[ɲː]")
  {
    DoubledSoft("ннь");
  }

  lemma DoubledSoft(w: string)
    requires w == "ннь"
    ensures Prepare(w) == w && Mask(w) == "a" && Transcribe(w) == Success("[ɲː]")
  {
    PlainPrepared(w);
    FirstRule();
    WholeWordTranscription(w, 0);
  }

  /** A non-empty word spelled with н, д, з and ь only is accepted and prepared unchanged. */
  lemma PlainPrepared(w: string)
    requires |w| > 0 && forall i :: 0 <= i < |w| ==> w[i] in "ндзь"
    ensures Matches(w) && Prepare(w) == w
  {
    forall i | 0 <= i < |w|
      ensures w[i] in LowerLetters && w[i] != 'щ'
      ensures ComplexVowelForms(w[i]).None? && w[i] != Apostrophe
    {
      PlainLetter(w[i]);
    }
    PrepareLower(w);
    PlainResolves(w);
  }

  lemma PlainLetter(c: char)
    requires c in "ндзь"
    ensures c in LowerLetters && c != 'щ' && ComplexVowelForms(c).None? && c != Apostrophe
  {
    assert c == 'н' || c == 'д' || c == 'з' || c == 'ь';
  }

  lemma FirstRule()
    ensures |AllRules| == 61 && AllRules[0] == Rule("ннь", "ɲː")
    ensures "[" + AllRules[0].ipa + "]" == "[ɲː]" && [CodeChar(0)] == "a"
  {
  }

  /** джя: я after ж is written ьа, the дж rule takes дж, and the ь after its code is never
      consumed, so decoding fails on it. */
  lemma DzhSoftSign()
    ensures Prepare("джя") == "джьа" && SoftSign in Mask("джя")
    ensures Transcribe("джя") == Failure(UnmappedCode(SoftSign))
  {
    DzhPrepared("джя");
    DzhMask("джьа");
    CodedSoftSignFails("джя", CodeChar(12), 13);
  }

  lemma DzhPrepared(w: string)
    requires w == "джя"
    ensures Matches(w) && Prepare(w) == "джьа"
  {
    PrepareLower(w);
    DzhResolves(w);
  }

  lemma DzhResolves(w: string)
    requires w == "джя"
    ensures ResolveVowels(w) == "джьа"
  {
    var t: string := "джьа";
    ResolvedPlain(w, 2);
    assert w[..2] == "дж";
    assert Expansion(w, 2) == "ьа";
    assert Resolved(w, 3) == t;
    ReplaceSingle(t, Apostrophe, []);
    SubstAbsent(t, Apostrophe, []);
  }

  lemma DzhMask(t: string)
    requires t == "джьа"
    ensures IsPrefix([CodeChar(12), SoftSign], EncodeWith(Indexset, t, 13))
  {
    IndexsetLayout();
    DzhSkips(t);
    EncodeSkips(Indexset, t, 0, 12);
    MultiLetterRules();
    EncodeStep(Indexset, t, 12);
    DzhReplace(t, CodeChar(12));
  }

  /** None of the first twelve patterns is in джьа: none starts with дж, жь or ьа. */
  lemma DzhSkips(t: string)
    requires t == "джьа"
    ensures forall k :: 0 <= k < 12 ==> !Occurs(AllRules[k].pattern, t)
  {
    forall k | 0 <= k < 12
      ensures !Occurs(AllRules[k].pattern, t)
    {
      EarlyPatternPair(k);
      NoPairNotOccurs(AllRules[k].pattern, t);
    }
  }

  /** The rules before дж are two letters or more, the second of them a consonant, and
      none of them starts with дж. */
  lemma EarlyPatternPair(k: nat)
    requires k < 12
    ensures var p := AllRules[k].pattern; |p| >= 2 && p[1] in "ндтлцзсчжш" && (p[0] != 'д' || p[1] != 'ж')
  {
    if k < 6 {
      assert k == 0 || k == 1 || k == 2 || k == 3 || k == 4 || k == 5;
    } else {
      assert k == 6 || k == 7 || k == 8 || k == 9 || k == 10 || k == 11;
    }
  }

  lemma DzhReplace(t: string, c: char)
    requires t == "джьа"
    ensures Replace(t, "дж", [c]) == [c] + "ьа"
    ensures IsPrefix([c, SoftSign], Replace(t, "дж", [c]))
  {
    assert t[..2] == "дж" && t[2..] == "ьа";
    var r := "ьа";
    assert r[..2] != "дж" && r[1..] == "а";
  }

  // ---------------------------------------------------------------------------
  // Priority by rule order, not by position

  /** дззь: rule 5, ззь, runs before rule 11, дз, so it takes the last three letters although
      дз starts further left. The д that is left is read on its own: [dzʲː], not the
      affricate d͡z that a longest match from the left would find. */
  lemma PriorityOverPosition()
    ensures Prepare("дззь") == "дззь" && Mask("дззь") == "Kf"
    ensures Transcribe("дззь") == Success("[dzʲː]")
  {
    Dzz("дззь");
  }

  lemma Dzz(w: string)
    requires w == "дззь"
    ensures Prepare(w) == w && Mask(w) == "Kf" && Transcribe(w) == Success("[dzʲː]")
  {
    PlainPrepared(w);
    DzzFirst(w);
    DzzMask(w);
    DzzRules();
    DecodeTwoCodes(36, 5);
    DzzJoin();
  }

  lemma DzzRules()
    ensures |AllRules| == 61 && AllRules[5] == Rule("ззь", "zʲː") && AllRules[36] == Rule("д", "d")
    ensures [CodeChar(36), CodeChar(5)] == "Kf"
  {
    OneLetterTables();
  }

  lemma DzzJoin()
    ensures "[" + Concat(["d", "zʲː"]) + "]" == "[dzʲː]"
  {
    var p0: seq<string> := [];
    ConcatSnoc(p0, "d");
    ConcatSnoc(p0 + ["d"], "zʲː");
    assert p0 + ["d"] + ["zʲː"] == ["d", "zʲː"];
  }

  /** Once ззь is a code, the rules up to д find nothing, д becomes its own code, and the
      mask is final. */
  lemma DzzMask(t: string)
    requires EncodeWith(Indexset, t, 6) == ['д', CodeChar(5)]
    ensures Encode(t) == [CodeChar(36), CodeChar(5)]
  {
    var m1, m2 := ['д', CodeChar(5)], [CodeChar(36), CodeChar(5)];
    assert EncodeWith(Indexset, t, 36) == m1 by {
      DzzSkipsAfter(m1, CodeChar(5));
      IndexsetLayout();
      assert forall k :: 6 <= k < 36 ==> !Occurs(Indexset[k].1.pattern, EncodeWith(Indexset, t, 6));
      EncodeSkips(Indexset, t, 6, 36);
    }
    assert EncodeWith(Indexset, t, 37) == m2 by {
      IndexsetLayout();
      EncodeStep(Indexset, t, 36);
      DzzRules();
      DzzLetter(CodeChar(5), CodeChar(36));
    }
    assert Encode(t) == m2 by {
      IndexsetLayout();
      assert forall i :: 0 <= i < |m2| ==> m2[i] as int < 128;
      CodesStay(Indexset, t, 37, 61);
    }
  }

  /** The first six rules turn дззь into д and the code of ззь. */
  lemma DzzFirst(t: string)
    requires t == "дззь"
    ensures EncodeWith(Indexset, t, 6) == ['д', CodeChar(5)]
  {
    IndexsetLayout();
    forall k | 0 <= k < 5
      ensures !Occurs(AllRules[k].pattern, t)
    {
      DoubledPattern(k);
      NoPairNotOccurs(AllRules[k].pattern, t);
    }
    EncodeSkips(Indexset, t, 0, 5);
    EncodeStep(Indexset, t, 5);
    DzzRules();
    DzzReplace(t, CodeChar(5));
  }

  /** The first five rules double a letter other than з. */
  lemma DoubledPattern(k: nat)
    requires k < 5
    ensures var p := AllRules[k].pattern; |p| >= 2 && p[0] == p[1] && p[0] != 'з'
  {
    assert k == 0 || k == 1 || k == 2 || k == 3 || k == 4;
  }

  lemma DzzReplace(t: string, c: char)
    requires t == "дззь"
    ensures Replace(t, "ззь", [c]) == ['д', c]
  {
    var r := t[1..];
    assert r == "ззь" && r[..3] == r && r[3..] == [];
    assert t[..3][0] == 'д';
  }

  /** Rules 6 to 35 find nothing in д followed by a code. */
  lemma DzzSkipsAfter(m: string, c: char)
    requires m == ['д', c] && c as int < 128
    ensures forall k :: 6 <= k < 36 ==> !Occurs(AllRules[k].pattern, m)
  {
    forall k | 6 <= k < 36
      ensures !Occurs(AllRules[k].pattern, m)
    {
      var x := MissingLetter(k);
      MissingCharNotOccurs(AllRules[k].pattern, m, x);
    }
  }

  /** Each of rules 6 to 35 holds a Cyrillic letter other than д: ь, the з of дз, the ж of
      дж, or one of м н б. */
  lemma MissingLetter(k: nat) returns (x: char)
    requires 6 <= k < 36
    ensures x in AllRules[k].pattern && x != 'д' && x as int >= 128
  {
    if k < 33 {
      MultiLetterRules();
      x := if k == 11 then 'з' else if k == 12 then 'ж' else SoftSign;
    } else {
      SingleLetterRules();
      x := OneLetterHeads[k - 33];
      assert k == 33 || k == 34 || k == 35;
    }
  }

  lemma DzzLetter(c: char, d: char)
    requires c as int < 128
    ensures Replace(['д', c], "д", [d]) == [d, c]
  {
    var m := ['д', c];
    assert m[..1] == "д" && m[1..] == [c];
    assert [c][..1] == [c] && [c][1..] == [] && c != 'д';
    assert Replace([c], "д", [d]) == [c];
  }

  /** A mask of two codes decodes to their rules' IPA strings. */
  lemma DecodeTwoCodes(i: nat, j: nat)
    requires i < |AllRules| && j < |AllRules|
    ensures Decode([CodeChar(i), CodeChar(j)]) == Success([AllRules[i].ipa, AllRules[j].ipa])
  {
    var m := [CodeChar(i), CodeChar(j)];
    assert Get(m[0]) == Some(AllRules[i]) && Get(m[1]) == Some(AllRules[j]) by {
      IndexsetLayout();
      GetCode(i);
      GetCode(j);
    }
    var r := Decode(m);
    assert r.Success? && |r.value| == 2 && r.value[0] == AllRules[i].ipa && r.value[1] == AllRules[j].ipa;
    assert r.value == [AllRules[i].ipa, AllRules[j].ipa];
  }

  // ---------------------------------------------------------------------------
  // A soft geminate cluster inside a word

  /** The first two letters of the eleven three-letter rules, in rule order; the third is
      always ь. */
  const ClusterFirsts: string := "ндтлцзсчжшд"
  const ClusterSeconds: string := "ндтлцзсчжшз"

  lemma ClusterRule(j: nat)
    requires j < 11
    ensures AllRules[j].pattern == [ClusterFirsts[j], ClusterSeconds[j], SoftSign]
  {
    if j < 6 {
      assert j == 0 || j == 1 || j == 2 || j == 3 || j == 4 || j == 5;
    } else {
      assert j == 6 || j == 7 || j == 8 || j == 9 || j == 10;
    }
  }

  /** No two three-letter rules start with the same two letters, and ь is not among them. */
  lemma ClusterLettersDistinct()
    ensures |ClusterFirsts| == 11 && |ClusterSeconds| == 11
    ensures SoftSign !in ClusterFirsts && SoftSign !in ClusterSeconds
    ensures forall i, j :: 0 <= i < j < 11 ==> ClusterFirsts[i] != ClusterFirsts[j] || ClusterSeconds[i] != ClusterSeconds[j]
  {
  }

  /** Two different three-letter rules cannot overlap in a word: both end in ь, and ь
      appears nowhere else in either. */
  lemma ClusterNoOverlap(j: nat, k: nat)
    requires j < 11 && k < 11 && j != k
    ensures NoOverlap(AllRules[j].pattern, AllRules[k].pattern)
  {
    ClusterRule(j);
    ClusterRule(k);
    ClusterLettersDistinct();
    var p, q := AllRules[j].pattern, AllRules[k].pattern;
    assert p[..2] == [ClusterFirsts[j], ClusterSeconds[j]] && q[..2] == [ClusterFirsts[k], ClusterSeconds[k]];
    assert p[0] != q[0] || p[1] != q[1];
  }

  /** The three-letter rules before rule `k` leave each occurrence of its pattern in place. */
  lemma {:induction false} ClusterSurvives(s: string, k: nat, n: nat)
    requires k < 11 && n <= k && Occurs(AllRules[k].pattern, s)
    ensures Occurs(AllRules[k].pattern, EncodeWith(Indexset, s, n))
    decreases n
  {
    if n > 0 {
      ClusterSurvives(s, k, n - 1);
      IndexsetLayout();
      EncodeStep(Indexset, s, n - 1);
      ClusterNoOverlap(k, n - 1);
      ReplaceKeepsOccurrence(EncodeWith(Indexset, s, n - 1), AllRules[n - 1].pattern, [CodeChar(n - 1)], AllRules[k].pattern);
    }
  }

  /** A code in the mask stays there through every later rule: no pattern holds a code. */
  lemma {:induction false} EncodeKeepsCode(entries: seq<(char, Rule)>, s: string, c: char, a: nat, b: nat)
    requires a <= b <= |entries| && c as int < 128 && c in EncodeWith(entries, s, a)
    ensures c in EncodeWith(entries, s, b)
    decreases b - a
  {
    if a < b {
      EncodeKeepsCode(entries, s, c, a, b - 1);
      var pat := entries[b - 1].1.pattern;
      CodeNotInPattern(c, pat);
      ReplaceKeepsChar(EncodeWith(entries, s, b - 1), pat, [entries[b - 1].0], c);
    }
  }

  /** A three-letter rule's pattern anywhere in a word puts that rule's code in the mask. */
  lemma ClusterCoded(s: string, k: nat)
    requires k < 11 && Occurs(AllRules[k].pattern, s)
    ensures CodeChar(k) in Encode(s)
  {
    ClusterSurvives(s, k, k);
    IndexsetLayout();
    EncodeStep(Indexset, s, k);
    ReplaceInserts(EncodeWith(Indexset, s, k), AllRules[k].pattern, CodeChar(k));
    EncodeKeepsCode(Indexset, s, CodeChar(k), k + 1, 61);
  }

  /** A soft geminate cluster inside a prepared word is read as its own single phoneme:
      its code is in the mask, and a successful transcription holds its IPA string. */
  lemma ClusterKept(w: string, k: nat)
    requires k < 11 && Occurs(AllRules[k].pattern, Prepare(w))
    ensures CodeChar(k) in Mask(w)
    ensures Transcribe(w).Success? ==>
      Decode(Mask(w)).Success? && AllRules[k].ipa in Decode(Mask(w)).value
      && Transcribe(w) == Success("[" + Concat(Decode(Mask(w)).value) + "]")
  {
    var m := Mask(w);
    ClusterCoded(Prepare(w), k);
    if Decode(m).Success? {
      var i :| 0 <= i < |m| && m[i] == CodeChar(k);
      assert Get(m[i]) == Some(AllRules[k]) by {
        IndexsetLayout();
        GetCode(k);
      }
      assert Decode(m).value[i] == AllRules[k].ipa;
    }
  }
}
