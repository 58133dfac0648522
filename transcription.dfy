/** The transcriber's stages as functions of the word: what each `PhonemaGenerator` method
    leaves in `word`, and what `get_transcription` returns. */
module Transcription {
  import opened Wrappers
  import opened Strings
  import opened Tables

  /** The two ways a transcription fails. */
  datatype Error =
    | WrongCharset          // the validator's `ValueError('Wrong charset')`
    | UnmappedCode(c: char) // a mask character without an entry: `.get` gives None, unpacking fails

  // ---------------------------------------------------------------------------
  // format_word: validation

  /** The upper-case and lower-case letters of the validator's character class. */
  const UpperLetters: set<char> :=
    {'А', 'Б', 'В', 'Г', 'Ґ', 'Д', 'Е', 'Є', 'Ж', 'З', 'И', 'І', 'Ї', 'Й', 'К', 'Л', 'М',
     'Н', 'О', 'П', 'Р', 'С', 'Т', 'У', 'Ф', 'Х', 'Ц', 'Ч', 'Ш', 'Щ', 'Ь', 'Ю', 'Я'}
  const LowerLetters: set<char> :=
    {'а', 'б', 'в', 'г', 'ґ', 'д', 'е', 'є', 'ж', 'з', 'и', 'і', 'ї', 'й', 'к', 'л', 'м',
     'н', 'о', 'п', 'р', 'с', 'т', 'у', 'ф', 'х', 'ц', 'ч', 'ш', 'щ', 'ь', 'ю', 'я'}

  /** A member of the validator's character class. */
  predicate InCharset(c: char) {
    c in UpperLetters || c in LowerLetters || c == '\'' || c == '"' || c == Apostrophe
  }

  predicate AllInCharset(s: string) {
    forall i :: 0 <= i < |s| ==> InCharset(s[i])
  }

  /** `re.match('^[...]+$', w)`: one or more class characters up to the end of `w`,
      where `$` also matches just before one trailing newline. */
  predicate Matches(w: string) {
    (|w| > 0 && AllInCharset(w)) || (|w| > 1 && w[|w| - 1] == '\n' && AllInCharset(w[..|w| - 1]))
  }

  /** The class characters a matching word consists of: `w` without its trailing newline. */
  function Body(w: string): string
    requires |w| > 0
  {
    if w[|w| - 1] == '\n' then w[..|w| - 1] else w
  }

  // ---------------------------------------------------------------------------
  // format_word: normalisation

  /** `str.isspace` for one character. */
  predicate IsSpace(c: char) {
    c in {'\t', '\n', '\U{000B}', '\U{000C}', '\r', '\U{001C}', '\U{001D}', '\U{001E}', '\U{001F}',
          ' ', '\U{0085}', '\U{00A0}', '\U{1680}', '\U{2000}', '\U{2001}', '\U{2002}', '\U{2003}',
          '\U{2004}', '\U{2005}', '\U{2006}', '\U{2007}', '\U{2008}', '\U{2009}', '\U{200A}',
          '\U{2028}', '\U{2029}', '\U{202F}', '\U{205F}', '\U{3000}'}
  }

  function StripLeft(s: string): string
    decreases |s|
  {
    if s != [] && IsSpace(s[0]) then StripLeft(s[1..]) else s
  }

  function StripRight(s: string): string
    decreases |s|
  {
    if s != [] && IsSpace(s[|s| - 1]) then StripRight(s[..|s| - 1]) else s
  }

  /** `s.strip()`. */
  function Strip(s: string): string {
    StripRight(StripLeft(s))
  }

  /** `str.lower` on one character of the Cyrillic block: А..Я (U+0410..U+042F) move down
      by 0x20, Ѐ..Џ (U+0400..U+040F, among them Є, І, Ї) by 0x50, and Ґ becomes ґ. */
  function LowerChar(c: char): char {
    if 0x410 <= c as int <= 0x42F then (c as int + 0x20) as char
    else if 0x400 <= c as int <= 0x40F then (c as int + 0x50) as char
    else if c == 'Ґ' then 'ґ'
    else c
  }

  /** `s.lower()`. */
  function Lower(s: string): (r: string)
    ensures |r| == |s|
    ensures forall i :: 0 <= i < |s| ==> r[i] == LowerChar(s[i])
  {
    if s == [] then [] else [LowerChar(s[0])] + Lower(s[1..])
  }

  /** The two `replace` calls that turn `'` and `"` into the modifier-letter apostrophe. */
  function UnifyApostrophes(s: string): string {
    Replace(Replace(s, "'", [Apostrophe]), "\"", [Apostrophe])
  }

  /** `format_word` on a word the validator accepted (its punctuation loop removes nothing). */
  function Normalize(w: string): string {
    UnifyApostrophes(Lower(Strip(w)))
  }

  /** The alphabet of a normalised word: lower-case letters and the modifier-letter apostrophe. */
  predicate IsFormatted(s: string) {
    forall i :: 0 <= i < |s| ==> s[i] in LowerLetters || s[i] == Apostrophe
  }

  /** What normalisation makes of one character of the class. */
  function NormalChar(c: char): char {
    if c == '\'' || c == '"' then Apostrophe else LowerChar(c)
  }

  /** `string.punctuation`. */
  const Punctuation: string := "!\"#$%&'()*+,-./:;<=>?@[\\]^_`{|}~"

  /** The letters of the class are in the Cyrillic block. */
  lemma LettersCyrillic(c: char)
    requires c in UpperLetters || c in LowerLetters
    ensures 0x400 <= c as int <= 0x4FF
  {
  }

  lemma CharsetNotSpace(c: char)
    requires InCharset(c)
    ensures !IsSpace(c)
  {
    if c in UpperLetters || c in LowerLetters {
      LettersCyrillic(c);
    }
  }

  /** On a matching word, `strip` removes exactly the trailing newline `$` let through. */
  lemma StripMatching(w: string)
    requires Matches(w)
    ensures Strip(w) == Body(w)
  {
    var b := Body(w);
    assert |b| > 0 && AllInCharset(b);
    assert InCharset(b[0]) && InCharset(b[|b| - 1]);
    CharsetNotSpace(b[0]);
    CharsetNotSpace(b[|b| - 1]);
    assert w[0] == b[0];
    assert StripLeft(w) == w;
    assert StripRight(b) == b;
    if w[|w| - 1] == '\n' {
      assert IsSpace('\n');
      assert w[..|w| - 1] == b;
    }
  }

  /** Lower-casing maps the class into the normalised alphabet: upper-case letters become
      their lower-case letters, everything else in the class stays. */
  lemma NormalCharFormatted(c: char)
    requires InCharset(c)
    ensures NormalChar(c) in LowerLetters || NormalChar(c) == Apostrophe
    ensures c in LowerLetters || c == Apostrophe ==> NormalChar(c) == c
  {
    if c in UpperLetters {
      UpperToLower(c);
    } else if c in LowerLetters {
      LowerFixed(c);
    }
  }

  lemma UpperToLower(c: char)
    requires c in UpperLetters
    ensures LowerChar(c) in LowerLetters
  {
  }

  lemma LowerFixed(c: char)
    requires c in LowerLetters
    ensures LowerChar(c) == c
  {
  }

  /** Normalisation works character by character and yields a lower-case word whose only
      apostrophe is the modifier letter. */
  lemma NormalizeFormatted(w: string)
    requires Matches(w)
    ensures |Normalize(w)| == |Body(w)|
    ensures forall i :: 0 <= i < |Body(w)| ==> Normalize(w)[i] == NormalChar(Body(w)[i])
    ensures IsFormatted(Normalize(w))
  {
    StripMatching(w);
    var b := Body(w);
    var l := Lower(b);
    ReplaceSingle(l, '\'', [Apostrophe]);
    var q := Subst(l, '\'', [Apostrophe]);
    ReplaceSingle(q, '"', [Apostrophe]);
    assert Normalize(w) == Subst(q, '"', [Apostrophe]);
    SubstLength(l, '\'', [Apostrophe]);
    SubstLength(q, '"', [Apostrophe]);
    forall i | 0 <= i < |b|
      ensures Normalize(w)[i] == NormalChar(b[i])
      ensures Normalize(w)[i] in LowerLetters || Normalize(w)[i] == Apostrophe
    {
      SubstOneAt(l, '\'', Apostrophe, i);
      SubstOneAt(q, '"', Apostrophe, i);
      assert InCharset(b[i]);
      NormalCharFormatted(b[i]);
    }
  }

  lemma PunctuationAscii(p: char)
    requires p in Punctuation
    ensures p as int < 128
  {
  }

  /** No punctuation character survives in a normalised word, so the `string.punctuation`
      loop of `format_word` leaves it unchanged. */
  lemma PunctuationAbsent(s: string, p: char)
    requires IsFormatted(s) && p in Punctuation
    ensures Replace(s, [p], []) == s
  {
    PunctuationAscii(p);
    assert p !in s by {
      forall i | 0 <= i < |s|
        ensures s[i] != p
      {
        if s[i] in LowerLetters {
          LettersCyrillic(s[i]);
        }
      }
    }
    ReplaceSingle(s, p, []);
    SubstAbsent(s, p, []);
  }

  // ---------------------------------------------------------------------------
  // find_and_remove_accent

  /** What `find_and_remove_accent` leaves in the word: every accent removed. */
  function RemoveAccent(s: string): string {
    Replace(s, [Accent], [])
  }

  /** Every accent goes, and the other characters stay in order. */
  lemma RemoveAccentSpec(s: string)
    ensures RemoveAccent(s) == Subst(s, Accent, [])
    ensures Accent !in RemoveAccent(s)
    ensures |RemoveAccent(s)| == |s| - Count(Accent, s)
  {
    ReplaceSingle(s, Accent, []);
    SubstRemoves(s, Accent, []);
    SubstLength(s, Accent, []);
  }

  /** The accent is not in the validator's class, so a normalised word has none:
      `find` reports -1 and the removal changes nothing. */
  lemma FormattedHasNoAccent(s: string)
    requires IsFormatted(s)
    ensures Find(s, Accent) == -1
    ensures RemoveAccent(s) == s
  {
    assert Accent !in s by {
      forall i | 0 <= i < |s|
        ensures s[i] != Accent
      {
        if s[i] in LowerLetters {
          LettersCyrillic(s[i]);
        }
      }
    }
    ReplaceSingle(s, Accent, []);
    SubstAbsent(s, Accent, []);
  }

  // ---------------------------------------------------------------------------
  // replace_complex_consonants

  /** The loop over `dict.items()` replacing each key by its value, in order. */
  function ReplaceItems(s: string, items: seq<(char, string)>): string
    decreases |items|
  {
    if items == [] then s
    else
      var last := items[|items| - 1];
      Replace(ReplaceItems(s, items[..|items| - 1]), [last.0], last.1)
  }

  function ExpandComplexConsonants(s: string): string {
    ReplaceItems(s, ComplexConsonants)
  }

  /** Each щ becomes шч, the other characters stay in order, no щ is left, and the word
      grows by one character per щ. */
  lemma ExpandComplexConsonantsSpec(s: string)
    ensures ExpandComplexConsonants(s) == Subst(s, 'щ', "шч")
    ensures 'щ' !in ExpandComplexConsonants(s)
    ensures |ExpandComplexConsonants(s)| == |s| + Count('щ', s)
  {
    assert ComplexConsonants[..0] == [];
    ReplaceSingle(s, 'щ', "шч");
    SubstRemoves(s, 'щ', "шч");
    SubstLength(s, 'щ', "шч");
  }

  // ---------------------------------------------------------------------------
  // replace_complex_vowels

  predicate IsIotated(c: char) {
    ComplexVowelForms(c).Some?
  }

  /** The vowel an iotated vowel letter contains. */
  function PlainVowel(c: char): char {
    match c
    case 'я' => 'а'
    case 'ю' => 'у'
    case 'є' => 'е'
    case _ => 'і'
  }

  /** What the loop of `replace_complex_vowels` appends for position `i`: the character
      itself, or one of the two forms of an iotated vowel, chosen by the character before it. */
  function Expansion(s: string, i: nat): string
    requires i < |s|
  {
    match ComplexVowelForms(s[i])
    case None => [s[i]]
    case Some(forms) => if i >= 1 && s[i - 1] in AllConsonants then forms.1 else forms.0
  }

  /** The string the loop has built after its first `n` iterations. */
  function Resolved(s: string, n: nat): string
    requires n <= |s|
  {
    if n == 0 then [] else Resolved(s, n - 1) + Expansion(s, n - 1)
  }

  /** What `replace_complex_vowels` leaves in the word. */
  function ResolveVowels(s: string): string {
    Replace(Resolved(s, |s|), [Apostrophe], [])
  }

  /** Number of iotated vowels in `s`. */
  function IotatedCount(s: string): nat {
    if s == [] then 0 else IotatedCount(s[..|s| - 1]) + (if IsIotated(s[|s| - 1]) then 1 else 0)
  }

  /** Every iotated vowel becomes two characters, every other character one. */
  lemma {:induction false} ResolvedLength(s: string, n: nat)
    requires n <= |s|
    ensures |Resolved(s, n)| == n + IotatedCount(s[..n])
  {
    if n > 0 {
      ResolvedLength(s, n - 1);
      assert s[..n][..n - 1] == s[..n - 1];
    }
  }

  /** What the first `m` iterations built is never changed by later ones. */
  lemma {:induction false} ResolvedPrefix(s: string, m: nat, n: nat)
    requires m <= n <= |s|
    ensures IsPrefix(Resolved(s, m), Resolved(s, n))
    decreases n - m
  {
    if m < n {
      ResolvedPrefix(s, m, n - 1);
    }
  }

  /** The context rule, position by position. Character `i` of the input lands where the
      output of the first `i` iterations ends, which is offset `i` plus the number of iotated
      vowels before it (`ResolvedLength`). A non-iotated character is copied.
      я, ю and є become ь and their vowel when the character before them in the input is a
      consonant, and й and their vowel otherwise (at the start, after a vowel, й, ь or the
      apostrophe). ї always becomes йі. */
  lemma ResolvedAt(s: string, i: nat)
    requires i < |s|
    ensures var r, o := Resolved(s, |s|), |Resolved(s, i)|;
      && o < |r|
      && (!IsIotated(s[i]) ==> r[o] == s[i])
      && (IsIotated(s[i]) ==> o + 1 < |r| && r[o + 1] == PlainVowel(s[i]))
      && (s[i] in {'я', 'ю', 'є'} ==>
            r[o] == if i >= 1 && s[i - 1] in AllConsonants then SoftSign else 'й')
      && (s[i] == 'ї' ==> r[o] == 'й')
  {
    var r, e := Resolved(s, |s|), Expansion(s, i);
    var o := |Resolved(s, i)|;
    assert |e| >= 1 && (!IsIotated(s[i]) ==> e[0] == s[i])
      && (IsIotated(s[i]) ==> |e| == 2 && e[1] == PlainVowel(s[i]))
      && (s[i] in {'я', 'ю', 'є'} ==> e[0] == if i >= 1 && s[i - 1] in AllConsonants then SoftSign else 'й')
      && (s[i] == 'ї' ==> e[0] == 'й') by {
      ExpansionForms(s, i);
    }
    assert o + |e| <= |r| && r[o] == e[0] && (|e| >= 2 ==> r[o + 1] == e[1]) by {
      ExpansionInResult(s, i);
      SliceHead(r, o, e);
    }
  }

  /** The expansion of position `i` sits in the result right after what the first `i`
      iterations built. */
  lemma ExpansionInResult(s: string, i: nat)
    requires i < |s|
    ensures var r, o, e := Resolved(s, |s|), |Resolved(s, i)|, Expansion(s, i);
      o + |e| <= |r| && r[o..o + |e|] == e
  {
    ResolvedPrefix(s, i + 1, |s|);
    assert Resolved(s, i + 1) == Resolved(s, i) + Expansion(s, i);
    PrefixSlice(Resolved(s, i), Expansion(s, i), Resolved(s, |s|));
  }

  /** The forms `Expansion` chooses between. */
  lemma ExpansionForms(s: string, i: nat)
    requires i < |s|
    ensures var e := Expansion(s, i);
      && (!IsIotated(s[i]) ==> e == [s[i]])
      && (IsIotated(s[i]) ==> |e| == 2 && e[1] == PlainVowel(s[i]))
      && (s[i] in {'я', 'ю', 'є'} ==>
            e[0] == if i >= 1 && s[i - 1] in AllConsonants then SoftSign else 'й')
      && (s[i] == 'ї' ==> e[0] == 'й')
  {
  }

  /** Every character the loop emits is an input character that is not an iotated vowel,
      or part of an iotated vowel's form. */
  lemma {:induction false} ResolvedChars(s: string, n: nat, x: char)
    requires n <= |s| && x in Resolved(s, n)
    ensures (x in s && !IsIotated(x)) || x in {'й', 'ь', 'а', 'у', 'е', 'і'}
  {
    if x !in Expansion(s, n - 1) {
      ResolvedChars(s, n - 1, x);
    }
  }

  /** After the vowel pass no я, ю, є, ї or apostrophe is left. */
  lemma ResolveVowelsClean(s: string, x: char)
    requires x in ResolveVowels(s)
    ensures !IsIotated(x) && x != Apostrophe
    ensures x in s || x in {'й', 'ь', 'а', 'у', 'е', 'і'}
  {
    var r := Resolved(s, |s|);
    ReplaceSingle(r, Apostrophe, []);
    SubstChars(r, Apostrophe, [], x);
    ResolvedChars(s, |s|, x);
  }

  // ---------------------------------------------------------------------------
  // generate_transcription: the mask

  /** The mask after the first `n` entries of an index set: each entry replaces every
      occurrence of its rule's pattern by its code. */
  function EncodeWith(entries: seq<(char, Rule)>, s: string, n: nat): string
    requires n <= |entries|
  {
    if n == 0 then s
    else Replace(EncodeWith(entries, s, n - 1), entries[n - 1].1.pattern, [entries[n - 1].0])
  }

  /** One more entry of the index set: the mask so far with that entry's pattern replaced
      by its code. */
  lemma EncodeStep(entries: seq<(char, Rule)>, s: string, k: nat)
    requires k < |entries|
    ensures EncodeWith(entries, s, k + 1)
      == Replace(EncodeWith(entries, s, k), entries[k].1.pattern, [entries[k].0])
  {
  }

  /** The phoneme mask: all 61 rules of the index set applied in order. */
  function Encode(s: string): string {
    EncodeWith(Indexset, s, |Indexset|)
  }

  /** Every code of an index set is ASCII. */
  predicate AsciiCodes(entries: seq<(char, Rule)>) {
    forall j :: 0 <= j < |entries| ==> entries[j].0 as int < 128
  }

  /** No code occurs in any pattern: codes are ASCII, patterns Cyrillic. */
  lemma CodeNotInPattern(c: char, p: Pattern)
    requires c as int < 128
    ensures c !in p
  {
  }

  lemma IndexsetAscii()
    ensures AsciiCodes(Indexset)
  {
    forall j | 0 <= j < |Indexset|
      ensures Indexset[j].0 as int < 128
    {
      GetCode(j);
    }
  }

  /** The mask is never longer than the word. */
  lemma {:induction false} EncodeNotLonger(entries: seq<(char, Rule)>, s: string, n: nat)
    requires n <= |entries|
    ensures |EncodeWith(entries, s, n)| <= |s|
  {
    if n > 0 {
      EncodeNotLonger(entries, s, n - 1);
      ReplaceNotLonger(EncodeWith(entries, s, n - 1), entries[n - 1].1.pattern, [entries[n - 1].0]);
    }
  }

  /** Every mask character is a character of the word or the code of an entry applied. */
  lemma {:induction false} EncodeChars(entries: seq<(char, Rule)>, s: string, n: nat, x: char)
    requires n <= |entries|
    requires x in EncodeWith(entries, s, n)
    ensures x in s || exists k :: 0 <= k < n && entries[k].0 == x
  {
    if n > 0 {
      var prev := EncodeWith(entries, s, n - 1);
      ReplaceChars(prev, entries[n - 1].1.pattern, [entries[n - 1].0], x);
      if x in prev {
        EncodeChars(entries, s, n - 1, x);
      }
    }
  }

  /** Every applied rule's pattern is used up for good: once the first `n` rules have run,
      none of their patterns occurs in the mask any more. Each rule consumes all of its own
      occurrences, and a later rule only inserts an ASCII code, which cannot join with
      Cyrillic letters into an earlier pattern. This is priority by rule order, not a
      longest match at each position: an earlier rule wins wherever it occurs in the word. */
  lemma {:induction false} EncodeNoPattern(entries: seq<(char, Rule)>, s: string, n: nat, k: nat)
    requires AsciiCodes(entries) && k < n <= |entries|
    ensures !Occurs(entries[k].1.pattern, EncodeWith(entries, s, n))
  {
    var prev := EncodeWith(entries, s, n - 1);
    var code, pat := entries[n - 1].0, entries[n - 1].1.pattern;
    CodeNotInPattern(code, pat);
    if k == n - 1 {
      ReplaceRemovesPattern(prev, pat, code);
    } else {
      EncodeNoPattern(entries, s, n - 1, k);
      CodeNotInPattern(code, entries[k].1.pattern);
      ReplaceKeepsAbsent(prev, pat, code, entries[k].1.pattern);
    }
  }

  // ---------------------------------------------------------------------------
  // The mask read back as letters

  /** A mask character read back as the letters it stands for under a table of entries. */
  function UnmaskChar(entries: seq<(char, Rule)>, c: char): string {
    match Lookup(entries, c)
    case Some(rule) => rule.pattern
    case None => [c]
  }

  /** A mask read back under a table of entries: each code becomes its rule's pattern. */
  function UnmaskWith(entries: seq<(char, Rule)>, m: string): string {
    if m == [] then [] else UnmaskChar(entries, m[0]) + UnmaskWith(entries, m[1..])
  }

  /** The mask read back as letters under the index set. */
  function Unmask(m: string): string {
    UnmaskWith(Indexset, m)
  }

  lemma {:induction false} UnmaskConcat(entries: seq<(char, Rule)>, a: string, b: string)
    ensures UnmaskWith(entries, a + b) == UnmaskWith(entries, a) + UnmaskWith(entries, b)
  {
    if a == [] {
      assert a + b == b;
    } else {
      var ab := a + b;
      assert ab[0] == a[0];
      assert ab[1..] == a[1..] + b;
      UnmaskConcat(entries, a[1..], b);
      calc {
        UnmaskWith(entries, ab);
        UnmaskChar(entries, a[0]) + UnmaskWith(entries, a[1..] + b);
        UnmaskChar(entries, a[0]) + (UnmaskWith(entries, a[1..]) + UnmaskWith(entries, b));
      }
    }
  }

  /** A string without codes reads back as itself. */
  lemma {:induction false} UnmaskPlain(entries: seq<(char, Rule)>, s: string)
    requires forall i :: 0 <= i < |s| ==> Lookup(entries, s[i]).None?
    ensures UnmaskWith(entries, s) == s
  {
    if s != [] {
      UnmaskPlain(entries, s[1..]);
    }
  }

  /** A pattern has no codes in it, so it reads back as itself. */
  lemma UnmaskPattern(entries: seq<(char, Rule)>, p: Pattern)
    requires AsciiCodes(entries)
    ensures UnmaskWith(entries, p) == p
  {
    forall i | 0 <= i < |p|
      ensures Lookup(entries, p[i]).None?
    {
      forall k | 0 <= k < |entries|
        ensures entries[k].0 != p[i]
      {
        CodeNotInPattern(entries[k].0, p);
      }
    }
    UnmaskPlain(entries, p);
  }

  /** Replacing a pattern by a character that reads back as that pattern does not change
      what the string reads back as. */
  lemma {:induction false} UnmaskReplaceBy(entries: seq<(char, Rule)>, s: string, pat: string, code: char)
    requires |pat| > 0 && UnmaskWith(entries, [code]) == pat && UnmaskWith(entries, pat) == pat
    ensures UnmaskWith(entries, Replace(s, pat, [code])) == UnmaskWith(entries, s)
    decreases |s|
  {
    if |s| >= |pat| {
      if s[..|pat|] == pat {
        var rest := Replace(s[|pat|..], pat, [code]);
        UnmaskReplaceBy(entries, s[|pat|..], pat, code);
        UnmaskConcat(entries, [code], rest);
        UnmaskConcat(entries, pat, s[|pat|..]);
        assert s == pat + s[|pat|..];
      } else {
        var rest := Replace(s[1..], pat, [code]);
        UnmaskReplaceBy(entries, s[1..], pat, code);
        UnmaskConcat(entries, [s[0]], rest);
        UnmaskConcat(entries, [s[0]], s[1..]);
        assert s == [s[0]] + s[1..];
      }
    }
  }

  /** A code reads back as its rule's pattern. */
  lemma UnmaskCode(k: nat)
    requires k < |Indexset|
    ensures Unmask([Indexset[k].0]) == Indexset[k].1.pattern
  {
    var (c, rule) := Indexset[k];
    assert Lookup(Indexset, c) == Some(rule) by {
      IndexsetLayout();
      GetCode(k);
    }
    assert [c][1..] == [];
    assert UnmaskWith(Indexset, [c]) == UnmaskChar(Indexset, c) + UnmaskWith(Indexset, []);
  }

  /** Every code of a table reads back, under that table, as its rule's pattern. */
  predicate CodesReadBack(entries: seq<(char, Rule)>) {
    forall j :: 0 <= j < |entries| ==> CodeReadsBack(entries, j)
  }

  /** Entry `j`'s code reads back as its rule's pattern. */
  predicate CodeReadsBack(entries: seq<(char, Rule)>, j: nat)
    requires j < |entries|
  {
    UnmaskWith(entries, [entries[j].0]) == entries[j].1.pattern
  }

  lemma IndexsetReadsBack()
    ensures CodesReadBack(Indexset)
  {
    forall j | 0 <= j < |Indexset|
      ensures CodeReadsBack(Indexset, j)
    {
      UnmaskCode(j);
    }
  }

  /** The mask is a lossless segmentation: read back, it gives the word it was made from. */
  lemma {:induction false} EncodeLossless(entries: seq<(char, Rule)>, s: string, n: nat)
    requires CodesReadBack(entries) && AsciiCodes(entries) && n <= |entries|
    ensures UnmaskWith(entries, EncodeWith(entries, s, n)) == UnmaskWith(entries, s)
  {
    if n > 0 {
      EncodeLossless(entries, s, n - 1);
      EncodeStep(entries, s, n - 1);
      ReplaceLossless(entries, EncodeWith(entries, s, n - 1), n - 1);
    }
  }

  /** One rule of a table whose codes read back loses nothing. */
  lemma ReplaceLossless(entries: seq<(char, Rule)>, s: string, k: nat)
    requires CodesReadBack(entries) && AsciiCodes(entries) && k < |entries|
    ensures UnmaskWith(entries, Replace(s, entries[k].1.pattern, [entries[k].0])) == UnmaskWith(entries, s)
  {
    var code, pat := entries[k].0, entries[k].1.pattern;
    assert CodeReadsBack(entries, k);
    UnmaskPattern(entries, pat);
    UnmaskReplaceBy(entries, s, pat, code);
  }

  /** For a word without codes: reading the mask back gives the word. */
  lemma EncodeRoundTrip(s: string)
    requires forall i :: 0 <= i < |s| ==> Get(s[i]).None?
    ensures Unmask(Encode(s)) == s
  {
    IndexsetReadsBack();
    IndexsetAscii();
    EncodeLossless(Indexset, s, |Indexset|);
    UnmaskPlain(Indexset, s);
  }

  // ---------------------------------------------------------------------------
  // generate_transcription: decoding

  /** The second loop: the IPA string of each mask character, in order. It fails at the
      first character without an entry. */
  function Decode(m: string): (r: Result<seq<string>, Error>)
    ensures r.Success? <==> forall i :: 0 <= i < |m| ==> Get(m[i]).Some?
    ensures r.Success? ==>
      |r.value| == |m| && forall i :: 0 <= i < |m| ==> r.value[i] == Get(m[i]).value.ipa
    ensures r.Failure? ==>
      exists i :: 0 <= i < |m| && Get(m[i]).None? && r.error == UnmappedCode(m[i])
        && forall j :: 0 <= j < i ==> Get(m[j]).Some?
  {
    DecodeWith(Indexset, m)
  }

  /** The decoding loop against a table of entries given as a parameter. */
  function DecodeWith(entries: seq<(char, Rule)>, m: string): (r: Result<seq<string>, Error>)
    ensures r.Success? <==> forall i :: 0 <= i < |m| ==> Lookup(entries, m[i]).Some?
    ensures r.Success? ==>
      |r.value| == |m| && forall i :: 0 <= i < |m| ==> r.value[i] == Lookup(entries, m[i]).value.ipa
    ensures r.Failure? ==>
      exists i :: 0 <= i < |m| && Lookup(entries, m[i]).None? && r.error == UnmappedCode(m[i])
        && forall j :: 0 <= j < i ==> Lookup(entries, m[j]).Some?
  {
    if m == [] then Success([])
    else
      var init, last := m[..|m| - 1], m[|m| - 1];
      assert forall i :: 0 <= i < |init| ==> init[i] == m[i];
      match DecodeWith(entries, init)
      case Failure(e) => Failure(e)
      case Success(parts) =>
        match Lookup(entries, last)
        case None => Failure(UnmappedCode(last))
        case Some(rule) =>
          var r := parts + [rule.ipa];
          assert forall i :: 0 <= i < |init| ==> r[i] == parts[i];
          Success(r)
  }

  /** Decoding stops at the first character without an entry and reports that character. */
  lemma {:induction false} DecodeStopsAt(m: string, i: nat)
    requires i < |m| && Get(m[i]).None?
    requires forall j :: 0 <= j < i ==> Get(m[j]).Some?
    ensures Decode(m) == Failure(UnmappedCode(m[i]))
    decreases |m|
  {
    var init := m[..|m| - 1];
    if i < |m| - 1 {
      DecodeStopsAt(init, i);
    } else {
      assert forall j :: 0 <= j < |init| ==> init[j] == m[j];
      assert Decode(init).Success?;
    }
  }

  /** Decoding a prefix one character further: a successful prefix grows by that
      character's IPA string. */
  lemma DecodeExtend(m: string, i: nat, parts: seq<string>)
    requires i < |m| && Decode(m[..i]) == Success(parts) && Get(m[i]).Some?
    ensures Decode(m[..i + 1]) == Success(parts + [Get(m[i]).value.ipa])
  {
    DecodeWithExtend(Indexset, m, i, parts);
  }

  lemma DecodeWithExtend(entries: seq<(char, Rule)>, m: string, i: nat, parts: seq<string>)
    requires i < |m| && DecodeWith(entries, m[..i]) == Success(parts) && Lookup(entries, m[i]).Some?
    ensures DecodeWith(entries, m[..i + 1]) == Success(parts + [Lookup(entries, m[i]).value.ipa])
  {
    var p := m[..i + 1];
    assert p[..|p| - 1] == m[..i];
    assert p[|p| - 1] == m[i];
  }

  /** After a successful prefix, a character without an entry is where decoding fails. */
  lemma DecodeFailsAt(m: string, i: nat, parts: seq<string>)
    requires i < |m| && Decode(m[..i]) == Success(parts) && Get(m[i]).None?
    ensures Decode(m) == Failure(UnmappedCode(m[i]))
  {
    forall j | 0 <= j < i
      ensures Get(m[j]).Some?
    {
      assert m[..i][j] == m[j];
    }
    DecodeStopsAt(m, i);
  }

  // ---------------------------------------------------------------------------
  // get_transcription: the whole pipeline

  /** The letters a prepared word is made of: the lower-case letters other than щ and the
      iotated vowels. */
  const PlainLetters: set<char> := LowerLetters - {'щ', 'я', 'ю', 'є', 'ї'}

  /** The rule whose pattern is the single letter `x` (every plain letter but ь has one). */
  function OneLetterRule(x: char): (k: nat)
    requires x in PlainLetters - {SoftSign}
    ensures 33 <= k < |AllRules| && AllRules[k].pattern == [x]
  {
    match x
    case 'а' => 55
    case 'б' => 35
    case 'в' => 43
    case 'г' => 45
    case 'ґ' => 37
    case 'д' => 36
    case 'е' => 56
    case 'ж' => 47
    case 'з' => 46
    case 'и' => 60
    case 'і' => 57
    case 'й' => 54
    case 'к' => 42
    case 'л' => 52
    case 'м' => 33
    case 'н' => 34
    case 'о' => 59
    case 'п' => 38
    case 'р' => 53
    case 'с' => 49
    case 'т' => 39
    case 'у' => 58
    case 'ф' => 48
    case 'х' => 51
    case 'ц' => 40
    case 'ч' => 41
    case 'ш' => 50
  }

  /** The word as `make` hands it to `generate_transcription`. */
  function Prepare(w: string): string {
    ResolveVowels(ExpandComplexConsonants(RemoveAccent(Normalize(w))))
  }

  /** The phoneme mask `generate_transcription` builds for `w`. */
  function Mask(w: string): string {
    Encode(Prepare(w))
  }

  /** `get_transcription(w)`: the IPA strings of the mask characters, joined with no
      separator and wrapped in brackets, or the exception the pipeline raises. */
  function Transcribe(w: string): Result<string, Error> {
    if !Matches(w) then Failure(WrongCharset)
    else
      match Decode(Mask(w))
      case Failure(e) => Failure(e)
      case Success(parts) => Success("[" + Concat(parts) + "]")
  }

  /** A prepared word consists of plain letters only: no upper case, no apostrophe, no щ,
      no iotated vowel. */
  lemma PrepareAlphabet(w: string, x: char)
    requires Matches(w) && x in Prepare(w)
    ensures x in PlainLetters
  {
    var n := Normalize(w);
    NormalizeFormatted(w);
    FormattedHasNoAccent(n);
    ExpandResolveAlphabet(n, x);
  }

  /** The consonant and vowel stages map a normalised word into the plain letters. */
  lemma ExpandResolveAlphabet(n: string, x: char)
    requires IsFormatted(n) && x in ResolveVowels(ExpandComplexConsonants(n))
    ensures x in PlainLetters
  {
    var e := ExpandComplexConsonants(n);
    ExpandComplexConsonantsSpec(n);
    ResolveVowelsClean(e, x);
    IotatedLetters(x);
    if x in e {
      SubstChars(n, 'щ', "шч", x);
      if x in n {
        var i :| 0 <= i < |n| && n[i] == x;
        assert x in LowerLetters;
      }
    }
  }

  lemma IotatedLetters(c: char)
    ensures IsIotated(c) <==> c in {'я', 'ю', 'є', 'ї'}
  {
  }

  /** No plain letter other than ь survives encoding: each has a one-letter rule, and no
      rule's pattern occurs in the mask. */
  lemma PlainLetterEncoded(s: string, x: char)
    requires x in PlainLetters - {SoftSign}
    ensures x !in Encode(s)
  {
    var k := OneLetterRule(x);
    IndexsetLayout();
    IndexsetAscii();
    EncodeNoPattern(Indexset, s, |Indexset|, k);
    CharOccurs(x, Encode(s));
  }

  /** Every character of the mask of an accepted word is a code, or a soft sign that no
      rule consumed. */
  lemma MaskAlphabet(w: string, x: char)
    requires Matches(w) && x in Mask(w)
    ensures Get(x).Some? || x == SoftSign
  {
    EncodeChars(Indexset, Prepare(w), |Indexset|, x);
    if x !in Prepare(w) {
      var k :| 0 <= k < |Indexset| && Indexset[k].0 == x;
      GetCode(k);
    } else if Get(x).None? && x != SoftSign {
      PrepareAlphabet(w, x);
      PlainLetterEncoded(Prepare(w), x);
    }
  }

  /** Decoding the mask of an accepted word fails exactly when a soft sign is left in it
      (a word starting with ь, or ь after a vowel, й or дж), and then it fails on that ь. */
  lemma DecodeMask(w: string)
    requires Matches(w)
    ensures Decode(Mask(w)).Failure? <==> SoftSign in Mask(w)
    ensures Decode(Mask(w)).Failure? ==> Decode(Mask(w)).error == UnmappedCode(SoftSign)
  {
    var m := Mask(w);
    CodesAreAscii(SoftSign);
    forall i | 0 <= i < |m|
      ensures Get(m[i]).Some? || m[i] == SoftSign
    {
      MaskAlphabet(w, m[i]);
    }
  }

  /** The rules the characters of an all-code mask stand for. */
  function MaskRules(m: string): (rs: seq<Rule>)
    requires forall i :: 0 <= i < |m| ==> Get(m[i]).Some?
    ensures |rs| == |m|
    ensures forall i :: 0 <= i < |m| ==> Get(m[i]) == Some(rs[i])
  {
    if m == [] then [] else [Get(m[0]).value] + MaskRules(m[1..])
  }

  /** The patterns of `rs`, joined. */
  function Patterns(rs: seq<Rule>): string {
    if rs == [] then [] else rs[0].pattern + Patterns(rs[1..])
  }

  /** The IPA strings of `rs`, in order. */
  function Ipas(rs: seq<Rule>): (r: seq<string>)
    ensures |r| == |rs| && forall i :: 0 <= i < |rs| ==> r[i] == rs[i].ipa
  {
    if rs == [] then [] else [rs[0].ipa] + Ipas(rs[1..])
  }

  lemma {:induction false} PatternsUnmask(m: string)
    requires forall i :: 0 <= i < |m| ==> Get(m[i]).Some?
    ensures Patterns(MaskRules(m)) == Unmask(m)
  {
    if m != [] {
      PatternsUnmask(m[1..]);
    }
  }

  /** The transcription of an accepted word is read off a segmentation of the prepared word
      into rule patterns: its IPA strings, joined and bracketed. */
  lemma TranscribeSegmentation(w: string)
    requires Transcribe(w).Success?
    ensures Decode(Mask(w)).Success?
    ensures var rs := MaskRules(Mask(w));
      && (forall i :: 0 <= i < |rs| ==> rs[i] in AllRules)
      && Patterns(rs) == Prepare(w)
      && Transcribe(w).value == "[" + Concat(Ipas(rs)) + "]"
  {
    var m := Mask(w);
    var rs := MaskRules(m);
    forall i | 0 <= i < |rs|
      ensures rs[i] in AllRules
    {
      CodesAreAscii(m[i]);
      var k :| 0 <= k < |Indexset| && Indexset[k].0 == m[i];
      GetCode(k);
    }
    PatternsUnmask(m);
    var p := Prepare(w);
    forall i | 0 <= i < |p|
      ensures Get(p[i]).None?
    {
      PrepareAlphabet(w, p[i]);
      LettersCyrillic(p[i]);
      CodesAreAscii(p[i]);
    }
    EncodeRoundTrip(p);
    assert Ipas(rs) == Decode(m).value;
  }

  /** Transcription fails with `WrongCharset` exactly on the words the validator rejects,
      and on an accepted word it fails exactly when the mask keeps a soft sign. */
  lemma TranscribeFailures(w: string)
    ensures Transcribe(w) == Failure(WrongCharset) <==> !Matches(w)
    ensures Matches(w) ==> (Transcribe(w).Failure? <==> SoftSign in Mask(w))
    ensures Matches(w) && Transcribe(w).Failure? ==> Transcribe(w) == Failure(UnmappedCode(SoftSign))
  {
    if Matches(w) {
      DecodeMask(w);
    }
  }

  // ---------------------------------------------------------------------------
  // щ and its two-letter spelling

  /** Normalisation of a class word, as a character-by-character map. */
  function NormalizeChars(s: string): (r: string)
    ensures |r| == |s| && forall i :: 0 <= i < |s| ==> r[i] == NormalChar(s[i])
  {
    if s == [] then [] else [NormalChar(s[0])] + NormalizeChars(s[1..])
  }

  lemma NormalizeCharsConcat(a: string, b: string)
    ensures NormalizeChars(a + b) == NormalizeChars(a) + NormalizeChars(b)
  {
    assert forall i :: 0 <= i < |a| ==> (a + b)[i] == a[i];
    assert forall i :: |a| <= i < |a + b| ==> (a + b)[i] == b[i - |a|];
  }

  /** The validator accepts `w` exactly when the part before a trailing newline is a
      non-empty run of class characters. */
  lemma MatchesBody(w: string)
    requires |w| > 0
    ensures Matches(w) <==> |Body(w)| > 0 && AllInCharset(Body(w))
  {
    if w[|w| - 1] == '\n' {
      assert !InCharset(w[|w| - 1]);
    }
  }

  lemma AllInCharsetConcat(a: string, b: string)
    ensures AllInCharset(a + b) <==> AllInCharset(a) && AllInCharset(b)
  {
    assert forall i :: 0 <= i < |a| ==> (a + b)[i] == a[i];
    assert forall i :: |a| <= i < |a + b| ==> (a + b)[i] == b[i - |a|];
    if AllInCharset(a + b) {
      forall i | 0 <= i < |b|
        ensures InCharset(b[i])
      {
        assert (a + b)[|a| + i] == b[i];
      }
    }
  }

  /** A word with щ transcribes exactly as the same word spelt with шч, including when
      one of them is rejected. */
  lemma DigraphEquivalence(u: string, v: string)
    ensures Transcribe(u + "щ" + v) == Transcribe(u + "шч" + v)
  {
    var w1, w2 := u + "щ" + v, u + "шч" + v;
    var v0 := DigraphBodies(u, v);
    if Matches(w1) {
      DigraphPrepare(u, v0, w1, w2);
    }
  }

  /** Both spellings keep the same tail before a trailing newline, and the validator accepts
      both or neither. */
  lemma DigraphBodies(u: string, v: string) returns (v0: string)
    ensures Body(u + "щ" + v) == u + "щ" + v0
    ensures Body(u + "шч" + v) == u + "шч" + v0
    ensures Matches(u + "щ" + v) <==> Matches(u + "шч" + v)
  {
    var w1, w2 := u + "щ" + v, u + "шч" + v;
    v0 := if |v| > 0 && v[|v| - 1] == '\n' then v[..|v| - 1] else v;
    var b1, b2 := u + "щ" + v0, u + "шч" + v0;
    if |v| > 0 && v[|v| - 1] == '\n' {
      assert w1[..|w1| - 1] == b1;
      assert w2[..|w2| - 1] == b2;
    }
    MatchesBody(w1);
    MatchesBody(w2);
    AllInCharsetConcat(u, "щ");
    AllInCharsetConcat(u + "щ", v0);
    AllInCharsetConcat(u, "шч");
    AllInCharsetConcat(u + "шч", v0);
  }

  /** On an accepted word normalisation is the character map applied to the body. */
  lemma NormalizeIsCharMap(w: string)
    requires Matches(w)
    ensures Normalize(w) == NormalizeChars(Body(w))
  {
    NormalizeFormatted(w);
  }

  lemma DigraphPrepare(u: string, v0: string, w1: string, w2: string)
    requires Matches(w1) && Matches(w2)
    requires Body(w1) == u + "щ" + v0 && Body(w2) == u + "шч" + v0
    ensures Prepare(w1) == Prepare(w2)
  {
    var n1, n2 := Normalize(w1), Normalize(w2);
    DigraphNormalize(u, v0, w1, w2);
    NormalizeFormatted(w1);
    NormalizeFormatted(w2);
    FormattedHasNoAccent(n1);
    FormattedHasNoAccent(n2);
    DigraphExpand(NormalizeChars(u), NormalizeChars(v0));
  }

  lemma DigraphNormalize(u: string, v0: string, w1: string, w2: string)
    requires Matches(w1) && Matches(w2)
    requires Body(w1) == u + "щ" + v0 && Body(w2) == u + "шч" + v0
    ensures Normalize(w1) == NormalizeChars(u) + "щ" + NormalizeChars(v0)
    ensures Normalize(w2) == NormalizeChars(u) + "шч" + NormalizeChars(v0)
  {
    NormalizeSplit(w1, u, "щ", v0);
    NormalizeSplit(w2, u, "шч", v0);
    assert NormalizeChars("щ") == "щ";
    assert NormalizeChars("шч") == "шч";
  }

  lemma NormalizeSplit(w: string, u: string, m: string, v0: string)
    requires Matches(w) && Body(w) == u + m + v0
    ensures Normalize(w) == NormalizeChars(u) + NormalizeChars(m) + NormalizeChars(v0)
  {
    NormalizeIsCharMap(w);
    NormalizeCharsConcat(u, m);
    NormalizeCharsConcat(u + m, v0);
  }

  lemma DigraphExpand(a: string, b: string)
    ensures ExpandComplexConsonants(a + "щ" + b) == ExpandComplexConsonants(a + "шч" + b)
  {
    var sa, sb := Subst(a, 'щ', "шч"), Subst(b, 'щ', "шч");
    ExpandComplexConsonantsSpec(a + "щ" + b);
    ExpandComplexConsonantsSpec(a + "шч" + b);
    SubstConcat(a + "щ", b, 'щ', "шч");
    SubstConcat(a, "щ", 'щ', "шч");
    assert Subst("щ", 'щ', "шч") == "шч";
    assert Subst(a + "щ" + b, 'щ', "шч") == sa + "шч" + sb;
    SubstConcat(a + "шч", b, 'щ', "шч");
    SubstConcat(a, "шч", 'щ', "шч");
    SubstAbsent("шч", 'щ', "шч");
    assert Subst(a + "шч" + b, 'щ', "шч") == sa + "шч" + sb;
  }

  // ---------------------------------------------------------------------------
  // A soft sign no rule can consume

  /** No rule's pattern starts with ь. */
  lemma RulesNotSoftLed()
    ensures forall k :: 0 <= k < |AllRules| ==> AllRules[k].pattern[0] != SoftSign
  {
  }

  /** A leading ь stays at the front of the mask while no pattern starts with ь. */
  lemma {:induction false} EncodeKeepsSoftHead(entries: seq<(char, Rule)>, s: string, n: nat)
    requires n <= |entries| && |s| > 0 && s[0] == SoftSign
    requires forall j :: 0 <= j < |entries| ==> entries[j].1.pattern[0] != SoftSign
    ensures |EncodeWith(entries, s, n)| > 0 && EncodeWith(entries, s, n)[0] == SoftSign
  {
    if n > 0 {
      EncodeKeepsSoftHead(entries, s, n - 1);
      ReplaceKeepsHead(EncodeWith(entries, s, n - 1), entries[n - 1].1.pattern, [entries[n - 1].0]);
    }
  }

  /** The preparation stages keep a leading ь in front. */
  lemma PrepareKeepsSoftHead(w: string)
    requires Matches(w) && Body(w)[0] == SoftSign
    ensures |Prepare(w)| > 0 && Prepare(w)[0] == SoftSign
  {
    var n := Normalize(w);
    NormalizeFormatted(w);
    LowerFixed(SoftSign);
    assert n[0] == SoftSign;
    FormattedHasNoAccent(n);
    var e := ExpandComplexConsonants(n);
    ExpandComplexConsonantsSpec(n);
    assert e == [SoftSign] + Subst(n[1..], 'щ', "шч");
    var r := Resolved(e, |e|);
    ResolvedAt(e, 0);
    assert r[0] == SoftSign;
    ReplaceKeepsHead(r, [Apostrophe], []);
  }

  /** A word whose first letter is ь is accepted by the validator but fails in decoding:
      the ь reaches the mask and has no entry. */
  lemma LeadingSoftSignFails(w: string)
    requires Matches(w) && Body(w)[0] == SoftSign
    ensures Transcribe(w) == Failure(UnmappedCode(SoftSign))
  {
    PrepareKeepsSoftHead(w);
    IndexsetLayout();
    RulesNotSoftLed();
    EncodeKeepsSoftHead(Indexset, Prepare(w), |Indexset|);
    TranscribeFailures(w);
  }

  /** The lone soft sign: accepted, then rejected by the decoder. */
  lemma SoftSignAlone()
    ensures Matches("ь") && Transcribe("ь") == Failure(UnmappedCode(SoftSign))
  {
    var w: string := "ь";
    assert InCharset(w[0]);
    LeadingSoftSignFails(w);
  }

  // ---------------------------------------------------------------------------
  // A word of apostrophes

  /** Nothing to encode: the empty word gives the empty mask. */
  lemma {:induction false} EncodeEmpty(entries: seq<(char, Rule)>, n: nat)
    requires n <= |entries|
    ensures EncodeWith(entries, [], n) == []
  {
    if n > 0 {
      EncodeEmpty(entries, n - 1);
    }
  }

  /** A lone apostrophe passes the validator, becomes ʼ, is deleted by the vowel pass and
      transcribes to empty brackets. */
  lemma ApostropheOnly()
    ensures Matches("'") && Prepare("'") == [] && Transcribe("'") == Success("[]")
  {
    ApostropheTranscription("'");
  }

  lemma ApostropheTranscription(w: string)
    requires w == "'"
    ensures Matches(w) && Prepare(w) == [] && Transcribe(w) == Success("[]")
  {
    ApostrophePrepared(w);
    assert Mask(w) == [] by {
      EncodeEmpty(Indexset, |Indexset|);
    }
    assert Decode([]) == Success([]);
    assert "[" + Concat([]) + "]" == "[]";
  }

  lemma ApostrophePrepared(w: string)
    requires |w| == 1 && w[0] == '\''
    ensures Matches(w) && Prepare(w) == []
  {
    var n: string := [Apostrophe];
    assert Matches(w) && Normalize(w) == n by {
      assert InCharset(w[0]);
      NormalizeFormatted(w);
    }
    assert RemoveAccent(n) == n by {
      FormattedHasNoAccent(n);
    }
    assert ExpandComplexConsonants(n) == n by {
      ExpandComplexConsonantsSpec(n);
      SubstAbsent(n, 'щ', "шч");
    }
    assert ResolveVowels(n) == [] by {
      assert Resolved(n, 1) == n;
      ReplaceSingle(n, Apostrophe, []);
    }
    assert Prepare(w) == ResolveVowels(ExpandComplexConsonants(RemoveAccent(Normalize(w))));
  }

  // ---------------------------------------------------------------------------
  // Examples

  /** What the validator accepts: no empty word, no Latin letter, at most one trailing
      newline. */
  lemma MatchesExamples()
    ensures !Matches("") && !Matches("\n") && !Matches("cat")
    ensures Matches("Мрія") && Matches("а\n") && !Matches("а\n\n")
  {
    var n: string := "\n";
    assert !InCharset(n[0]);
    var e: string := "cat";
    assert !InCharset(e[0]) && e[2] != '\n';
    var a: string := "Мрія";
    assert InCharset(a[0]) && InCharset(a[1]) && InCharset(a[2]) && InCharset(a[3]);
    var b: string := "а\n";
    assert b[..1] == "а";
    assert InCharset(b[0]);
    var c: string := "а\n\n";
    assert c[1] == '\n';
  }

  /** The context rule on words: я after a vowel is йа, after a consonant ьа. */
  lemma ResolveVowelsExamples()
    ensures ResolveVowels("мрія") == "мрійа"
    ensures ResolveVowels("ня") == "ньа"
  {
    AfterVowel("мрія");
    AfterConsonant("ня");
  }

  lemma AfterVowel(s: string)
    requires s == "мрія"
    ensures ResolveVowels(s) == "мрійа"
  {
    assert Resolved(s, 1) == "м";
    assert Resolved(s, 2) == "мр";
    assert Resolved(s, 3) == "мрі";
    assert Expansion(s, 3) == "йа" by {
      assert s[3] == 'я' && s[2] == 'і' && 'і' !in AllConsonants;
    }
    assert Resolved(s, 4) == "мрійа";
    ReplaceSingle("мрійа", Apostrophe, []);
  }

  lemma AfterConsonant(s: string)
    requires s == "ня"
    ensures ResolveVowels(s) == "ньа"
  {
    assert Resolved(s, 1) == "н";
    assert Expansion(s, 1) == "ьа" by {
      assert s[1] == 'я' && s[0] == 'н' && 'н' in AllConsonants;
    }
    assert Resolved(s, 2) == "ньа";
    ReplaceSingle("ньа", Apostrophe, []);
  }

  /** At the start of a word я is йа. */
  lemma InitialVowelExample()
    ensures ResolveVowels("я") == "йа"
  {
    assert Resolved("я", 1) == "йа";
    ReplaceSingle("йа", Apostrophe, []);
  }

  /** After the apostrophe я is йа, and the apostrophe itself is then deleted. */
  lemma ApostropheExample()
    ensures ResolveVowels("мʼя") == "мйа"
  {
    var s: string := "мʼя";
    assert s[1] == Apostrophe && Apostrophe !in AllConsonants;
    assert Resolved(s, 3) == "мʼйа";
    ReplaceSingle("мʼйа", Apostrophe, []);
  }
}
