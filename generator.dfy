/** `PhonemaGenerator`: the object that carries a word through the transcription stages,
    rewriting its `word` field in place, and `get_transcription`, which drives it. */
module Generator {
  import opened Wrappers
  import opened Strings
  import opened Tables
  import opened Transcription

  class PhonemaGenerator {
    /** The word as given; never changed. */
    const originWord: string
    /** The word being transcribed, rewritten by every stage. */
    var word: string
    /** The index just before the first accent, once one has been found. */
    var accentPosition: Option<int>
    /** The IPA strings of the mask, once `GenerateTranscription` has succeeded. */
    var transcription: Option<seq<string>>

    constructor (w: string)
      ensures originWord == w && word == w
      ensures accentPosition == None && transcription == None
    {
      originWord := w;
      word := w;
      accentPosition := None;
      transcription := None;
    }

    /** `make`: the four preparation stages, then the transcription. The first failing stage
        ends it and leaves the later fields as they were. */
    method Make() returns (outcome: Outcome<Error>)
      modifies this`word, this`accentPosition, this`transcription
      ensures !Matches(old(word)) ==>
        outcome == Fail(WrongCharset) && word == old(word)
        && accentPosition == old(accentPosition) && transcription == old(transcription)
      ensures Matches(old(word)) ==>
        word == Prepare(old(word)) && accentPosition == old(accentPosition)
      ensures Matches(old(word)) && Decode(Mask(old(word))).Success? ==>
        outcome == Pass && transcription == Some(Decode(Mask(old(word))).value)
      ensures Matches(old(word)) && Decode(Mask(old(word))).Failure? ==>
        outcome == Fail(Decode(Mask(old(word))).error) && transcription == old(transcription)
    {
      ghost var original := word;
      outcome := FormatWord();
      if outcome.Fail? {
        return;
      }
      FormattedHasNoAccent(word);
      FindAndRemoveAccent();
      ReplaceComplexConsonants();
      ReplaceComplexVowels();
      assert word == Prepare(original);
      assert Encode(word) == Mask(original);
      outcome := GenerateTranscription();
    }

    /** `format_word`: reject a word outside the validator's class, otherwise strip it,
        lower-case it, turn both ASCII quotes into the modifier-letter apostrophe and
        delete every `string.punctuation` character. */
    method FormatWord() returns (outcome: Outcome<Error>)
      modifies this`word
      ensures !Matches(old(word)) ==> outcome == Fail(WrongCharset) && word == old(word)
      ensures Matches(old(word)) ==> outcome == Pass && word == Normalize(old(word))
      ensures outcome.Pass? ==> IsFormatted(word) && |word| == |Body(old(word))|
    {
      if !Matches(word) {
        return Fail(WrongCharset);
      }
      ghost var w := word;
      NormalizeFormatted(w);
      word := Lower(Strip(word));
      word := Replace(word, "'", [Apostrophe]);
      word := Replace(word, "\"", [Apostrophe]);
      for i := 0 to |Punctuation|
        invariant word == Normalize(w)
      {
        PunctuationAbsent(word, Punctuation[i]);
        word := Replace(word, [Punctuation[i]], []);
      }
      outcome := Pass;
    }

    /** `find_and_remove_accent`: when the word has an accent, record the index before the
        first one and delete them all; otherwise change nothing. */
    method FindAndRemoveAccent()
      modifies this`word, this`accentPosition
      ensures Accent in old(word) ==>
        accentPosition == Some(Find(old(word), Accent) - 1) && word == RemoveAccent(old(word))
      ensures Accent !in old(word) ==>
        accentPosition == old(accentPosition) && word == old(word)
      ensures Accent !in word
    {
      RemoveAccentSpec(word);
      var accentIndex := Find(word, Accent);
      if accentIndex > -1 {
        accentPosition := Some(accentIndex - 1);
        word := Replace(word, [Accent], []);
      }
    }

    /** `replace_complex_consonants`: each key of the complex-consonant table replaced by
        its spelling, in table order; so every щ becomes шч. */
    method ReplaceComplexConsonants()
      modifies this`word
      ensures word == ExpandComplexConsonants(old(word))
      ensures word == Subst(old(word), 'щ', "шч") && 'щ' !in word
    {
      ghost var w := word;
      ExpandComplexConsonantsSpec(w);
      for i := 0 to |ComplexConsonants|
        invariant word == ReplaceItems(w, ComplexConsonants[..i])
      {
        assert ComplexConsonants[..i + 1][..i] == ComplexConsonants[..i];
        var (c, spelling) := ComplexConsonants[i];
        word := Replace(word, [c], spelling);
      }
      assert ComplexConsonants[..|ComplexConsonants|] == ComplexConsonants;
    }

    /** `replace_complex_vowels`: rebuild the word left to right, writing each iotated vowel
        in the form the character before it selects, then delete the apostrophes. */
    method ReplaceComplexVowels()
      modifies this`word
      ensures word == ResolveVowels(old(word))
    {
      var built := "";
      for i := 0 to |word|
        invariant built == Resolved(word, i)
      {
        var forms := ComplexVowelForms(word[i]);
        if forms.None? {
          built := built + [word[i]];
        } else if i >= 1 && word[i - 1] in AllConsonants {
          built := built + forms.value.1;
        } else {
          built := built + forms.value.0;
        }
      }
      word := Replace(built, [Apostrophe], []);
    }

    /** `generate_transcription`: replace every rule's pattern by its code, in index-set
        order, then look each mask character up. A character without an entry ends the
        method before `transcription` is set. */
    method GenerateTranscription() returns (outcome: Outcome<Error>)
      modifies this`transcription
      ensures var r := Decode(Encode(word));
        && (r.Success? ==> outcome == Pass && transcription == Some(r.value))
        && (r.Failure? ==> outcome == Fail(r.error) && transcription == old(transcription))
    {
      var mask := word;
      for k := 0 to |Indexset|
        invariant mask == EncodeWith(Indexset, word, k)
        invariant transcription == old(transcription)
      {
        var (code, rule) := Indexset[k];
        EncodeStep(Indexset, word, k);
        mask := Replace(mask, rule.pattern, [code]);
      }
      var list: seq<string> := [];
      for i := 0 to |mask|
        invariant Decode(mask[..i]) == Success(list)
        invariant transcription == old(transcription)
      {
        match Get(mask[i])
        case None =>
          DecodeFailsAt(mask, i, list);
          return Fail(UnmappedCode(mask[i]));
        case Some(entry) =>
          DecodeExtend(mask, i, list);
          list := list + [entry.ipa];
      }
      assert mask[..|mask|] == mask;
      transcription := Some(list);
      outcome := Pass;
    }
  }

  /** `get_transcription`: run a fresh generator on `w` and join its IPA strings between
      brackets; the result is the transcription of `w`, or the error that stopped it. */
  method GetTranscription(w: string) returns (r: Result<string, Error>)
    ensures r == Transcribe(w)
  {
    var generator := new PhonemaGenerator(w);
    var outcome := generator.Make();
    if outcome.Fail? {
      return Failure(outcome.error);
    }
    r := Success("[" + Concat(generator.transcription.value) + "]");
  }
}
