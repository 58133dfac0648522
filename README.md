# transcriptorua in Dafny

This project models the engine of transcriptorua, a transcriber that turns a Ukrainian word
into a bracketed IPA transcription. All of it lives in `transcriptorua.py`.

A `PhonemaGenerator` carries one word through five stages. Each stage rewrites the
generator's `word` field in place:

1. `format_word` validates the word against a fixed character class. It then strips and
   lower-cases the word, turns `'` and `"` into the modifier-letter apostrophe `ʼ`, and
   deletes ASCII punctuation.
2. `find_and_remove_accent` finds the first combining acute accent, records its index minus
   one as the accent position, and deletes every accent.
3. `replace_complex_consonants` spells `щ` as `шч`.
4. `replace_complex_vowels` rewrites the iotated vowels `я ю є ї`:
   - after a consonant, `я ю є` become `ь` and their vowel;
   - elsewhere, and `ї` always, they become `й` and their vowel.

   The apostrophes are then deleted.
5. `generate_transcription` builds a phoneme mask. It replaces the patterns of 61 rules, in
   table order, by one-character ASCII codes. It then looks each mask character up in the
   index set and collects the IPA strings.

`get_transcription` runs a fresh generator and joins the IPA strings between brackets.

The project has six modules:

| module | contents |
|---|---|
| `Wrappers` (`wrappers.dfy`) | `Option`, `Result`, and `Outcome` for a step that either passes or raises. |
| `Strings` (`strings.dfy`) | The Python string primitives the engine uses: `str.replace` as a leftmost, non-overlapping scan (`Replace`), `str.find`, and `''.join`. Also the lemmas about them: the one-character reference `Subst`, and the facts that one replacement uses up its pattern and creates no other (`ReplaceRemovesPattern`, `ReplaceKeepsAbsent`). |
| `Tables` (`tables.dfy`) | The `Chars` and `Phonema` tables, the code alphabet `ascii_letters + digits`, `zip`, and the index set `PHONEMAS_INDEXSET` with its `get`. Patterns are typed as one to three letters of the Cyrillic block, so "codes are ASCII, patterns are Cyrillic" is a fact of the types. |
| `Transcription` (`transcription.dfy`) | Each stage as a function of the word, the whole pipeline `Transcribe`, and the lemmas about them. |
| `Generator` (`generator.dfy`) | The class `PhonemaGenerator`, with mutable fields `word`, `accentPosition` and `transcription`, and the module-level method `GetTranscription`. Each method's postcondition ties the new field values to the stage functions of `Transcription`. The methods whose Python counterparts loop (`FormatWord`, `ReplaceComplexConsonants`, `ReplaceComplexVowels`, `GenerateTranscription`) are loops with invariants. `Make` and `FindAndRemoveAccent` are straight-line code, as in Python. |
| `Letters` (`letters.dfy`) | How the rule order reads whole classes of words. A word with no `ь`, `дз` or `дж` is read one letter at a time. A word that is a single pattern becomes a single code. A `ь` right after a code can never be consumed. A soft geminate cluster anywhere in a word keeps its own code and IPA string. Also four words worked through the whole pipeline: `мрія`, `ннь`, `джя` and `дззь`. |

Python exceptions become results:
- the validator's `ValueError` is `WrongCharset`;
- the failed unpacking of `PHONEMAS_INDEXSET.get(c)` returning `None` is `UnmappedCode(c)`.

`make` lets either one propagate; `Make` returns it as `Fail(...)` and stops at that stage.

## Model

| member | source | states |
|---|---|---|
| Tables.IndexsetLayout | transcriptorua.py:114-116 | `PHONEMAS_INDEXSET` holds exactly 61 entries. Entry `k` pairs the `k`-th candidate code with the `k`-th rule of `DOUBLE_SOFT + DOUBLE + SOFT + CONSONANTS + VOWELS`. |
| Tables.CodeAlphabetLayout | transcriptorua.py:116 | The candidate codes are `a`..`z`, then `A`..`Z`, then `0`..`9`. |
| Tables.NineUnused | transcriptorua.py:116 | `zip` stops at the 61 rules, so the last candidate code, `9`, has no entry. |
| Tables.GetCode | transcriptorua.py:116 | Every code is ASCII. `get` on entry `k`'s code returns rule `k`, so no two entries share a code. |
| Tables.CodesAreAscii | transcriptorua.py:116 | `get` succeeds exactly on the assigned codes, and only on ASCII characters. |
| Tables.Lookup | transcriptorua.py:116 | Dictionary lookup in an ordered entry list succeeds exactly when some entry has that key. |
| Tables.LookupFirst | transcriptorua.py:116 | A lookup returns the first entry with that key. |
| Tables.ZipSpec | transcriptorua.py:116 | `zip` pairs the elements at equal positions. |
| Tables.CodeCharInjective | transcriptorua.py:116 | Different positions of `ascii_letters + digits` hold different characters. |
| Strings.Find | transcriptorua.py:157 | `str.find` returns -1 exactly when the character is absent. Otherwise it returns the first index holding the character. |
| Strings.ReplaceSingle | transcriptorua.py:146-147 | `str.replace` with a one-character pattern is the per-character substitution `Subst`. |
| Strings.SubstLength | transcriptorua.py:165 | The substitution grows the string by `|rep| - 1` per occurrence. |
| Strings.ReplaceRemovesPattern | transcriptorua.py:188 | After `s.replace(pat, c)`, where `c` is not in `pat`, `pat` no longer occurs in the result. |
| Strings.ReplaceKeepsAbsent | transcriptorua.py:188 | Replacing one pattern by a character outside another pattern cannot create an occurrence of that other pattern. |
| Strings.ReplaceNotLonger | transcriptorua.py:188 | A replacement of at most one character never lengthens the string. |
| Strings.ReplaceNoOccurrence | transcriptorua.py:188 | `str.replace` with a pattern that does not occur returns the string unchanged. |
| Strings.MissingCharNotOccurs | transcriptorua.py:188 | A pattern holding a character the string lacks does not occur in it. |
| Strings.NoPairNotOccurs | transcriptorua.py:188 | A pattern whose first two characters never stand side by side in the string does not occur in it. |
| Strings.ReplaceKeepsPair | transcriptorua.py:188 | A pair `ab` survives `str.replace` when `a` is not in the pattern and the pattern does not start with `b`. |
| Strings.NoMatchInside | transcriptorua.py:188 | Two different patterns of one length, each ending in a character found nowhere else in either, cannot overlap: no occurrence of one starts inside an occurrence of the other. |
| Strings.OccursAfter | transcriptorua.py:188 | A pattern that occurs, but starts at none of the first `m` positions, occurs in what follows them. |
| Strings.ReplaceKeepsPrefix | transcriptorua.py:188 | `str.replace` keeps a prefix inside which no occurrence of the pattern starts. |
| Strings.ReplaceKeepsOccurrence | transcriptorua.py:188 | An occurrence of a pattern that cannot overlap the replaced pattern survives `str.replace`. |
| Strings.ReplaceInserts | transcriptorua.py:188 | `s.replace(pat, c)`, where `pat` occurs in `s`, holds `c`. |
| Strings.ReplaceKeepsChar | transcriptorua.py:188 | A character of the string that is not in the pattern is still in the result of `str.replace`. |
| Transcription.MatchesBody | transcriptorua.py:138-140 | The validator accepts a word exactly when the part before one optional trailing newline is a non-empty run of class characters. |
| Transcription.MatchesExamples | transcriptorua.py:138-140 | The validator rejects `""`, `"\n"`, `"cat"` and `"а\n\n"`. It accepts `"Мрія"` and `"а\n"`. |
| Transcription.StripMatching | transcriptorua.py:143 | On an accepted word, `strip()` removes exactly the trailing newline that `$` let through. |
| Transcription.Lower | transcriptorua.py:143 | `lower()` keeps the length and maps each character on its own. |
| Transcription.NormalizeFormatted | transcriptorua.py:143-147 | Normalisation maps an accepted word character by character. The result has only lower-case letters and `ʼ`: each `'` and `"` became `ʼ`, each capital its small letter. |
| Transcription.PunctuationAbsent | transcriptorua.py:149-151 | No `string.punctuation` character occurs in a normalised word, so the removal loop changes nothing. |
| Transcription.RemoveAccentSpec | transcriptorua.py:157-161 | Removing the accent deletes every accent and keeps the other characters in order. The word shrinks by the number of accents. |
| Transcription.FormattedHasNoAccent | transcriptorua.py:153-161 | A normalised word has no accent. `find` gives -1 and the removal changes nothing. |
| Transcription.ExpandComplexConsonantsSpec | transcriptorua.py:163-165 | Every `щ` becomes `шч` and the other characters keep their order. No `щ` is left, and the length grows by the number of `щ`. |
| Transcription.DigraphExpand | transcriptorua.py:163-165 | A word with `щ` expands to the same string as the word spelt with `шч`. |
| Transcription.DigraphEquivalence | transcriptorua.py:138-165 | `get_transcription` gives the same result for `u + "щ" + v` and `u + "шч" + v`, for every `u` and `v`. |
| Transcription.ResolvedLength | transcriptorua.py:167-179 | The loop emits two characters per iotated vowel and one per other character. |
| Transcription.ResolvedPrefix | transcriptorua.py:167-179 | What earlier iterations appended is never changed by later ones. |
| Transcription.ExpansionForms | transcriptorua.py:20-27 | The forms appended for one character, following the context rule below. |
| Transcription.ResolvedAt | transcriptorua.py:167-179 | The context rule, position by position. A non-iotated character is copied. `я ю є` become `ь`+vowel when the preceding input character is in `ALL_CONSONANTS`, and `й`+vowel otherwise: at index 0, or after a vowel, `й`, `ь` or `ʼ`. `ї` becomes `йі`. |
| Transcription.ResolvedChars | transcriptorua.py:167-179 | Every emitted character is a non-iotated input character or a letter of an iotated vowel's form. |
| Transcription.ResolveVowelsClean | transcriptorua.py:171-181 | After the vowel pass no `я ю є ї` and no `ʼ` are left. |
| Transcription.ResolveVowelsExamples | transcriptorua.py:167-181 | `мрія` becomes `мрійа` and `ня` becomes `ньа`. |
| Transcription.InitialVowelExample | transcriptorua.py:167-181 | A word-initial `я` becomes `йа`. |
| Transcription.ApostropheExample | transcriptorua.py:167-181 | `мʼя` becomes `мйа`: after the apostrophe, `я` takes the `й` form, and the apostrophe is then deleted. |
| Transcription.EncodeNotLonger | transcriptorua.py:186-188 | The mask is never longer than the word. |
| Transcription.EncodeChars | transcriptorua.py:186-188 | Every mask character is a character of the word or the code of a rule already applied. |
| Transcription.EncodeNoPattern | transcriptorua.py:186-188 | Every applied rule's pattern is used up for good. Once the first `n` rules have run, none of their patterns occurs in the mask. Later rules insert only ASCII codes, which cannot complete a Cyrillic pattern. |
| Transcription.UnmaskReplaceBy | transcriptorua.py:188 | Replacing a pattern by a code that reads back as that pattern leaves the read-back text unchanged. |
| Transcription.EncodeLossless | transcriptorua.py:186-188 | The mask is a lossless segmentation: read back, any prefix of the rule list gives back the word. |
| Transcription.EncodeRoundTrip | transcriptorua.py:184-188 | For a word without code characters, reading the mask back gives the word. |
| Transcription.Decode | transcriptorua.py:190-196 | Decoding succeeds exactly when every mask character has an entry, and then yields their IPA strings in order. Otherwise it fails on the first character without an entry. |
| Transcription.DecodeWith | transcriptorua.py:192-194 | The same decoding loop against an entry table given as a parameter. |
| Transcription.DecodeStopsAt | transcriptorua.py:192-194 | The first character without an entry is the one decoding reports. |
| Transcription.DecodeExtend | transcriptorua.py:192-194 | One more loop iteration on a successful prefix appends that character's IPA string. |
| Transcription.DecodeFailsAt | transcriptorua.py:192-194 | After a successful prefix, a character without an entry makes the whole decoding fail on it. |
| Transcription.OneLetterRule | transcriptorua.py:80-112 | Every plain letter other than `ь` is the whole pattern of some rule. |
| Transcription.PrepareAlphabet | transcriptorua.py:126-131 | The word handed to `generate_transcription` has only lower-case letters other than `щ я ю є ї`. |
| Transcription.PlainLetterEncoded | transcriptorua.py:186-188 | No plain letter other than `ь` survives encoding. |
| Transcription.MaskAlphabet | transcriptorua.py:186-188 | Every mask character of an accepted word is a code, or a `ь` that no rule consumed. |
| Transcription.DecodeMask | transcriptorua.py:190-196 | For an accepted word, decoding fails exactly when a `ь` is left in the mask, and then it fails on `ь`. |
| Transcription.MaskRules | transcriptorua.py:192-194 | The rules an all-code mask stands for, one per character. |
| Transcription.Ipas | transcriptorua.py:192-194 | The IPA strings of a rule list, in order. |
| Transcription.PatternsUnmask | transcriptorua.py:186-194 | The patterns of a mask's rules, joined, are the mask read back. |
| Transcription.TranscribeSegmentation | transcriptorua.py:183-204 | A successful transcription is `[`, then the joined IPA strings of a sequence of table rules, then `]`. Those rules' patterns, joined, are exactly the prepared word. |
| Transcription.TranscribeFailures | transcriptorua.py:199-204 | The result is `WrongCharset` exactly for words the validator rejects. An accepted word fails exactly when its mask keeps a `ь`, and then with `UnmappedCode('ь')`. |
| Transcription.EncodeEmpty | transcriptorua.py:186-188 | The empty word gives the empty mask. |
| Transcription.ApostropheOnly | transcriptorua.py:136-204 | A lone `'` passes the validator and becomes `ʼ`. The vowel pass then deletes it, so the prepared word is empty and the transcription is `[]`. |
| Transcription.RulesNotSoftLed | transcriptorua.py:38-112 | No rule's pattern starts with `ь`. |
| Transcription.EncodeKeepsSoftHead | transcriptorua.py:186-188 | A leading `ь` stays at the front of the mask. |
| Transcription.PrepareKeepsSoftHead | transcriptorua.py:136-181 | The preparation stages keep a leading `ь` in front. |
| Transcription.LeadingSoftSignFails | transcriptorua.py:192-196 | The validator accepts a word that starts with `ь`, but its transcription fails with `UnmappedCode('ь')`. |
| Transcription.SoftSignAlone | transcriptorua.py:199-204 | `get_transcription("ь")` passes validation and then fails in decoding. |
| Letters.MultiLetterRules | transcriptorua.py:38-114 | The first 33 rules of `Phonema.ALL` are the double-soft, double and soft consonants. Each of their patterns holds `ь`, except rule 11 (`дз`) and rule 12 (`дж`). |
| Letters.OneLetterTables | transcriptorua.py:80-114 | Rules 33 to 54 are `CONSONANTS` in order, and rules 55 to 60 are `VOWELS`. |
| Letters.OneLetterHeadsDistinct | transcriptorua.py:80-112 | The 28 one-letter patterns are pairwise different letters. |
| Letters.SingleLetterRules | transcriptorua.py:80-114 | Rule `k`, for `33 <= k < 61`, has as pattern the `k - 33`-th letter of `мнбдґптцчквўгзжфсшхлрйаеіуои`. |
| Letters.OneLetterRuleUnique | transcriptorua.py:38-114 | A rule whose pattern is the single plain letter `x` is the one-letter rule of `x`: no letter has two rules. |
| Letters.EncodeSkips | transcriptorua.py:186-188 | A run of rules none of whose patterns occurs in the mask leaves the mask unchanged. |
| Letters.CodesStay | transcriptorua.py:186-188 | A mask made only of ASCII codes is final: no later rule changes it. |
| Letters.MultiLetterRulesSkip | transcriptorua.py:186-188 | In a word with no `ь`, `дз` or `дж`, the first 33 rules find nothing. |
| Letters.LetterStep | transcriptorua.py:188 | One one-letter rule turns its own letter into its code. Every other letter, and every code already written, stays as it is. |
| Letters.OneLetterRulesSpell | transcriptorua.py:186-188 | For such a word, the mask after `n` rules (`33 <= n <= 61`) is the letter-by-letter spelling `SpelledAfter(t, n)`. |
| Letters.EncodeLetterByLetter | transcriptorua.py:184-188 | The mask of such a word has its length, and at each position the code of that letter's one-letter rule. |
| Letters.LetterByLetterTranscription | transcriptorua.py:183-204 | An accepted word whose prepared form has no `ь`, `дз` or `дж` is transcribed as the IPA strings of its letters' own rules, joined and bracketed. |
| Letters.EncodeKeepsCodedSoftSign | transcriptorua.py:186-188 | Once a `ь` sits right after a code, every later rule keeps it there. No pattern starts with `ь`, and no pattern holds a code. |
| Letters.CodedSoftSignFails | transcriptorua.py:183-204 | If some rule leaves a `ь` right after a code, that `ь` reaches the mask and the transcription fails with `UnmappedCode('ь')`. |
| Letters.DecodeOneCode | transcriptorua.py:192-194 | A mask that is one code decodes to that code's IPA string. |
| Letters.WholeWordMask | transcriptorua.py:184-188 | A word that is exactly rule `k`'s pattern, where no earlier rule occurs in it, is masked as rule `k`'s code alone. |
| Letters.WholeWordTranscription | transcriptorua.py:183-204 | An accepted word whose prepared form is such a pattern is transcribed as that rule's IPA string between brackets. |
| Letters.PrepareLower | transcriptorua.py:136-165 | A non-empty word of lower-case letters other than `щ` passes the validator. Its prepared form is its vowel-resolved form. |
| Letters.PlainResolves | transcriptorua.py:167-181 | A word with no iotated vowel and no apostrophe goes through the vowel pass unchanged. |
| Letters.MriyaTranscription | transcriptorua.py:126-204 | `мрія` is prepared as `мрійа` and transcribed as `[mrijɑ]`. |
| Letters.DoubledSoftN | transcriptorua.py:38-204 | `ннь` is masked as the single code `a` of the first rule and transcribed as `[ɲː]`. |
| Letters.DzhSoftSign | transcriptorua.py:52-204 | `джя` is prepared as `джьа`. The `дж` rule takes `дж`, the `ь` after its code stays in the mask, and the transcription fails with `UnmappedCode('ь')`. |
| Letters.DecodeTwoCodes | transcriptorua.py:192-194 | A mask of two codes decodes to their two IPA strings, in order. |
| Letters.DzzMask | transcriptorua.py:186-188 | Once the first six rules have made `д` plus the `ззь` code, rules 6 to 35 find nothing. The `д` rule then codes the `д`, and the mask `Kf` is final. |
| Letters.PriorityOverPosition | transcriptorua.py:38-204 | `дззь` is masked as `Kf` and transcribed as `[dzʲː]`. The `ззь` rule (table position 5) takes the last three letters before the `дз` rule (position 11) can take the first two. |
| Letters.PlainPrepared | transcriptorua.py:136-181 | A non-empty word spelled with `н`, `д`, `з` and `ь` only passes the validator, and the first three stages leave it as it is. |
| Letters.ClusterRule | transcriptorua.py:37-49 | Rule `j`, for `j < 11`, has as pattern a doubled consonant, or `дз`, followed by `ь`. |
| Letters.ClusterNoOverlap | transcriptorua.py:37-49 | Any two of the 11 three-letter patterns cannot overlap. |
| Letters.ClusterSurvives | transcriptorua.py:186-188 | An occurrence of the three-letter pattern `k` survives the rules before it. |
| Letters.EncodeKeepsCode | transcriptorua.py:186-188 | A code in the mask stays in the mask through every later rule. |
| Letters.ClusterCoded | transcriptorua.py:186-188 | If the three-letter pattern `k` occurs anywhere in the prepared word, its code is in the mask. |
| Letters.ClusterKept | transcriptorua.py:183-204 | For a soft geminate cluster anywhere in a word, for example `ннь` inside `аннья`: its code is in the mask, and when the word is transcribed, the cluster's IPA string is among the parts joined. |
| Generator.PhonemaGenerator.constructor | transcriptorua.py:120-124 | A new generator holds the word as given. It has no accent position and no transcription. |
| Generator.PhonemaGenerator.Make | transcriptorua.py:126-134 | A rejected word raises `WrongCharset` and changes nothing. An accepted word ends up prepared, with the accent position untouched. The transcription is set to the decoded mask when decoding succeeds; otherwise the decoding error is raised and the transcription is left as it was. |
| Generator.PhonemaGenerator.FormatWord | transcriptorua.py:136-151 | Fails with `WrongCharset` exactly on rejected words and then leaves `word` alone. Otherwise `word` becomes the normalised word, which is lower-case and apostrophe-unified, with the length of the body; the punctuation loop is proved a no-op. |
| Generator.PhonemaGenerator.FindAndRemoveAccent | transcriptorua.py:153-161 | When an accent is present, records the index before the first accent and removes every accent. Otherwise it changes nothing. Either way no accent is left. |
| Generator.PhonemaGenerator.ReplaceComplexConsonants | transcriptorua.py:163-165 | The item loop leaves every `щ` spelt `шч` and no `щ`. |
| Generator.PhonemaGenerator.ReplaceComplexVowels | transcriptorua.py:167-181 | The indexed loop builds exactly the context-resolved word. The apostrophes are then deleted. |
| Generator.PhonemaGenerator.GenerateTranscription | transcriptorua.py:183-196 | The rule loop builds the mask `Encode(word)`. If every mask character has an entry, the transcription becomes its IPA strings. Otherwise the method fails on the first character without one and leaves the transcription unset. |
| Generator.GetTranscription | transcriptorua.py:199-204 | Returns `[` + the joined IPA strings + `]`, or the error that stopped `make`. This is exactly `Transcribe`. |

Where the code and its design description differ, the model follows the code:

- The decoder failure is reachable. A validated word can keep a `ь` that no rule consumes, for example:
  - a word that starts with `ь`;
  - `ь` after a vowel, after `й`, or after `дж`.

  Decoding then fails on that `ь` (`DecodeMask`, `LeadingSoftSignFails`, `SoftSignAlone`, `DzhSoftSign`).
- The rule order is a priority between rules, not a longest match at each position. Each rule replaces its pattern across the whole word before the next rule runs, so an earlier rule wins wherever it occurs. In `дззь`, the `ззь` rule (line 44) runs before the `дз` rule (line 53), so the word reads `[dzʲː]`; a left-to-right longest match would take `дз` first and give `[d͡zzʲ]` (`PriorityOverPosition`). `джжь` behaves the same way: `жжь` (line 47) comes before `дж` (line 54). What holds is that each applied rule uses up its pattern for good (`EncodeNoPattern`).
- The regular expression's `$` also accepts one trailing newline, and `strip()` removes it. `Matches` and `Body` model this.
- The combining accent is not in the validator's class. Within `make`, `find_and_remove_accent` therefore never finds one (`FormattedHasNoAccent`). It is still modelled in full, and `Make` leaves `accentPosition` unchanged.
- A lone apostrophe is a valid word and transcribes to `[]`, because its prepared word is empty (`ApostropheOnly`).

## Left out

- `app.py`: the Flask routes, the template rendering, the `data.json` history file and its `deque`, and the mapping of `ValueError` to a message. These are web and file I/O, not part of the engine.
- Python's full Unicode `str.lower` is not modelled. `LowerChar` lower-cases the Cyrillic block: А..Я, Ѐ..Џ (which include Є, І, Ї) and Ґ. That is exact on every word the validator accepts, and nothing else reaches `lower()`.
- The `re` engine is not modelled. The validator is set membership plus non-emptiness, with the trailing-newline rule of `$`.
- The exact exception types are not modelled: `ValueError`, and the `TypeError` of unpacking `None`. Both are failure results.
- The IPA strings are not modelled as phonetic text: they are opaque strings copied from the table.
- The `ў` rule is kept in the table, but nothing is proved about it: the validator rejects `ў`, so it never reaches the encoder.
