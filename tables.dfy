/** The constant tables of the transcriber: the letter classes (`Chars`) and the ordered
    phoneme rules with their one-character codes (`Phonema`). */
module Tables {
  import opened Wrappers

  // ---------------------------------------------------------------------------
  // Chars

  /** A character of the Unicode Cyrillic block, U+0400..U+04FF. */
  type Cyrillic = c: char | 0x400 <= c as int <= 0x4FF witness 'а'

  /** The left-hand side of a phoneme rule: one to three Cyrillic letters. */
  type Pattern = p: seq<Cyrillic> | 1 <= |p| <= 3 witness ['а']

  /** MODIFIER LETTER APOSTROPHE, the one apostrophe the normalised word keeps. */
  const Apostrophe: char := '\U{02BC}'

  /** COMBINING ACUTE ACCENT, the stress mark. */
  const Accent: char := '\U{0301}'

  const SoftSign: char := 'ь'

  /** `COMPLEX_CONSONANTS` as the ordered list of its items. */
  const ComplexConsonants: seq<(char, string)> := [('щ', "шч")]

  /** `COMPLEX_VOWELS.get(c)`: the glide form and the soft form of an iotated vowel. */
  function ComplexVowelForms(c: char): Option<(string, string)>
  {
    match c
    case 'я' => Some(("йа", "ьа"))
    case 'ю' => Some(("йу", "ьу"))
    case 'є' => Some(("йе", "ье"))
    case 'ї' => Some(("йі", "йі"))
    case _ => None
  }

  /** The letter classes, as sets: the source only ever tests membership in them. */
  const SimpleVowels: set<char> := {'а', 'е', 'и', 'і', 'о', 'у'}
  const AllVowels: set<char> := SimpleVowels + {'я', 'ю', 'є', 'ї'}
  const SimpleConsonants: set<char> :=
    {'б', 'в', 'г', 'ґ', 'д', 'ж', 'з', 'к', 'л', 'м', 'н', 'п', 'р', 'с', 'т', 'ф', 'х', 'ц', 'ч', 'ш'}
  const AllConsonants: set<char> := SimpleConsonants + {'щ'}

  // ---------------------------------------------------------------------------
  // Phonema

  /** A rule: a Ukrainian letter sequence and the IPA string it is transcribed to.
      The IPA strings are opaque display text. */
  datatype Rule = Rule(pattern: Pattern, ipa: string)

  const DoubleSoftConsonants: seq<Rule> := [
    Rule("ннь", "ɲː"),
    Rule("ддь", "ɟː"),
    Rule("тть", "cː"),
    Rule("лль", "ʎː"),
    Rule("цць", "t͡sʲː"),
    Rule("ззь", "zʲː"),
    Rule("ссь", "sʲː"),
    Rule("ччь", "t͡ʃʲː"),
    Rule("жжь", "ʒʲː"),
    Rule("шшь", "ʃʲː"),
    Rule("дзь", "d͡zʲ")
  ]

  const DoubleConsonants: seq<Rule> := [
    Rule("дз", "d͡z"),
    Rule("дж", "d͡ʒ")
  ]

  const SoftConsonants: seq<Rule> := [
    Rule("мь", "mʲ"),
    Rule("нь", "nʲ"),
    Rule("бь", "bʲ"),
    Rule("дь", "dʲ"),
    Rule("ґь", "ɡʲ"),
    Rule("пь", "pʲ"),
    Rule("ть", "tʲ"),
    Rule("ць", "t͡sʲ"),
    Rule("чь", "t͡ʃʲ"),
    Rule("кь", "kʲ"),
    Rule("вь", "ʋʲ"),
    Rule("гь", "ɦʲ"),
    Rule("зь", "zʲ"),
    Rule("жь", "ʒʲ"),
    Rule("фь", "fʲ"),
    Rule("сь", "sʲ"),
    Rule("шь", "ʃʲ"),
    Rule("хь", "xʲ"),
    Rule("ль", "lʲ"),
    Rule("рь", "rʲ")
  ]

  const Consonants: seq<Rule> := [
    Rule("м", "m"),
    Rule("н", "n"),
    Rule("б", "b"),
    Rule("д", "d"),
    Rule("ґ", "ɡ"),
    Rule("п", "p"),
    Rule("т", "t"),
    Rule("ц", "t͡s"),
    Rule("ч", "t͡ʃ"),
    Rule("к", "k"),
    Rule("в", "ʋ"),
    Rule("ў", "w"),
    Rule("г", "ɦ"),
    Rule("з", "z"),
    Rule("ж", "ʒ"),
    Rule("ф", "f"),
    Rule("с", "s"),
    Rule("ш", "ʃ"),
    Rule("х", "x"),
    Rule("л", "l"),
    Rule("р", "r"),
    Rule("й", "j")
  ]

  const Vowels: seq<Rule> := [
    Rule("а", "ɑ"),
    Rule("е", "ɛ"),
    Rule("і", "i"),
    Rule("у", "u"),
    Rule("о", "ɔ"),
    Rule("и", "ɪ")
  ]

  /** `Phonema.ALL`: the rules in the order they are applied. */
  const AllRules: seq<Rule> :=
    DoubleSoftConsonants + DoubleConsonants + SoftConsonants + Consonants + Vowels

  /** The `i`-th character of `string.ascii_letters + string.digits`. */
  function CodeChar(i: nat): (c: char)
    requires i < 62
    ensures c as int < 128
  {
    if i < 26 then ('a' as int + i) as char
    else if i < 52 then ('A' as int + (i - 26)) as char
    else ('0' as int + (i - 52)) as char
  }

  /** `CodeChar(i)`, ..., `CodeChar(61)`. */
  function CodesFrom(i: nat): (r: string)
    requires i <= 62
    ensures |r| == 62 - i
    ensures forall j :: 0 <= j < |r| ==> r[j] == CodeChar(i + j)
    decreases 62 - i
  {
    if i == 62 then [] else [CodeChar(i)] + CodesFrom(i + 1)
  }

  /** `string.ascii_letters + string.digits`: "a".."z", "A".."Z", "0".."9", the 62 candidate codes. */
  const CodeAlphabet: string := CodesFrom(FirstCode)

  /** The position the code alphabet starts from. It is a named constant rather than the
      literal 0 so that the verifier does not spell out all 62 characters of the alphabet
      wherever `CodeAlphabet` is mentioned; the layout is stated once, by
      `CodeAlphabetLayout`. */
  const FirstCode: nat := 0

  /** Python's `zip`: pairs up elements and stops at the end of the shorter sequence. */
  function Zip<A, B>(a: seq<A>, b: seq<B>): (r: seq<(A, B)>)
    ensures |r| == if |a| <= |b| then |a| else |b|
  {
    if a == [] || b == [] then [] else [(a[0], b[0])] + Zip(a[1..], b[1..])
  }

  /** `zip` pairs elements at equal positions. */
  lemma {:induction false} ZipSpec<A, B>(a: seq<A>, b: seq<B>)
    ensures forall i :: 0 <= i < |Zip(a, b)| ==> Zip(a, b)[i] == (a[i], b[i])
  {
    if a != [] && b != [] {
      ZipSpec(a[1..], b[1..]);
    }
  }

  /** `PHONEMAS_INDEXSET`: each rule paired with its code, in application order. */
  const Indexset: seq<(char, Rule)> := Zip(CodeAlphabet, AllRules)

  /** `c` is one of the codes the index set assigns. */
  ghost predicate IsCode(c: char) {
    exists k :: 0 <= k < |Indexset| && Indexset[k].0 == c
  }

  /** `PHONEMAS_INDEXSET.get(c)`. */
  function Get(c: char): Option<Rule> {
    Lookup(Indexset, c)
  }

  /** Dictionary lookup in an ordered list of entries: the first entry whose key is `c`. */
  function Lookup(entries: seq<(char, Rule)>, c: char): (r: Option<Rule>)
    ensures r.Some? <==> exists k :: 0 <= k < |entries| && entries[k].0 == c
  {
    if entries == [] then None
    else if entries[0].0 == c then Some(entries[0].1)
    else
      assert forall k :: 1 <= k < |entries| ==> entries[k] == entries[1..][k - 1];
      Lookup(entries[1..], c)
  }

  /** An entry whose key no earlier entry has is what the lookup of that key finds. */
  lemma {:induction false} LookupFirst(entries: seq<(char, Rule)>, k: nat)
    requires k < |entries|
    requires forall j :: 0 <= j < k ==> entries[j].0 != entries[k].0
    ensures Lookup(entries, entries[k].0) == Some(entries[k].1)
  {
    if k > 0 {
      LookupFirst(entries[1..], k - 1);
    }
  }

  // ---------------------------------------------------------------------------
  // Properties of the tables

  /** Different positions of the code alphabet hold different characters. */
  lemma CodeCharInjective(i: nat, j: nat)
    requires i < 62 && j < 62 && i != j
    ensures CodeChar(i) != CodeChar(j)
  {
    assert CodeChar(i) as int != CodeChar(j) as int;
  }

  /** The code alphabet starts with the ASCII letters and ends with the digits. */
  lemma CodeAlphabetLayout()
    ensures CodeAlphabet[0] == 'a' && CodeAlphabet[25] == 'z'
    ensures CodeAlphabet[26] == 'A' && CodeAlphabet[51] == 'Z'
    ensures CodeAlphabet[52] == '0' && CodeAlphabet[61] == '9'
  {
  }

  /** `zip` pairs the 61 rules with the first 61 codes, in application order. */
  lemma IndexsetLayout()
    ensures |AllRules| == 61 && |Indexset| == 61
    ensures forall k :: 0 <= k < 61 ==> Indexset[k] == (CodeChar(k), AllRules[k])
  {
    ZipSpec(CodeAlphabet, AllRules);
  }

  /** Every code is a distinct ASCII character, and each looks up its own rule. */
  lemma GetCode(k: nat)
    requires k < |Indexset|
    ensures Indexset[k].0 as int < 128
    ensures Get(Indexset[k].0) == Some(AllRules[k])
  {
    IndexsetLayout();
    forall j | 0 <= j < k
      ensures Indexset[j].0 != Indexset[k].0
    {
      CodeCharInjective(j, k);
    }
    LookupFirst(Indexset, k);
  }

  /** `zip` truncates to the 61 rules, so the last candidate code, '9', is never assigned. */
  lemma NineUnused()
    ensures CodeAlphabet[61] == '9' && Get('9') == None
  {
    IndexsetLayout();
    forall k | 0 <= k < |Indexset|
      ensures Indexset[k].0 != '9'
    {
      CodeCharInjective(k, 61);
    }
  }

  /** `get` finds exactly the assigned codes, and only ASCII characters are codes;
      in particular no Cyrillic letter is one. */
  lemma CodesAreAscii(c: char)
    ensures Get(c).Some? <==> IsCode(c)
    ensures Get(c).Some? ==> c as int < 128
  {
    IndexsetLayout();
  }
}
