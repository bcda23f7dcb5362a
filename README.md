# Italian ordinal, fraction and date grammars

This project models three grammars of the Italian text normalizer and proves what they accept and what they write:

- the ordinal tagger, which reads "21.º" as an ordinal with its gender or apocope feature;
- the fraction verbalizer, which turns `integer_part`, `numerator` and `denominator` fields into words;
- the date verbalizer, which turns `day`, `month` and `year` fields into a date in day-month-year or month-day-year order.

The grammars are weighted finite-state transducers in the original. The model gives each transducer expression the string relation it denotes. That relation is a function from an input string to the finite set of strings the transducer may write for it; the set is empty when there is no path. The combinators are in `fst.dfy`:

- union, concatenation, optional closure, composition, difference;
- acceptors, `cross`, `insert` and `delete`.

Each context-dependent rewrite is modelled in `rewrite.dfy` and `merge.dfy` as the function its left-to-right, obligatory, non-overlapping application computes. The module structure follows the source files:

- `ordinal.dfy` models `it/taggers/ordinal.py`;
- `fraction.dfy` models `it/verbalizers/fraction.py`, and `merge.dfy` holds its four merge passes;
- `date.dfy` models `it/verbalizers/date.py`;
- `graph_utils.dfy` holds the shared pieces: white-space and quote classes, quoted fields, and the foreign helpers as parameters.

Every operation is pure in the source, so every operation here is a function, and the properties are lemmas. The deterministic flag is a `bool` parameter. The non-deterministic alternatives are further members of the output set.

Places where the model follows the code rather than its documentation:

- **Date connectors.** The date verbalizer writes no connector word between day, month and year. It says a first day "primo" (not "primero"). The doc comments of `date.py` and `fraction.py` show Spanish examples.
- **Fraction plural.** The plural denominator reads an "o" *after* the closing quote of the feature field and appends "i". This follows the concatenation order in `fraction.py:77`.
- **"parte" exclusion.** The space deletion of the merge passes has the right context "a character other than `parte`". A one-character string is never "parte", so the exclusion removes nothing (`Merge.CharNotParte`).
- **Duplicate vowels.** The duplicate-vowel pass maps "aa" to "a" and "oo" to "o" from left to right without overlap. So "aaa" becomes "aa" (`Merge.CollapsePairsTriple`).
- **Feminine plural "mezza".** The feminine plural "mezza" branch can write nothing: plural denominators end in "i" and "mezzo" does not (`Fraction.FemPluralMezzaEmpty`).
- **Year trailing space.** White space before the year's closing quote may be left out of the year text or kept: the year grammar has one path for each split of the trailing run. The trimmed year is one of its outputs.
- **Masculine and feminine fraction graphs.** Without the integer part, every masculine fraction is also a feminine one (`Fraction.FractionMascInFem`): the feminine graph only adds alternatives to the "un" and the default branches. With an integer part the two differ, because the feminine graph shifts the gender of the integer (`Fraction.IntegerFemThenSound`). The whole graph is the union of the two, by the definition of `Fraction.Graph`.

## Model

| member | source | states |
|---|---|---|
| Ordinal.OneToOneThousandExact | nemo_text_processing/text_normalization/it/taggers/ordinal.py:33-44 | the 1..999 acceptor holds exactly the cardinal readings of the decimal numerals of one to three digits without a leading zero; "1000" is not among them |
| Ordinal.DecimalStringDigits | nemo_text_processing/text_normalization/it/taggers/ordinal.py:43 | `str(n)` for n ≥ 1 is all digits, has no leading zero, reads back as n, and has at most three digits below 1000 |
| Ordinal.DigitsValueDecimal | nemo_text_processing/text_normalization/it/taggers/ordinal.py:43 | conversely, every numeral without a leading zero is `str` of its value, and its length bounds that value |
| Ordinal.TieThenDigitSound | nemo_text_processing/text_normalization/it/taggers/ordinal.py:74 | a tie followed by an optional digit is a tie word alone or a tie glued to a digit word with no space |
| Ordinal.TieThenDigitComplete | nemo_text_processing/text_normalization/it/taggers/ordinal.py:74 | every tie word and every tie glued to a digit word is written |
| Ordinal.TensComponentExact | nemo_text_processing/text_normalization/it/taggers/ordinal.py:72-76 | the tens component is exactly a teen, a twenties word, a tie, or a tie glued to a digit |
| Ordinal.HundredComponentExact | nemo_text_processing/text_normalization/it/taggers/ordinal.py:78-82 | the hundreds component is exactly a tens word, a digit, a hundreds word, or a hundreds word, one space and a tens or digit word |
| Ordinal.SpacedThousand | nemo_text_processing/text_normalization/it/taggers/ordinal.py:87-90 | a space followed by "mille" becomes a space followed by "millesimo", and nothing else is read |
| Ordinal.ThousandsMergedExact | nemo_text_processing/text_normalization/it/taggers/ordinal.py:87-93 | the thousands graph writes "millesimo" for "mille", and otherwise the accent-stripped 1..999 prefix merged with "millesimo", for exactly the inputs "c mille" |
| Ordinal.PrefixedThousandsExact | nemo_text_processing/text_normalization/it/taggers/ordinal.py:89-91 | the prefixed thousands read a text ending in " mille" and write the accent-stripped prefix followed by " millesimo" |
| Ordinal.PrefixedThousandsElim | nemo_text_processing/text_normalization/it/taggers/ordinal.py:89-91 | a prefixed-thousand output comes from a 1..999 text c, with input c + " mille" |
| Ordinal.PrefixedThousandSound | nemo_text_processing/text_normalization/it/taggers/ordinal.py:89-93 | a thousands output other than "millesimo" for "mille" is a merged prefixed thousand |
| Ordinal.PrefixedThousandComplete | nemo_text_processing/text_normalization/it/taggers/ordinal.py:89-93 | every merged prefixed thousand is a thousands output |
| Ordinal.ThousandPrefixGlued | nemo_text_processing/text_normalization/it/taggers/ordinal.py:92 | a blank-free prefix and " millesimo" are merged into one word |
| Ordinal.MultiplesOfThousandExact | nemo_text_processing/text_normalization/it/taggers/ordinal.py:95 | the multiples of a thousand are exactly the thousands outputs of the cardinal readings of the input |
| Ordinal.NondeterministicSpacedThousands | nemo_text_processing/text_normalization/it/taggers/ordinal.py:97-100 | in non-deterministic mode a hundreds-component ordinal of a 1..999 text, then " millesimo", is also written for "c mille" |
| Ordinal.GraphThousandsMono | nemo_text_processing/text_normalization/it/taggers/ordinal.py:97-102 | the deterministic thousands graph is contained in the non-deterministic one |
| Ordinal.SpacedPrefixThousandsExact | nemo_text_processing/text_normalization/it/taggers/ordinal.py:97-100 | the non-deterministic spaced prefix reads exactly the text of a number from 1 to 999, a space and "mille", and writes a hundred-component reading of that text, a space and "millesimo" |
| Ordinal.ThousandsAlternativesExact | nemo_text_processing/text_normalization/it/taggers/ordinal.py:87-100 | the thousands word is exactly "mille" written "millesimo", a merged prefix, or (only in non-deterministic mode) the spaced prefix |
| Ordinal.GraphThousandsSound | nemo_text_processing/text_normalization/it/taggers/ordinal.py:102 | every thousands output is a thousands-word reading alone, or followed by one space and a hundred-component reading of the rest of the input |
| Ordinal.GraphThousandsComplete | nemo_text_processing/text_normalization/it/taggers/ordinal.py:102 | conversely, every thousands-word reading, alone or followed by one space and a hundred-component reading, is written |
| Ordinal.GraphExact | nemo_text_processing/text_normalization/it/taggers/ordinal.py:104-114 | the ordinal of a digit string is exactly a cardinal reading of it read by the thousands graph or the hundred component, with the "o" before "ottavo" elided; only in non-deterministic mode also with "decimo"/"ventesimo" split before the elision |
| Ordinal.DeterministicIsSubset | nemo_text_processing/text_normalization/it/taggers/ordinal.py:97-116 | every deterministic ordinal, bare or tagged, is also a non-deterministic one |
| Ordinal.NondeterministicSplitTens | nemo_text_processing/text_normalization/it/taggers/ordinal.py:107-111 | in non-deterministic mode both the joined and the split "decimo"/"ventesimo" spellings are written, after the "ottavo" elision |
| Ordinal.NoComponentNoOutput | nemo_text_processing/text_normalization/it/taggers/ordinal.py:104-105 | when no cardinal reading of the input has a thousands or hundreds component, there is no ordinal |
| Ordinal.SplitTensOnlyInsertsSpaces | nemo_text_processing/text_normalization/it/taggers/ordinal.py:109-110 | the split pass only inserts spaces: the non-blank characters are kept in order |
| Ordinal.SplitTensIdentity | nemo_text_processing/text_normalization/it/taggers/ordinal.py:109-110 | a text without "decimo" or "ventesimo" is unchanged by the split pass |
| Ordinal.SplitTensSplitsDecimo | nemo_text_processing/text_normalization/it/taggers/ordinal.py:109-110 | "decimo" followed by a character gets a space after it |
| Ordinal.SplitTensSplitsVentesimo | nemo_text_processing/text_normalization/it/taggers/ordinal.py:109-110 | "ventesimo" followed by a character gets a space after it |
| Ordinal.ElideBeforeOttavoSpec | nemo_text_processing/text_normalization/it/taggers/ordinal.py:113-114 | the elision changes a text exactly when it contains "oottavo", never lengthens it, and only removes "o"s |
| Ordinal.ElideBeforeOttavoSite | nemo_text_processing/text_normalization/it/taggers/ordinal.py:113-114 | the "o" right before "ottavo" is deleted |
| Ordinal.AbbreviationExact | nemo_text_processing/text_normalization/it/taggers/ordinal.py:122-126 | an abbreviation reads its mark with or without a leading period and writes its feature |
| Ordinal.ConvertAbbreviationExact | nemo_text_processing/text_normalization/it/taggers/ordinal.py:118-129 | "º", "ª" and "ᵉʳ" (each optionally after a period) are exactly the marks, read as gender_masc, gender_fem and apocope |
| Ordinal.TaggedExact | nemo_text_processing/text_normalization/it/taggers/ordinal.py:131-138 | the tagged output is exactly `integer: "<ordinal>" morphosyntactic_features: "<feature>"` for an input made of an ordinal's source followed by a mark the abbreviation grammar reads (for the tagger, the marks of Ordinal.ConvertAbbreviationExact); any other input has no output |
| Ordinal.TaggedMono | nemo_text_processing/text_normalization/it/taggers/ordinal.py:131-138 | tagging keeps containment between ordinal graphs |
| Merge.JoinConjunctionRemoves | build/lib/nemo_text_processing/text_normalization/it/verbalizers/fraction.py:80-82 | after the conjunction pass no " e " remains |
| Merge.DeleteSpaceBeforeCharExact | build/lib/nemo_text_processing/text_normalization/it/verbalizers/fraction.py:83 | the space deletion keeps every non-blank character in order and drops every blank except a final one |
| Merge.DeleteSpaceBeforeCharWord | build/lib/nemo_text_processing/text_normalization/it/verbalizers/fraction.py:83 | after the space deletion the text has no inner white space |
| Merge.ReachesOrdinalEndingExact | build/lib/nemo_text_processing/text_normalization/it/verbalizers/fraction.py:92 | the accent pass's right context holds exactly when a blank-free run leads to "esimo" or "esima" |
| Merge.WordStartBeforeStep | build/lib/nemo_text_processing/text_normalization/it/verbalizers/fraction.py:91 | the accent pass's left context (start or space, then non-blanks) is tracked one character at a time |
| Merge.RemoveAccentsExact | build/lib/nemo_text_processing/text_normalization/it/verbalizers/fraction.py:89-94 | the accent pass keeps the length and replaces exactly the accented characters whose left and right contexts hold |
| Merge.RemoveAccentsWord | build/lib/nemo_text_processing/text_normalization/it/verbalizers/fraction.py:89-94 | with a blank-free accent table, a single word stays a single word |
| Merge.CollapsePairsFirst | build/lib/nemo_text_processing/text_normalization/it/verbalizers/fraction.py:85-87 | the duplicate-vowel pass keeps the first character |
| Merge.CollapsePairsNoPairs | build/lib/nemo_text_processing/text_normalization/it/verbalizers/fraction.py:85-87 | without a tripled vowel, no doubled "a" or "o" is left |
| Merge.CollapsePairsIdentity | build/lib/nemo_text_processing/text_normalization/it/verbalizers/fraction.py:85-87 | a text without "aa" or "oo" is unchanged |
| Merge.CollapsePairsOnlyVowels | build/lib/nemo_text_processing/text_normalization/it/verbalizers/fraction.py:85-87 | the pass never lengthens and removes only "a"s and "o"s |
| Merge.CollapsePairsTriple | build/lib/nemo_text_processing/text_normalization/it/verbalizers/fraction.py:86-87 | "aaa" becomes "aa" and "ooo" becomes "oo" (non-overlapping matches) |
| Merge.CollapsePairsWord | build/lib/nemo_text_processing/text_normalization/it/verbalizers/fraction.py:85-87 | a single word stays a single word |
| Merge.MergeIntoSingleWordIsWord | build/lib/nemo_text_processing/text_normalization/it/verbalizers/fraction.py:95 | the merged denominator is one word with no " e " |
| Merge.MergeKeepsPlainWord | build/lib/nemo_text_processing/text_normalization/it/verbalizers/fraction.py:95 | a plain word without accents or doubled vowels is merged into itself |
| Fraction.IntegerSound | build/lib/nemo_text_processing/text_normalization/it/verbalizers/fraction.py:52-56 | the integer part reads `integer_part: "i"` with quote-free i and writes i with its apocope stripped |
| Fraction.IntegerComplete | build/lib/nemo_text_processing/text_normalization/it/verbalizers/fraction.py:52-56 | every quote-free integer text is read that way |
| Fraction.NumeratorRouting | build/lib/nemo_text_processing/text_normalization/it/verbalizers/fraction.py:58-63 | a numerator field is read by the "one" numerator exactly when it holds "un", and by the general numerator exactly when it does not |
| Fraction.NumeratorShape | build/lib/nemo_text_processing/text_normalization/it/verbalizers/fraction.py:58-63 | both numerators read `numerator: "v" ` and write the quote-free v |
| Fraction.NumeratorOneShape | build/lib/nemo_text_processing/text_normalization/it/verbalizers/fraction.py:58 | the "one" numerator reads only `numerator: "un" ` and writes "un" |
| Fraction.NumeratorOneComplete | build/lib/nemo_text_processing/text_normalization/it/verbalizers/fraction.py:58 | the "one" numerator does read that field |
| Fraction.NumeratorUnShape | build/lib/nemo_text_processing/text_normalization/it/verbalizers/fraction.py:58 | the "un" field is an ordinary quoted field whose close starts with a quote |
| Fraction.SingularExact | build/lib/nemo_text_processing/text_normalization/it/verbalizers/fraction.py:65-76 | a singular denominator is exactly a quote-free text with the add_root or ordinal feature, written unchanged |
| Fraction.PluralExact | build/lib/nemo_text_processing/text_normalization/it/verbalizers/fraction.py:76-77 | the plural ending after a singular grammar (the plural denominator is the marked singular followed by it): the input is a singular reading followed by "o", and the output is that reading's text followed by "i" |
| Fraction.DenominatorCardinalExact | build/lib/nemo_text_processing/text_normalization/it/verbalizers/fraction.py:72-74 | a cardinal denominator is exactly a quote-free quoted text |
| Fraction.MergedIsWord | build/lib/nemo_text_processing/text_normalization/it/verbalizers/fraction.py:80-95 | a merged denominator is a single word without " e " |
| Fraction.MergedMezzo | build/lib/nemo_text_processing/text_normalization/it/verbalizers/fraction.py:80-95 | "mezzo" is merged into itself |
| Fraction.DefaultSound | build/lib/nemo_text_processing/text_normalization/it/verbalizers/fraction.py:97 | the default fraction reads a numerator other than "un", white space and a plural denominator, and writes the numerator, one space and the merged plural |
| Fraction.DefaultComplete | build/lib/nemo_text_processing/text_normalization/it/verbalizers/fraction.py:97 | every such reading is written |
| Fraction.DefaultNeverReadsUn | build/lib/nemo_text_processing/text_normalization/it/verbalizers/fraction.py:58-97 | the default fraction never reads a numerator "un" |
| Fraction.WithOneSpelledSound | build/lib/nemo_text_processing/text_normalization/it/verbalizers/fraction.py:99-101 | the fraction with one reads the "un" numerator, white space and a singular denominator, and writes "un", one space and the merged singular |
| Fraction.WithOneSpelledComplete | build/lib/nemo_text_processing/text_normalization/it/verbalizers/fraction.py:99-101 | every such reading is written |
| Fraction.DropUnExact | build/lib/nemo_text_processing/text_normalization/it/verbalizers/fraction.py:108-110 | "un " followed by a word starting with "mezzo" loses the "un "; any other word keeps it; "un mezzo" never remains |
| Fraction.ShortenedUn | build/lib/nemo_text_processing/text_normalization/it/verbalizers/fraction.py:108-110 | after the rewrite the fraction with one starts with "un " or "mezzo" and never says "un mezzo" |
| Fraction.UnMezzoShortened | build/lib/nemo_text_processing/text_normalization/it/verbalizers/fraction.py:108-110 | "un mezzo" becomes "mezzo" |
| Fraction.WithOneShortened | build/lib/nemo_text_processing/text_normalization/it/verbalizers/fraction.py:99-110 | every output of the fraction with one is the "un mezzo" rewrite of a spelled-out reading |
| Fraction.WithOneNeverSaysUnMezzo | build/lib/nemo_text_processing/text_normalization/it/verbalizers/fraction.py:99-110 | the fraction with one reads a "un" numerator, writes "un ..." or "mezzo...", and never "un mezzo" |
| Fraction.WithOneComplete | build/lib/nemo_text_processing/text_normalization/it/verbalizers/fraction.py:99-110 | every rewritten spelled-out reading is written |
| Fraction.WithOneMezzo | build/lib/nemo_text_processing/text_normalization/it/verbalizers/fraction.py:99-110 | "un" over the singular "mezzo" is said "mezzo" |
| Fraction.NumeratorApocopeSound | build/lib/nemo_text_processing/text_normalization/it/verbalizers/fraction.py:103 | the cardinal fraction's numerator reads any quote-free numerator field and writes it with its apocope stripped |
| Fraction.NumeratorApocopeComplete | build/lib/nemo_text_processing/text_normalization/it/verbalizers/fraction.py:103 | every quote-free numerator, "un" included, is read that way |
| Fraction.DenominatorApocopeSound | build/lib/nemo_text_processing/text_normalization/it/verbalizers/fraction.py:104-106 | the cardinal denominator is a quoted quote-free text written with its apocope stripped |
| Fraction.DenominatorApocopeComplete | build/lib/nemo_text_processing/text_normalization/it/verbalizers/fraction.py:104-106 | every quote-free cardinal denominator is read that way |
| Fraction.FrattoSound | build/lib/nemo_text_processing/text_normalization/it/verbalizers/fraction.py:103-106 | the cardinal fraction reads numerator, white space and cardinal denominator, and writes "n fratto d" |
| Fraction.FrattoComplete | build/lib/nemo_text_processing/text_normalization/it/verbalizers/fraction.py:103-106 | every such reading is written |
| Fraction.IntegerPartSound | build/lib/nemo_text_processing/text_normalization/it/verbalizers/fraction.py:113 | an optional integer part is either absent, or the integer, white space, and " e " written before the fraction |
| Fraction.IntegerPartIntro | build/lib/nemo_text_processing/text_normalization/it/verbalizers/fraction.py:113 | an integer, white space and a fraction are written joined by " e " |
| Fraction.NoIntegerPartIntro | build/lib/nemo_text_processing/text_normalization/it/verbalizers/fraction.py:113 | a fraction without an integer part is written as it is |
| Fraction.IntegerThenSound | build/lib/nemo_text_processing/text_normalization/it/verbalizers/fraction.py:113 | the masculine graph writes the apocope-stripped integer text, " e " and the fraction, or the fraction alone |
| Fraction.IntegerThenComplete | build/lib/nemo_text_processing/text_normalization/it/verbalizers/fraction.py:113 | both readings are written |
| Fraction.IntegerFemSound | build/lib/nemo_text_processing/text_normalization/it/verbalizers/fraction.py:116 | the feminine integer is the integer text with apocope stripped and gender shifted |
| Fraction.IntegerFemComplete | build/lib/nemo_text_processing/text_normalization/it/verbalizers/fraction.py:116 | every quote-free integer text is read that way |
| Fraction.IntegerFemThenSound | build/lib/nemo_text_processing/text_normalization/it/verbalizers/fraction.py:128 | the feminine graph writes the gender-shifted integer, " e " and the fraction, or the fraction alone |
| Fraction.IntegerFemThenComplete | build/lib/nemo_text_processing/text_normalization/it/verbalizers/fraction.py:128 | both readings are written |
| Fraction.MezzaPluralEmpty | build/lib/nemo_text_processing/text_normalization/it/verbalizers/fraction.py:121 | no plural denominator can be rewritten from "mezzo" to "mezza" |
| Fraction.FemPluralMezzaEmpty | build/lib/nemo_text_processing/text_normalization/it/verbalizers/fraction.py:117-122 | the feminine default branch added for "mezza" writes nothing for any input |
| Fraction.FractionMascInFem | build/lib/nemo_text_processing/text_normalization/it/verbalizers/fraction.py:112-127 | every masculine fraction without an integer part is also a feminine one |
| Fraction.MezzaWithOneSound | build/lib/nemo_text_processing/text_normalization/it/verbalizers/fraction.py:123-125 | the feminine fraction with one reads the "un" numerator (writing nothing for it), white space and the singular "mezzo", and writes "mezza" |
| Fraction.MezzaWithOneComplete | build/lib/nemo_text_processing/text_normalization/it/verbalizers/fraction.py:123-125 | every such reading is written |
| Rewrite.RewriteWholeExact | nemo_text_processing/text_normalization/it/verbalizers/date.py:54-56 | a rewrite anchored at both the start and the end changes the text only when the whole text is the pattern |
| Rewrite.RewriteWholeAfterStart | nemo_text_processing/text_normalization/it/verbalizers/date.py:54-56 | once the scan has left the start, nothing is rewritten |
| Date.PrimoExact | nemo_text_processing/text_normalization/it/verbalizers/date.py:54-56 | "uno" becomes "primo"; every other day text, including one containing "uno", is unchanged |
| Date.WithPrimoSound | nemo_text_processing/text_normalization/it/verbalizers/date.py:57-61 | deterministic mode writes the "primo" form of the day; the other mode writes the day or its "primo" form |
| Date.DaySound | nemo_text_processing/text_normalization/it/verbalizers/date.py:47-61 | the day reads `day: "v"` with non-empty quote-free v and writes the apocope-stripped v, said "primo" if it is "uno" (in the other mode, also unchanged) |
| Date.DayComplete | nemo_text_processing/text_normalization/it/verbalizers/date.py:47-61 | every non-empty quote-free day is read that way, in both forms in the non-deterministic mode |
| Date.DayDetInNondet | nemo_text_processing/text_normalization/it/verbalizers/date.py:57-61 | the deterministic day is one of the non-deterministic days |
| Date.MonthSound | nemo_text_processing/text_normalization/it/verbalizers/date.py:63-69 | the month reads `month:`, white space and a non-empty quote-free quoted text, and writes that text |
| Date.MonthComplete | nemo_text_processing/text_normalization/it/verbalizers/date.py:63-69 | every such month field is read |
| Date.YearSound | nemo_text_processing/text_normalization/it/verbalizers/date.py:71-78 | the year reads `year:`, white space, a quote, a non-empty quote-free text, white space and a quote, and writes the text without the white space before the closing quote |
| Date.YearComplete | nemo_text_processing/text_normalization/it/verbalizers/date.py:71-78 | every such year field is read, the trimmed year among its outputs |
| Date.DayMonthYearSound | nemo_text_processing/text_normalization/it/verbalizers/date.py:80-85 | day-month-year writes the day and then, for each of month and year, nothing or one space and the field's text, with no connector |
| Date.DayMonthYearComplete | nemo_text_processing/text_normalization/it/verbalizers/date.py:80-85 | every such reading is written |
| Date.DayMonthYearFull | nemo_text_processing/text_normalization/it/verbalizers/date.py:80-85 | a full day, month and year after any runs of white space are written "day month year" with single spaces |
| Date.DayMonthYearMono | nemo_text_processing/text_normalization/it/verbalizers/date.py:80-85 | day-month-year over a day grammar is contained in the same ordering over any larger day grammar (used with the deterministic and the other day) |
| Date.MonthDayYearSound | nemo_text_processing/text_normalization/it/verbalizers/date.py:87-89 | month-day-year reads the month, one space, the day and an optional space and year, and writes them in that order |
| Date.MonthDayYearComplete | nemo_text_processing/text_normalization/it/verbalizers/date.py:87-89 | every such reading is written |
| Date.MonthDayYearMono | nemo_text_processing/text_normalization/it/verbalizers/date.py:87-89 | month-day-year over a day grammar is contained in the same ordering over any larger day grammar |
| Date.MonthDayYearFull | nemo_text_processing/text_normalization/it/verbalizers/date.py:87-93 | in deterministic mode a full month, day and year followed by the order marker are written "month day year" |
| Date.GatedSound | nemo_text_processing/text_normalization/it/verbalizers/date.py:90-93 | in deterministic mode the month-first ordering reads only inputs ending with " preserve_order: true", and drops the marker |
| Date.GatedComplete | nemo_text_processing/text_normalization/it/verbalizers/date.py:90-93 | with the marker appended (deterministic) or as it is (otherwise), every reading is accepted |
| Date.FinalSound | nemo_text_processing/text_normalization/it/verbalizers/date.py:95-96 | the verbalizer reads a date of either ordering, then a tail the order-marker deletion reads |
| Date.FinalComplete | nemo_text_processing/text_normalization/it/verbalizers/date.py:95-96 | every such reading is written |
| Date.GateAbsorbed | nemo_text_processing/text_normalization/it/verbalizers/date.py:90-96 | dropping the gate loses nothing when the order-marker deletion also reads the marker |
| Date.GateAbsorbedAt | nemo_text_processing/text_normalization/it/verbalizers/date.py:90-96 | the same, for one input and one output |
| Date.FinalDetInNondet | nemo_text_processing/text_normalization/it/verbalizers/date.py:57-96 | everything the deterministic verbalizer writes, the non-deterministic one writes too |

## Left out

- The lexical tables (`data/ordinals/*.tsv`) are not loaded. They are a parameter (`Ordinal.Tables`) holding sets of word pairs, already inverted.
- The cardinal grammar is a parameter relation.
- The foreign Italian helpers (`strip_accent`, `strip_cardinal_apocope`, `shift_cardinal_gender`, the `accents` table) are parameters, as is the English `delete_preserve_order`. Each is taken as the total function, or the set of tails, it computes. `GraphUtils.WellShaped` lists the only facts assumed about them.
- `add_tokens` and `delete_tokens` (`ordinal.py:140`, `fraction.py:135`, `date.py:98`) wrap a grammar in its token braces. They are foreign and not modelled.
- `optimize` and `project` change the automaton, not the relation, so the model has nothing for them. Weights are not modelled; none of these grammars uses them.
- `build/lib/nemo_text_processing/text_normalization/it/verbalizers/verbalize_final.py` is not part of this model.
- `articles`, imported by `date.py`, is unused there and not modelled.
- Concatenation is grouped to the right in the model. The source groups it to the left; both denote the same relation.
- The fraction verbalizer's `deterministic` flag changes nothing in its grammar, so the model has no such parameter.
- Ordinal.ElideBeforeOttavoSite: states the deletion only for a prefix that holds no "o", a sufficient condition; the general behaviour is given by Ordinal.ElideBeforeOttavoSpec.
- Date.YearSound: names one split of the trailing white space per output. It does not list how many outputs a year with trailing white space has.
