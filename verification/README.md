# Verified model of the MySQL 5.1 client library's portable core

These Dafny files model the string collation, LIKE matching, number conversion, result-set reading,
charset registry and small buffer routines of the MySQL 5.1 client library, and prove what that code is
for. Code that works step by step is a method with the loops of the original, proved against a
specification function; what is promised about that function is proved beside it as lemmas.
`dafny verify dfyconfig.toml` checks everything.

Main results, with the members that state them:

* **LIKE.** `Wildcmp8bit` and `WildcmpMb` (contract: `Correct`) return 0 exactly when the string is in the
  language of the pattern, and -1 only if no suffix of the string is. With the identity for weights they are
  `my_wildcmp_bin` and `my_wildcmp_mb_bin`; big5 and sjis are instances (`Big5Valid`, `SjisValid`). There are
  two exceptions, see below: a signed `char`, with the exact condition, and a `%` in memory behind the pattern,
  with the patterns outside which it does no harm. `LikeEscapes`: any sequence of wildcards and characters, written
  with its special characters escaped, is read back as that sequence (`WrittenRead`), so an escaped string matches
  exactly its own characters (`QuotedAnswer`).
* **LIKE ranges.** `RangeSimpleCovers`, `RangeMbCovers`: every matching string that fits lies between the
  two buffers that `LikeRangeSimple` and `LikeRangeMb` fill; for single bytes exactly when byte 0 weighs
  least and the fill character most (`RangesCoverIff`).
* **Decimal literals.** `Strntoull10rnd` (contract: `Promised`) returns `Computed` of its string. `FaithfulExactly`:
  for every string with digits, whatever follows its longest literal, that is the documented result, rounded
  half away from zero and clamped, *if and only if* the string is `Faithful`, provided that no `int` overflows
  (`InInt`). `StartsWithLiteral` and `LongestLiteral` tie the documented result to the longest literal that
  the string starts with, and `DecimalExamples` has a string for each departure. `DecimalText`: the literals are
  exactly the texts of the documented grammar, read as the number written (`TextRead`, `LiteralWritten`).
* **Integers.** `Strntoll` is the exact value clamped to 64 bits; `PrintParse`: printing and parsing is the
  identity on all 64-bit values; `NumeralParse`: numerals of every base are read as their numbers.
* **Collation.** Comparison is a total preorder (`Trichotomy`, `NotAfterTransitive`); keys agree with it exactly
  when the weight of a space is the space byte (`KeysAgreeIff`), hashes exactly when no other byte has that
  weight (`HashesAgreeIff`).
  The Czech comparison has two levels (`StreamTwoLevels`) and agrees with its keys (`KeysCompare`); with the
  shipped tables words compare by the Czech alphabet, "ch" being one letter of it (`WordsCompare`).
* **Reverse Unicode index.** `CreateFromUni` and `WcMb` together answer as the linear scan `Reverse` does.
* **Rows and connections.** Both row readers deliver what was encoded (`ReadUnbuffered`, `ReadBuffered`).
  For any sequence of calls (`ClientRuns.Run`) the client gives the answers of a reference that knows no
  packets: an accepted command finds nothing unread, and at most one result is live, exactly while the
  status is USE_RESULT. In the reference the rows fetched from a result are a prefix of the rows sent
  (`FetchedInOrder`), all of them once a fetch reports the end (`EndMeansAll`).
* **Registry.** In every interleaving the registry is built once before anyone uses it, what is returned is
  ready, and each entry is made ready at most once. A result is NULL only for an empty slot, a charset that is not
  available or an initialisation that fails (`NullHasCause`); nothing else is initialised (`ReadiedIsAvailable`),
  and a thread on its own gets its charset (`AloneReturns`, `CanReturn`).
* **Escaping.** `EscapeRoundTrip`, `QuoteRoundTrip`: a character-wise reader recovers the input, also in
  big5, whose trail bytes include the backslash. `QuotedEscapedEnds`, `QuotedDoubledEnds`: a quoted string
  ends at the delimiter behind its contents, whatever these are. The escaped form has no control byte (`EscapedClean`).
* **Buffers.** `Bchange` replaces a run in place by two overlapping moves. `DynamicArrays.Run`: any sequence
  of calls that ask for sizes that fit an `uint` of bytes gives the contents, the room and the answers of a reference, with
  allocations that may fail.

## Where the code is not the ideal

* `my_strntoull10rnd_8bit` differs from its documentation in these places; `Faithful` says exactly when.
  1. `(ull % d) * 2` wraps at 10^19 for remainders of 2^63 and more: literals of magnitude in
     [2^63 / 10^19, 1) with nineteen or more decimal places become 0 instead of 1 (`WrapsExactly`,
     `WrappedDoublingExample`).
  2. A negative number too big for 64 bits, read as unsigned, gives ULONGLONG_MAX, not 0 (`FinishedIdeal`,
     `NegativeExample`).
  3. In front of a second dot a mantissa of 64 bits loses its decimal places (`SecondDotExample`).
  4. An exponent sign with nothing behind it makes the code leave out scaling and rounding altogether, also
     for the digits that did not fit 64 bits (`DanglingSignExample`, `LongDanglingExample`). `Harmless` says
     when 3 and 4 do no harm.
  5. The exponent, or its sum with the scanner's shift, can overflow `int`. The model wraps, as the usual
     machines do (`WrappedExponentExample`, `WrappedShiftExample`); where the sum becomes INT_MIN, whose
     negative is used as an index, it says nothing.
  6. An `E` with no digits behind it, or behind its sign, is read although no literal has it: the end pointer
     is then behind it (`EndExactly`, `LoneExponentExample`).
* `net_field_length` reads four bytes of an eight-byte length, and 2^32 - 1 is NULL_LENGTH; lengths are below
  that (`Sendable`); exactly those are read back (`HeaderRead`).
* "Not more than 'dstlen' bytes are written" (MySQL/ctype-simple.c:49) holds of `my_strnxfrm_win1250ch` exactly
  if the stream is shorter than the key (`NothingBehindKeyIff`, `BehindKeyExample`); otherwise the next byte of
  the stream, or its terminator, is written behind the key.
* `cli_read_rows` tests a length against what is left of the copy, not of the packet. It notices a field that
  overruns the packet exactly if the excess is greater than the reading is ahead of the copying
  (`CopyInsideIff`, `OverrunExample`). No row that was sent has such a field.
* The sizes in bytes of a `DYNAMIC_ARRAY` are `uint` products. One that does not fit wraps, and the memory that
  is asked for is too small (`ByteSizeFits`, `ByteSizeExample`); the contracts ask for products that fit.
  `delete_dynamic_element` does not test its index: with one that no element has it takes an element off and
  moves a wrapped number of bytes. In `DynamicArrays.Run` such a call is not made, and its answer is `NotMade`.
* `cli_read_rows` ends at a 254 packet of fewer than 8 bytes, `read_one_row` and `cli_flush_use_result` at
  one of at most 8; no row is either (`RowIsNoMarker`).
* Where `char` is signed, `my_wildcmp_mb_bin` compares it with an `uchar` in its search (MySQL/ctype-mb.c:774), and
  a single byte above 127 is never found. It returns 0 exactly on a match whose pattern has no such literal first
  behind wildcards with a `%` (`Blind`, `CorrectMeans`). That spares character sets with ASCII single bytes only,
  like big5 (`NeverBlind`); the half-width kana of sjis are missed (`KanaUnseen`, `KanaMissed`).
* All four matchers read the byte behind the pattern, the parameter `after`. It matters only if it is `%`, and then
  only for patterns that end in one literal directly behind wildcards with a `%` (`EndsBehind`), for which the
  search may end too early. A result of 0 is a match whatever it is.
* `my_longlong10_to_str_8bit` with a length of 0 writes the one byte of a zero nevertheless, and all of a negative
  number, because the length wraps behind the sign (`BytesWritten`).
* In `mysql_fetch_row` the error for a fetch outside USE_RESULT, and in `mysql_free_result` the flag
  `unbuffered_fetch_cancelled`, are modelled, but the invariant shows that a program that uses only these
  calls gets to neither.

## Conventions

`byte` is 0..255. Pointers are positions, -1 is NULL. `ulong` has 32 bits (MySQL/my_config.h), which
matters for hashing, for NULL_LENGTH and for `my_longlong10_to_str_8bit`; so has `size_t`. Loops whose bodies are
large are split into methods that do one turn each. Special characters of LIKE are distinct ASCII characters:
above 127 one loop would compare them as signed and another as unsigned. Multi-byte strings and patterns are
well formed. The destination and source of `my_strnxfrm_simple` are the same array or different ones. Allocation results,
the sort order of `qsort` beyond descending counts, character classes and replies of the server are
parameters.

## Model

| member | source | states |
|---|---|---|
| Charsets.Charset.CharLenFits | MySQL/ctype-mb.c:145-148 | stepping by one character stays inside the string |
| Charsets.EightBit | MySQL/ctype-simple.c:944-950 | single-byte character sets, with any weights, fit the abstract character set |
| Charsets.Big5Valid | MySQL/ctype-big5.c:460-470 | big5 does: a double-byte character is recognised by its bytes alone, and no ASCII byte weighs as much as a lead byte |
| Charsets.SjisValid | MySQL/ctype-sjis.c:179-194 | so does sjis as `sjis_bin` compares it |
| Charsets.Big5Bytes | MySQL/ctype-big5.c:41-45 | the limits of both bytes of a big5 character, in bytes |
| Charsets.Big5Texts | MySQL/ctype-big5.c:6303-6330 | well-formed and ill-formed big5 texts, in bytes |
| Charsets.SjisBytes | MySQL/ctype-sjis.c:179-194 | the limits of both bytes of a sjis character and of the half-width kana, in bytes |
| Charsets.Big5RunWellFormed | MySQL/ctype-big5.c:6303-6330 | a run of characters that reaches the end makes the string well formed, one that ends at a bad byte makes it ill formed |
| Charsets.WellFormedLenBig5 | MySQL/ctype-big5.c:6303-6330 | the result is the end of the longest run of at most `pos` well-formed characters; error exactly where a bad byte ended it; with room enough, all is read without error exactly if the string is well formed |
| LikeSpec.TakeOne | MySQL/ctype-simple.c:962-983 | dropping one matched character keeps the answer, and keeps "no suffix matches" |
| LikeSpec.ManyAborts | MySQL/ctype-simple.c:1013-1025 | a pattern that opens with `%` and misses the string misses all its suffixes, so -1 is sound |
| LikeSpec.ManyMany | MySQL/ctype-simple.c:990-993 | `%%` is `%` |
| LikeSpec.ManyOne | MySQL/ctype-simple.c:994-1000 | `%_` is `_%` |
| LikeSpec.SkipCandidate | MySQL/ctype-simple.c:1013-1024 | a candidate that misses can be passed over |
| LikeSpec.AbortCandidate | MySQL/ctype-simple.c:1019-1023 | where no suffix fits the rest of the pattern no later candidate does |
| LikeSpec.CorrectMeans | MySQL/ctype-mb.c:774 | what `Correct` comes to: 0 exactly on the matches that the search can see |
| LikeSpec.NeverBlind | MySQL/ctype-mb.c:774 | where single-byte characters are ASCII it can see all |
| LikeMatch.LiteralTest | MySQL/ctype-mb.c:164-172 | both tests for a literal decide whether the characters are the same |
| LikeMatch.LiteralTurn | MySQL/ctype-mb.c:159-177 | a turn of the literal loop keeps the question or decides it with "no match" |
| LikeMatch.OneTurn | MySQL/ctype-mb.c:178-186 | a turn of the `_` loop keeps the question or shows that no suffix matches |
| LikeMatch.WildTurn | MySQL/ctype-mb.c:196-209 | skipping wildcards behind a `%` keeps the question |
| LikeMatch.SearchTurn | MySQL/ctype-mb.c:222-251 | after a failed candidate the question is the same one character on, and the early exits are right |
| LikeMatch.LiteralRunMb | MySQL/ctype-mb.c:159-177 | the literal loop answers or stops in front of a wildcard with the question unchanged |
| LikeMatch.SearchMb | MySQL/ctype-mb.c:189-251 | behind a `%`: 0 exactly on a match, otherwise -1, and then no suffix matches |
| LikeMatch.TryHere | MySQL/ctype-mb.c:224-249 | a candidate is taken exactly on a match behind it, if nothing misleads the matcher; never without one |
| LikeMatch.FindLiteralMb | MySQL/ctype-mb.c:212-251 | the retry loop finds a match exactly if there is one, if nothing misleads it; never without one |
| LikeMatch.WildcmpMb | MySQL/ctype-mb.c:150-255 | 0 exactly when the string is in the language of the pattern, unless a signed `char` hides a literal or a `%` in memory ends the search; -1 only if no suffix is; also MySQL/ctype-mb.c:689-791 with the identity for weights |
| LikeMatch.LiteralRun8bit | MySQL/ctype-simple.c:962-972 | as LiteralRunMb, for bytes |
| LikeMatch.Search8bit | MySQL/ctype-simple.c:984-1026 | as SearchMb, for bytes |
| LikeMatch.FindByte8bit | MySQL/ctype-simple.c:1015-1017 | the scan for the next byte of the wanted weight passes over no match |
| LikeMatch.FindLiteral8bit | MySQL/ctype-simple.c:1005-1025 | the retry loop finds a match exactly if there is one, if nothing misleads it; never without one |
| LikeMatch.Wildcmp8bit | MySQL/ctype-simple.c:953-1029 | 0 exactly when the string is in the language of the pattern, unless a `%` in memory ends the search; -1 only if no suffix is; also MySQL/ctype-bin.c:324-399 with the identity for weights |
| LikeExamples.KanaUnseen | MySQL/ctype-mb.c:774 | in sjis "%" and a half-width kana match that kana, which the search cannot see |
| LikeExamples.KanaMissed | MySQL/ctype-mb.c:689-791 | and the answer is not 0 |
| LikeEscapes.QuotedMatches | MySQL/ctype-simple.c:964-971 | a string with an escape in front of each special character, and of any others, matches exactly the strings of the same characters |
| LikeEscapes.QuotedAnswer | MySQL/ctype-mb.c:150-255 | and a correct matcher answers 0 exactly for these, whatever can mislead it elsewhere |
| LikeEscapes.WrittenRead | MySQL/ctype-mb.c:157-211 | every sequence of wildcards and characters, written with its special characters escaped, is read back as that sequence |
| LikeEscapes.WrittenAnswer | MySQL/ctype-mb.c:150-255 | so a correct matcher answers what the pattern was written for |
| LikeEscapes.Wildcards | MySQL/ctype-simple.c:973-1011 | a lone `%` matches every string, a lone `_` exactly those of one character |
| LikeEscapes.LoneEscape | MySQL/ctype-simple.c:964-965 | an escape at the end of a pattern stands for itself |
| LikeEscapes.Big5Case | MySQL/ctype-big5.c:143-160 | under the weights of big5_chinese_ci two ASCII letters are the same exactly if they are one letter up to case |
| LikeEscapes.Big5Same | MySQL/ctype-big5.c:143-177 | all pairs of bytes that these weights take for the same |
| LikeRange.SetMaxSortChar | MySQL/ctype-simple.c:1343-1360 | the result has the largest weight; a byte of the largest weight is kept |
| LikeRange.RangeSimpleCovers | MySQL/ctype-simple.c:1049-1096 | every string of at most `n` bytes that matches lies between the buffers under the padded comparison, if byte 0 weighs least |
| LikeRange.RangesCoverIff | MySQL/ctype-simple.c:1049-1096 | they do exactly when byte 0 weighs least and the fill character most, for every pattern and string |
| LikeRange.LikeRangeSimple | MySQL/ctype-simple.c:1049-1096 | both buffers and both lengths are those of the specification |
| LikeRangeMb.RangeMbCovers | MySQL/ctype-mb.c:557-686 | every string of at most `n` bytes and `n / mbmaxlen` characters that matches lies between the buffers |
| LikeRangeMb.PutLiteral | MySQL/ctype-mb.c:604-610 | a character goes into both buffers whole, or ends them where it does not fit |
| LikeRangeMb.LikeRangeMb | MySQL/ctype-mb.c:557-686 | both buffers and both lengths are those of the specification, through every exit |
| LikeRangeHolds.MatchInRange8bit | MySQL/ctype-simple.c:1362-1367 | a string that the matcher accepts compares as inside the range, with the fill character that initialisation sets |
| LikeRangeHolds.MatchInRangeMb | MySQL/ctype-mb.c:557-791 | the same for the multi-byte binary collations |
| Collation.StrnncollspSimple | MySQL/ctype-simple.c:150-193 | the sign is the order of the weights with both strings padded by spaces; also MySQL/ctype-mb.c:402-446 and MySQL/ctype-bin.c:165-211 |
| Collation.Trichotomy | MySQL/ctype-simple.c:150-193 | any two strings are ordered or equal |
| Collation.LessExcludes | MySQL/ctype-simple.c:150-193 | and only one of these |
| Collation.TrailingSpace | MySQL/ctype-simple.c:150-193 | a space at the end makes no difference |
| Collation.LessTransitive | MySQL/ctype-simple.c:150-193 | the order is transitive |
| Collation.NotAfterTransitive | MySQL/ctype-simple.c:150-193 | "not after" is transitive |
| Collation.KeyRefinesComparison | MySQL/ctype-simple.c:46-47 | byte order of the keys is the order of the strings, equal keys are equal strings |
| Collation.KeysAgreeIff | MySQL/ctype-simple.c:46-47 | that promise holds exactly when the weight of space is the space byte |
| Collation.StrnxfrmSimple | MySQL/ctype-simple.c:74-96 | the buffer holds the key, in place as well as copied, and nothing else is written |
| Collation.HashSortSimple | MySQL/ctype-simple.c:302-322 | the two counters are the hash of the weights without trailing spaces |
| Collation.HashExample | MySQL/ctype-simple.c:316-321 | "A" hashes from 1 and 4, where callers start (MySQL/hash.c:43), to 580 and 7 |
| Collation.HashesDiffer | MySQL/ctype-simple.c:316-321 | from there single bytes of different weights hash differently |
| Collation.HashRespectsEquality | MySQL/ctype-simple.c:302-322 | equal strings have equal hashes if only space weighs as space |
| Collation.HashesAgreeIff | MySQL/ctype-simple.c:302-322 | and only then |
| Decimal.RoundDivNearest | MySQL/ctype-simple.c:1460-1462 | the rounded quotient is the nearest integer, ties away from zero |
| Decimal.DropDigits | MySQL/ctype-simple.c:1555-1582 | leaving out trailing digits before a right shift does not change the rounding |
| DecimalShift.ShiftedExact | MySQL/ctype-simple.c:1635-1672 | scaling rounds the whole literal and detects overflow exactly, unless the doubling wraps |
| DecimalShift.WrapsExactly | MySQL/ctype-simple.c:1654-1658 | the doubling wraps exactly for the literals just below one with nineteen places or more, and the result is 0 for 1 |
| DecimalShift.RepresentsOnly | MySQL/ctype-simple.c:1544-1604 | what the scanner keeps is determined by the mantissa: the leading digits, how many are left out, and which way they round |
| DecimalShift.LeadingIsRounded | MySQL/ctype-simple.c:1622-1623 | the leading digits alone are the rounded number exactly when nothing is left to shift or to round up |
| DecimalShift.WrapExample | MySQL/ctype-simple.c:1654-1658 | a literal for which it does |
| DecimalRound.FinishedIdeal | MySQL/ctype-simple.c:1674-1726 | the final clamping is the documented one exactly unless a negative number too big for 64 bits is read as unsigned |
| DecimalRound.ScanMantissa | MySQL/ctype-simple.c:1542-1604 | the scanner keeps the leading digits, the shift for those left out and for the decimal places, and the rounding digit; in front of a second dot it forgets the places |
| DecimalRound.CutMantissa | MySQL/ctype-simple.c:1554-1582 | so it does where the digits overflow 64 bits |
| DecimalRound.ScanExponent | MySQL/ctype-simple.c:1615-1633 | where reading stops, and the exponent as an `int`, wrapped if it is none |
| DecimalRound.ApplyShift | MySQL/ctype-simple.c:1635-1672 | the shifts compute the scaling of the specification, for every shift but INT_MIN |
| DecimalLiteral.StartsWithLiteral | MySQL/ctype-simple.c:1449-1467 | the magnitude and the sign given for a string are those of a literal that it starts with |
| DecimalLiteral.LongestLiteral | MySQL/ctype-simple.c:1456-1467 | and of the longest one |
| DecimalLiteral.IdealClamps | MySQL/ctype-simple.c:1478-1482 | the documented result is the nearest number of the type, ERANGE exactly if that is another number |
| DecimalText.TextRead | MySQL/ctype-simple.c:1461-1467 | whatever is written by the documented grammar, behind spaces and tabs, is read as the number written: sign, figures, places and exponent |
| DecimalText.LiteralWritten | MySQL/ctype-simple.c:1461-1467 | and nothing else is a literal: each can be written so |
| DecimalText.TextDocumented | MySQL/ctype-simple.c:1446-1457 | its documented result is the number written, rounded and clamped |
| DecimalText.TextComputed | MySQL/ctype-simple.c:1488-1726 | the result of the code is that exactly outside two families, where no `int` overflows |
| DecimalText.CaseOfE | MySQL/ctype-simple.c:1614 | the case of the letter E anywhere changes neither the end nor the result |
| DecimalText.DigitsRead | MySQL/ctype-simple.c:1478-1482 | a decimal integer of any length, with any sign, is documented to be read as that integer clamped |
| DecimalText.PrintedRead | MySQL/ctype-simple.c:882-934 | what is printed for 64 bits, signed or unsigned, is read back as the same number |
| DecimalText.HundredExample | MySQL/ctype-simple.c:1614 | "1E2" and "1e2" are 100 |
| DecimalText.PlusExample | MySQL/ctype-simple.c:1500-1509 | a tab, a plus sign and "5" are 5 |
| DecimalText.MinusExample | MySQL/ctype-simple.c:1500-1509 | a space, a tab and "-12.5" are -13 |
| DecimalRound.ScaledExactly | MySQL/ctype-simple.c:1635-1726 | scaling and clamping give the documented result exactly outside two families |
| DecimalRound.HarmlessExactly | MySQL/ctype-simple.c:1587-1591 | clamping without scaling gives the documented result exactly in the cases that `Harmless` lists |
| DecimalRound.FaithfulExactly | MySQL/ctype-simple.c:1439-1486 | for every string with digits the result is the documented one if and only if the string is `Faithful`, where no `int` overflows |
| DecimalRound.EndExactly | MySQL/ctype-simple.c:1472-1473 | the end pointer is behind the longest literal exactly unless an `E` without digits follows |
| DecimalExamples.SecondDotExample | MySQL/ctype-simple.c:1587-1591 | "1.5." gives 15, documented is 2 |
| DecimalExamples.DanglingSignExample | MySQL/ctype-simple.c:1622-1623 | "1.5e+" gives 15, documented is 2 |
| DecimalExamples.LongDanglingExample | MySQL/ctype-simple.c:1622-1623 | twenty nines and "e+" give nineteen nines without error, documented is ULONGLONG_MAX and ERANGE |
| DecimalExamples.NegativeExample | MySQL/ctype-simple.c:1723-1725 | "-1e20" as unsigned gives ULONGLONG_MAX, documented is 0 |
| DecimalExamples.WrappedDoublingExample | MySQL/ctype-simple.c:1654-1658 | nineteen nines and "e-19" give 0, documented is 1 |
| DecimalExamples.WrappedExponentExample | MySQL/ctype-simple.c:1625-1631 | "1e4294967296" gives 1 where `int` wraps, documented is ULONGLONG_MAX and ERANGE |
| DecimalExamples.WrappedShiftExample | MySQL/ctype-simple.c:1631 | twenty-one nines and "e2147483647", an exponent that is an `int`, give 0 where the sum wraps |
| DecimalExamples.LoneExponentExample | MySQL/ctype-simple.c:1614-1617 | of "1e" both bytes are read, and only one is a literal |
| DecimalRound.SmallNumber | MySQL/ctype-simple.c:1514-1520 | the first loop reads at most nine digits exactly |
| DecimalRound.LongNumber | MySQL/ctype-simple.c:1540-1726 | the promise of the whole function, for numbers the first loop did not finish |
| DecimalRound.Strntoull10rnd | MySQL/ctype-simple.c:1488-1726 | value and error of every string with digits, and exactly when they are the documented ones; end pointer and missing digits for every string |
| Integers.CutoffExact | MySQL/ctype-simple.c:628-652 | the cutoff test detects exactly the digits that overflow 64 bits |
| Integers.ReadDigits | MySQL/ctype-simple.c:626-653 | the digit loop reads the exact value or reports overflow |
| Integers.Strntoll | MySQL/ctype-simple.c:562-682 | value clamped to 64 bits, error and end pointer, for bases 2 to 36 |
| Integers.WriteDigits | MySQL/ctype-simple.c:908-926 | both division loops together write the decimal digits |
| Integers.Longlong10ToStr | MySQL/ctype-simple.c:882-934 | the text of the value, cut to the room there is, and what a length of 0 gives; the rest of the buffer is untouched |
| Integers.PrintParse | MySQL/ctype-simple.c:882-934 | parsing the text of any 64-bit value gives it back without error, the smallest included |
| Integers.UnsignedText | MySQL/ctype-simple.c:893-906 | the unsigned text of a negative value is that of its two's complement |
| Integers.NumeralParse | MySQL/ctype-simple.c:626-674 | a numeral in any base, its letters of either case, behind spaces and a sign, is parsed as its number clamped to 64 bits, up to the first byte that is no digit |
| Integers.NoDigits | MySQL/ctype-simple.c:676-680 | without digits there is no number and nothing is read |
| Integers.HexExample | MySQL/ctype-simple.c:635-641 | "fF" in base 16 is 255 |
| Czech.SearchDoubles | MySQL/ctype-win1250ch.c:425-441 | the search stops within its five entries at the one for the letters there |
| Czech.NextCmpValue | MySQL/ctype-win1250ch.c:415-444 | the next weight of the two-pass stream, 0 at its end |
| Czech.Strnncoll | MySQL/ctype-win1250ch.c:448-471 | the sign of the lexicographic comparison of the streams |
| Czech.StreamTwoLevels | MySQL/ctype-win1250ch.c:448-471 | which compares all first-pass weights and then, on a tie, the second pass |
| Czech.LexAntisymmetric | MySQL/ctype-win1250ch.c:448-471 | swapping the strings turns the sign |
| Czech.LexTransitive | MySQL/ctype-win1250ch.c:448-471 | the comparison is transitive |
| Czech.Strnxfrm | MySQL/ctype-win1250ch.c:491-510 | the key is the stream, a terminator and spaces; the byte behind it is a byte of the stream or the terminator, or untouched if the stream is shorter |
| Czech.NothingBehindKeyIff | MySQL/ctype-win1250ch.c:502-506 | nothing is written behind the key exactly if the stream is shorter |
| Czech.KeysCompare | MySQL/ctype-win1250ch.c:491-510 | with room for the stream, terminated or not, keys compare as the strings do |
| Czech.WideKeysCompare | MySQL/ctype-win1250ch.c:491-510 | two bytes of key for a byte of string are room enough |
| CzechTables.Win1250chValid | MySQL/ctype-win1250ch.c:282-400 | the shipped weight tables have the shape on which this rests |
| CzechTables.BehindKeyExample | MySQL/ctype-win1250ch.c:502-506 | the key of "a" in two bytes is full, and the terminator goes behind it |
| CzechAlphabet.SingleWeights | MySQL/ctype-win1250ch.c:282-400 | in the shipped tables the forms of a letter weigh the same in the first pass, and in the second capital comes before small and plain before accented |
| CzechAlphabet.FirstPassWeight | MySQL/ctype-win1250ch.c:282-413 | the weights of the first pass increase along the Czech alphabet, with "ch" between "h" and "i" |
| CzechAlphabet.WordWeights | MySQL/ctype-win1250ch.c:407-444 | the weights of a word are those of its letters, "ch" being one |
| CzechAlphabet.WordsCompare | MySQL/ctype-win1250ch.c:448-471 | any two words compare by the Czech alphabet, and only words of the same letters by capitals and accents |
| CzechAlphabet.FirstLetters | MySQL/ctype-win1250ch.c:448-471 | any two strings that start with different letters, whatever follows, compare by these |
| CzechAlphabet.DigraphPlace | MySQL/ctype-win1250ch.c:407-413 | "ch", "Ch" and "CH", whatever follows, come after "h" and before "i" |
| UnicodeIndex.CountPlanes | MySQL/ctype-simple.c:1273-1293 | every mapped code point is counted in its plane and inside its range |
| UnicodeIndex.Qsort | MySQL/ctype-simple.c:1245-1295 | the planes, in descending order of their counts |
| UnicodeIndex.FillPlane | MySQL/ctype-simple.c:1305-1319 | the table of a plane answers as the linear scan |
| UnicodeIndex.CreateFromUni | MySQL/ctype-simple.c:1256-1333 | the list covers every mapped code point correctly; it fails only for want of a table or of memory |
| UnicodeIndex.WcMb | MySQL/ctype-simple.c:261-279 | the lookup finds the largest byte for the code point, and nothing exactly when there is none; without room it says so |
| UnicodeIndex.RoundTrip | MySQL/ctype-simple.c:250-279 | a byte with a code point comes back as a byte with the same one |
| UnicodeIndex.ReverseSound | MySQL/ctype-simple.c:250-279 | a code point is found exactly if some byte maps to it, and then the byte found does |
| Rows.HeaderRead | MySQL/pack.c:21-47 | a length that was stored is read back exactly if it is below NULL_LENGTH |
| Rows.LengthBytes | MySQL/pack.c:97-112 | lengths of one and two bytes as they are sent, on both sides of the limits |
| Rows.ThreeByteLengths | MySQL/pack.c:113-118 | the same for three bytes |
| Rows.EightByteLength | MySQL/pack.c:119-121 | and for eight |
| Rows.HeaderBytes | MySQL/pack.c:21-47 | the same lengths, and NULL, as they are read |
| Rows.WideNullBytes | MySQL/pack.c:21-47 | an eight-byte length of four bytes 0xff reads as NULL |
| Rows.RowBytes | MySQL/client.c:1478-1525 | a row of NULL, "a" and the empty string, in bytes |
| Rows.DecodeEncode | MySQL/client.c:1478-1525 | every row comes back as it was sent |
| Rows.RowIsNoMarker | MySQL/client.c:1403-1411 | no row is taken for an error or for the end of the rows by either test |
| RowReaders.StoreKeeps | MySQL/client.c:1518-1520 | the late NUL byte goes over a length byte already read and hits no field |
| RowReaders.ReadOneRow | MySQL/client.c:1478-1525 | the in-place reader shows the decoded fields and lengths; -1 exactly for a field that overruns the packet |
| RowReaders.CopyRow | MySQL/client.c:1426-1453 | the copying reader shows the decoded fields, laid out one behind the other; its error exit is taken exactly for rows that cannot be decoded |
| RowReaders.RowCopyInside | MySQL/client.c:1426-1443 | every decodable row leaves room for its copy |
| RowReaders.CopyInsideIff | MySQL/client.c:1435 | the length test notices an overrun exactly if it exceeds the lead of reading over copying; without one the row is decodable |
| RowReaders.OverrunExample | MySQL/client.c:1435 | a NULL and a missing byte are not noticed |
| RowReaders.FetchLengths | MySQL/client.c:1242-1262 | the distances of the pointers give the lengths back |
| RowReaders.ReadUnbuffered | MySQL/client.c:1478-1525 | what one reader delivers for a row that was sent |
| RowReaders.ReadBuffered | MySQL/client.c:1376-1470 | the other reader delivers the same |
| Client.NextPacket | MySQL/client.c:1403-1411 | the packet in front is a row and no marker, or the one that ends the rows |
| Client.ReplyStart | MySQL/client.c:2789-2864 | the first packet tells the kinds of replies apart |
| Client.ReplyBytes | MySQL/client.c:2789-2864 | a result set packet by packet |
| Client.Mysql.SafeRead | MySQL/client.c:681-752 | one packet is taken, and an error packet leaves an error |
| Client.Mysql.ReadRows | MySQL/client.c:1376-1470 | exactly the rows and their end are read |
| Client.Mysql.Flush | MySQL/client.c:849-871 | nothing is left of the reply |
| Client.Mysql.RealQuery | MySQL/client.c:784-792 | a command is accepted only with nothing unread; one that is not changes nothing; the error left is that of this command |
| Client.Mysql.ReadQueryResult | MySQL/client.c:2789-2864 | after the call the rows of a result set, and only they, are unread |
| Client.Mysql.StoreResult | MySQL/client.c:2916-2957 | the result has all rows in order, and the connection is free, also after an error packet |
| Client.Mysql.UseResult | MySQL/client.c:2971-3007 | the result is live and nothing was read |
| Client.Mysql.FetchRow | MySQL/client.c:3016-3061 | the next row in order; the end frees the connection; an error is left exactly if an error packet ended the rows |
| Client.Mysql.ReadOneRow | MySQL/client.c:1478-1525 | one row is taken, or the end and then nothing is left |
| Client.Mysql.FreeResult | MySQL/client.c:961-989 | freeing a live result reads all that is left of it and frees the connection; any other leaves the connection alone |
| ClientRuns.ValidInStep | MySQL/client.c:961-989 | at most one result is live, exactly while the status is USE_RESULT; nothing is unread while it is READY |
| ClientRuns.QueryShows | MySQL/client.c:784-790 | a command sent while nothing is unread leaves the client looking like the reference |
| ClientRuns.TakenShows | MySQL/client.c:2916-3007 | so does handing out a result, stored or used |
| ClientRuns.FetchShows | MySQL/client.c:3016-3061 | so does a fetch, from memory or from the connection |
| ClientRuns.FreeShows | MySQL/client.c:961-989 | so does freeing, at any point of the rows |
| ClientRuns.Do | MySQL/client.c:2898-3061 | each call gets the answer of the reference |
| ClientRuns.Run | MySQL/client.c:2898-3061 | so does any sequence of calls on a new connection; accepted commands find nothing unread, and the connection ends in step |
| ClientRuns.FetchedInOrder | MySQL/client.c:3016-3061 | over any further calls, rows fetched from a result and rows left are the rows it had, in order; of a freed one a beginning was fetched |
| ClientRuns.EndMeansAll | MySQL/client.c:2916-3061 | when a fetch reports the end, exactly the rows of the reply were fetched |
| ClientRuns.FetchAll | MySQL/client.c:2916-3061 | fetching to the end gives exactly the rows sent, for stored and used results alike |
| Registry.InitEstablishes | MySQL/charset.c:408-450 | the invariant holds before the first call |
| Registry.StepKeeps | MySQL/charset.c:408-535 | every step of every thread keeps it |
| Registry.NextKeeps | MySQL/charset.c:408-535 | so do new threads |
| Registry.RunInvariant | MySQL/charset.c:408-535 | it holds in every run |
| Registry.BuiltOnceBeforeUse | MySQL/charset.c:408-450 | the registry is built at most once, and no thread passes before it is complete |
| Registry.ReturnedIsReady | MySQL/charset.c:496-535 | what is returned is ready then and ever after |
| Registry.ReadiedOnce | MySQL/charset.c:524-530 | MY_CS_READY is set at most once per entry |
| Registry.MutualExclusion | MySQL/charset.c:408-535 | two threads are never both between lock and unlock |
| RegistryResults.InitialisedIsAvailable | MySQL/charset.c:518-526 | in every run only what is available is initialised |
| RegistryResults.ReadiedIsAvailable | MySQL/charset.c:518-530 | and MY_CS_READY is set for nothing else |
| RegistryResults.NullHasCause | MySQL/charset.c:496-535 | in every run a result becomes NULL only in a step of its own call that finds the slot empty, the entry not available, or the initialisation failing |
| RegistryResults.NoDeadlock | MySQL/charset.c:408-535 | in every run some thread can go on |
| RegistryResults.AloneReturns | MySQL/charset.c:496-535 | a thread on its own on a present entry that is available once in memory, and whose initialisation succeeds, returns it ready after nine steps |
| RegistryResults.AloneReady | MySQL/charset.c:502-505 | on an entry that is ready, after two |
| RegistryResults.CanReturn | MySQL/charset.c:496-535 | and with the mutex free it has such steps |
| RegistryResults.EntriesChange | MySQL/charset.c:408-535 | entries change only in the build, by a file read for a charset not in memory, or by MY_CS_READY, and only under the mutex |
| RegistryResults.FileReads | MySQL/charset.c:512-516 | a file is read exactly for a charset not in memory |
| Escaping.Big5Escapable | MySQL/ctype-big5.c:460-470 | big5 meets the conditions of both round trips |
| Escaping.EightBitEscapable | MySQL/charset.c:696-783 | so do single-byte character sets |
| Escaping.ReadBack | MySQL/charset.c:705-778 | what is written for one character is read as that character |
| Escaping.EscapeRoundTrip | MySQL/charset.c:696-783 | escaping is uniquely decodable |
| Escaping.QuotedEscapedEnds | MySQL/charset.c:696-783 | a string in apostrophes or in double quotes ends at the delimiter behind its escaped contents, whatever follows |
| Escaping.EscapedClean | MySQL/charset.c:735-765 | the output has no byte 0, LF, CR or 0x1a |
| Escaping.Big5NoControls | MySQL/ctype-big5.c:41-45 | big5 and single-byte character sets meet the condition for that |
| Escaping.ByteEscaped | MySQL/charset.c:735-765 | what is written for each single byte, in bytes |
| Escaping.EscapedLength | MySQL/charset.c:696-701 | the output is at most twice the input |
| Escaping.EscapeString | MySQL/charset.c:696-783 | the buffer holds the escaped string, or a beginning of it and -1 exactly when it does not fit with its NUL; nothing is written behind the size given |
| Escaping.ReadBackQuoted | MySQL/charset.c:845-885 | what is written for one character by doubling is read as that character |
| Escaping.QuoteRoundTrip | MySQL/charset.c:836-890 | doubling has an inverse |
| Escaping.ByteDoubled | MySQL/charset.c:868-886 | what is written for each single byte by doubling, in bytes |
| Escaping.QuotedDoubledEnds | MySQL/charset.c:836-890 | and at the one behind its doubled contents, if no further apostrophe follows and none is a trail byte |
| Escaping.Big5QuoteNoTrail | MySQL/ctype-big5.c:41-45 | the apostrophe is no trail byte in big5 |
| Escaping.QuotedLength | MySQL/charset.c:836-842 | the output is at most twice the input |
| Escaping.EscapeQuotes | MySQL/charset.c:836-890 | the buffer holds the doubled string, or a beginning of it and -1 exactly when it does not fit with its NUL; nothing is written behind the size given |
| Splice.Bmove | MySQL/bmove.c:71-77 | the ascending copy moves all bytes if it does not run into its source |
| Splice.BmoveUpp | MySQL/bmove_upp.c:44-48 | so does the descending one |
| Splice.MoveRest | MySQL/bchange.c:32-36 | the direction chosen is always the right one |
| Splice.Bchange | MySQL/bchange.c:29-38 | new bytes, the old tail, and nothing else changed |
| DynamicArrays.RoundedSizeFits | MySQL/array.c:238-239 | the rounded size is the multiple of the increment above the index, by at most one increment |
| DynamicArrays.ByteSizeFits | MySQL/array.c:257-259 | the bytes asked for are enough exactly if their number fits an `uint` |
| DynamicArrays.ByteSizeExample | MySQL/array.c:257-259 | a request that comes down to 128 bytes |
| DynamicArrays.DynamicArray.Insert | MySQL/array.c:96-111 | append, or fail and change nothing |
| DynamicArrays.DynamicArray.Allocate | MySQL/array.c:232-264 | room for the index, with the contents unchanged |
| DynamicArrays.DynamicArray.Set | MySQL/array.c:200-214 | assign, with zeroes in a gap, or fail and change nothing |
| DynamicArrays.DynamicArray.Pop | MySQL/array.c:175-180 | take the last element off, NULL for an empty array |
| DynamicArrays.DynamicArray.Delete | MySQL/array.c:324-330 | close the gap |
| DynamicArrays.DynamicArray.Get | MySQL/array.c:277-288 | the element, zero beyond the end |
| DynamicArrays.ReachInUint | MySQL/array.c:96-264 | a bound that a caller can test: if the longest possible sequence and one increment fit an `uint` of bytes, every request does |
| DynamicArrays.Apply | MySQL/array.c:96-330 | each call changes contents and room, and answers, as the reference does |
| DynamicArrays.Run | MySQL/array.c:96-330 | so does any sequence of calls; a call fails exactly when it needs room and gets no memory |

## Left out

- LikeMatch.Wildcmp8bit: with a `%` in memory behind a pattern of the kind `EndsBehind`, says only that a result of 0 is a match; likewise for `WildcmpMb`.
- Sockets, pipes, SSL, handshake, authentication, reconnecting, option files: input and output.
- Client: LOAD DATA LOCAL, further result sets (`SERVER_MORE_RESULTS_EXISTS`), prepared statements, compression, failing allocations and a failing transport; MYSQL_RES objects are entries of a map, field definitions are read but not unpacked (protocol 4.1, seven columns).
- Client.Mysql.SafeRead: packets are not empty and the transport does not fail.
- Client.Mysql.RealQuery: sending does not fail, and no reply announces a further result set.
- Client.Mysql.ReadQueryResult: no LOAD DATA LOCAL; field definitions are read and not unpacked.
- Client.Mysql.ReadRows: takes each row from its packet by the specification `Decode`; that the two readers compute that is `CopyRow` and `ReadOneRow` in RowReaders.
- RowReaders.CopyRow: the length headers lie inside the packet, and so does any field that is not longer than what is left of the copy (`CopyInside`); every row that was sent meets this.
- RowReaders.ReadOneRow: the length headers lie inside the packet; the code leaves that to the server.
- DecimalRound.Strntoull10rnd: strings have at most INT_MAX bytes; nothing is said where the shift becomes INT_MIN, and `Faithful` says nothing where an `int` overflows, which C leaves undefined.
- Escaping.EscapeRoundTrip: the reader is the natural character-wise one; the server's parser is not part of this model.
- UnicodeIndex.Qsort: stands for the library's `qsort`; the comparison function gives inconsistent answers on ties, so only descending counts are promised.
- UnicodeIndex.CreateFromUni: the tables of the planes are part of their entries rather than behind pointers.
- LikeRange.LikeRangeSimple: `mbmaxlen` is 1, as for all character sets with this handler.
- LikeRangeMb.LikeRangeMb: no Unicode fill characters and no contractions, whose tables are not in the repository; `min_sort_char` is 0.
- Registry: memory is sequentially consistent, `free_charsets` is not called, reading index and charset files may change entries in any way but for MY_CS_READY.
- DynamicArrays.DynamicArray.Set: sizes and sums that do not fit an `uint` are outside the contract, and so they are for `Allocate`, `Insert` and the constructor.
- DynamicArrays.DynamicArray.Delete: an index that no element has is outside the contract.
- DynamicArrays: static buffers, `freeze_size`, `get_index_dynamic`, `alloc_dynamic` as a call of its own, and the default increment.
- The comparison `my_strnncollsp_win1250ch`, which removes trailing spaces first, the `my_strnncoll` functions without padding, and case conversion: simple relatives of what is here.
- `my_strntol_8bit`, `my_strntoul_8bit`, `my_strntoull_8bit`: the same algorithm as `my_strntoll_8bit` with other limits.
- Other multi-byte character sets, UCS2, UTF-8, Thai reordering, big5 stroke order and conversion tables.
- `my_like_range_win1250ch` and the binary-sort `min_length` as a search prefix: control bytes weigh less than the fill character.
- The XML parser, memory roots, platform assembly, floating-point parsing.
