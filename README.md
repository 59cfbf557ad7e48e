# Wordle helper scripts, modelled in Dafny

The repository holds two Python scripts.

- `sozlukOlustur.py` is the dictionary normaliser. It reads a raw Turkish word
  list line by line. It strips each line's `'\n'`. It repairs seven mis-decoded
  two-character sequences (a letter's UTF-8 bytes read through a single-byte
  code page) into the Turkish letters they stand for. It keeps the lines that
  are then exactly six characters long, and writes them one per line.
- `kelimeBul.py` is the candidate filter. It reads that six-letter word file
  and strips each line's `'\n'`. It keeps a word when three checks pass, each
  run only if the earlier ones passed:
  1. every required letter is in the word;
  2. no forbidden letter is in the word;
  3. no excluded letter is at its excluded index.

  It then prints the kept words one per line.

The model works as follows, module by module.

- `PyStr` gives the Python string operations the scripts use, on `seq<char>`:
  - `p in s`, which is substring containment;
  - `s.strip(c)` for a one-character `c`;
  - `s.replace(pat, rep)`, including Python's empty-pattern case;
  - `s.count(pat)`.
- `LineFile` covers text files:
  - iterating over an open file yields its lines, each keeping its `'\n'`;
  - writing `'{}\n'.format(w)` or printing `w` emits `w + "\n"`.
- `Normaliser` holds the repair table, the normaliser's read loop and its
  whole run. The read loop is a method proved against a specification
  function. The write loop is `LineFile.WriteLines`, which the filter's print
  loop also uses.
- `CandidateFilter` holds:
  - the four configuration lists;
  - the four predicate functions of the script;
  - the per-word decision;
  - the scan loop, as a method proved against a specification function.
- `Scanning` is the generic left-to-right pass. It keeps what a decision
  accepts and stops at the first decision that raises.
- `Pipeline` connects the two scripts. Fed the normaliser's output, decoded
  as it was written, the filter never raises and prints exactly the accepted
  six-letter words, in order.

Python's `w[i]` accepts negative indices, and raises `IndexError` outside
`-len(w) <= i < len(w)`. The model writes this out, and an out-of-range index
becomes an `Err` outcome rather than a precondition. The filter script has no
handler, so the first such error ends it before it prints anything.
`ScanError` records the offending word and index, which Python's
message does not name.

The filter's checks follow the code. Its letter lists are lists of strings,
and each entry is tested by substring containment, not by membership in a set
of characters. `LetterSetSemantics` proves that the two readings agree when
every entry is one character. The call of `PozisyondaHarfIcersin` is commented
out in the script. So `AllAt` models that function, but `Verdict` does not call
it.

## Model

| member | source | states |
|---|---|---|
| PyStr.Contains | kelimeBul.py:12 | `p in s` holds exactly when `p` occurs in `s` at some index; the empty string occurs in every string |
| PyStr.ContainsLetter | kelimeBul.py:19 | for a one-character entry, the substring test is membership of that character |
| PyStr.MissingFirstLetter | kelimeBul.py:19 | a word lacking an entry's first character does not contain the entry |
| PyStr.InsertEverywhere | sozlukOlustur.py:7 | with an empty pattern, `rep` starts and ends the result, and an empty `rep` leaves the text unchanged |
| PyStr.Replace | sozlukOlustur.py:7 | `str.replace`, left to right and non-overlapping, empty pattern included; its own contract only says that a pattern replaced by itself changes nothing, and ReplaceAbsent, ReplaceFirst and ReplaceLength characterise it |
| PyStr.AbsentFromSuffix | sozlukOlustur.py:7 | a pattern absent from a string is absent from each of its suffixes |
| PyStr.StripLeading | sozlukOlustur.py:6 | the result is a suffix of the input, everything dropped is `c`, and the result does not start with `c` |
| PyStr.StripTrailing | sozlukOlustur.py:6 | the result is a prefix of the input, everything dropped is `c`, and the result does not end with `c` |
| PyStr.Strip | sozlukOlustur.py:6 | the stripped line neither starts nor ends with `c`, and it is empty exactly when the line is all `c` |
| PyStr.StripIsInfix | sozlukOlustur.py:6 | the stripped line is one contiguous slice of the line, and only `c` characters lie before and after it |
| PyStr.StripTerminated | kelimeBul.py:40 | a word without `c` is unchanged by the strip, with or without one trailing `c` |
| PyStr.Count | sozlukOlustur.py:7 | the count of a pattern is zero exactly when the pattern does not occur |
| PyStr.ReplaceAbsent | sozlukOlustur.py:7 | a string in which the pattern does not occur is returned unchanged |
| PyStr.ReplaceFirst | sozlukOlustur.py:7 | the leftmost occurrence is replaced, the text before it is kept, and replacement resumes right after it (non-overlapping, left to right) |
| PyStr.ReplaceLength | sozlukOlustur.py:7 | the length changes by `len(rep) - len(pat)` for each occurrence `count` reports |
| PyStr.ReplaceKeepsOut | sozlukOlustur.py:7 | a character absent from both the text and the replacement stays absent |
| PyStr.ReplaceHead | sozlukOlustur.py:7 | the first character of the result is the replacement's when the text starts with the pattern, and the text's own otherwise |
| PyStr.ReplaceLeavesNoPair | sozlukOlustur.py:7 | replacing a two-character pattern by a letter that is part of neither half of `q` leaves no occurrence of the pattern and creates no `q` |
| Seqs.Filter | sozlukOlustur.py:9-10 | the kept elements all satisfy the test, and there are no more of them than inputs |
| Seqs.FilterSelects | kelimeBul.py:53 | the kept list is the input read at increasing positions, namely exactly the positions whose element passes |
| Seqs.FilterCount | kelimeBul.py:53 | each passing value is kept as often as it occurs in the input, and a failing one never |
| LineFile.StripNewlines | sozlukOlustur.py:6 | the stripped line is no longer than the line, and neither starts nor ends with `'\n'` |
| LineFile.Serialise | sozlukOlustur.py:16 | the written text is empty exactly when there are no words, and otherwise ends with `'\n'` |
| LineFile.LineEnd | kelimeBul.py:39 | the first line's length covers a `'\n'`-free run plus its terminator |
| LineFile.FileLines | kelimeBul.py:39 | the lines are non-empty, `'\n'` only ends a line, every line but the last ends with it, and the lines concatenate back to the text |
| LineFile.SerialiseSnoc | sozlukOlustur.py:16 | writing one more word appends that word and `'\n'` |
| LineFile.WriteLines | sozlukOlustur.py:14-16 | the written text is each word followed by `'\n'`, in order |
| LineFile.FirstLine | kelimeBul.py:39 | a word without `'\n'` followed by `'\n'` is read back as one line |
| LineFile.ReadSerialised | sozlukOlustur.py:13-16 | reading the written file yields one line `w + "\n"` per word, when no word holds `'\n'` |
| LineFile.RoundTrip | kelimeBul.py:39-40 | stripping the lines read back from the written text gives back the words exactly |
| LineFile.StrippedLineHasNoNewline | kelimeBul.py:40 | a line read from a file holds no `'\n'` once stripped |
| Normaliser.ReplaceChain | sozlukOlustur.py:7 | the chained `replace` calls, in table order; its own contract only says that identity pairs change nothing, and ChainShortens, ChainRemovesPatterns, ChainKeepsAbsent and ChainUnchanged characterise it |
| Normaliser.Repair | sozlukOlustur.py:7 | the seven repairs never lengthen a line, and a line whose length they keep is unchanged |
| Normaliser.Normalise | sozlukOlustur.py:6-7 | stripping and repairing never lengthen a line |
| Normaliser.RepairsShape | sozlukOlustur.py:7 | each of the seven patterns has two characters and becomes one letter, and no produced letter is part of any pattern |
| Normaliser.SixLetterWords | sozlukOlustur.py:9-10 | every collected word has exactly six characters |
| Normaliser.CollectSixLetterWords | sozlukOlustur.py:5-10 | the read loop's list equals the normalised lines of length six, in file order |
| Normaliser.NormaliseDictionary | sozlukOlustur.py:1-16 | the output text is the six-letter normalised lines of the input, one per line |
| Normaliser.ChainUnchanged | sozlukOlustur.py:7 | a chain of replacements leaves text holding none of its patterns unchanged |
| Normaliser.ChainShortens | sozlukOlustur.py:7 | two-to-one replacements never lengthen a line, and keep its length only when they change nothing |
| Normaliser.ChainKeepsAbsent | sozlukOlustur.py:7 | a two-character sequence that no replacement letter can complete stays absent along the chain |
| Normaliser.ChainRemovesPatterns | sozlukOlustur.py:7 | after the chain none of its patterns is left, since no later step rebuilds an earlier pattern |
| Normaliser.ChainKeepsOut | sozlukOlustur.py:7 | a character absent from the text and from every replacement stays absent |
| Normaliser.RepairProperties | sozlukOlustur.py:7 | the repair never lengthens a line, changes every line it shortens, and leaves none of the seven sequences behind |
| Normaliser.RepairUnchanged | sozlukOlustur.py:7 | a line holding none of the seven sequences is unchanged |
| Normaliser.NormaliseCorrectWord | sozlukOlustur.py:6-7 | a correctly encoded word, read with or without its `'\n'`, normalises to itself |
| Normaliser.SixLetterWordsSelect | sozlukOlustur.py:7-10 | a line is kept exactly when its repaired form has six characters, in order and with duplicates |
| Normaliser.RepairKeepsOutNewline | sozlukOlustur.py:7 | the repair introduces no `'\n'` |
| Normaliser.SixLetterWordsHaveNoNewline | sozlukOlustur.py:5-10 | no collected word contains `'\n'` |
| Normaliser.WrittenWordsReadBack | sozlukOlustur.py:13-16 | the written file, read and stripped as the filter reads it, gives back `sixLetterWords` exactly |
| CandidateFilter.DefaultShape | kelimeBul.py:3-7 | the script's lists: four one-letter required entries, eight forbidden entries of which the fifth and eighth have two characters, seven exclusions at indices 0 to 5, and six position requirements `(i, '')` for `i` from 0 to 5 |
| CandidateFilter.InRange | kelimeBul.py:26 | `w[i]` is defined exactly when `i`, counted from the back when negative, lands inside the word |
| CandidateFilter.At | kelimeBul.py:33 | `w[i]` is one character of the word |
| CandidateFilter.AtFromBack | kelimeBul.py:33 | `w[i - len(w)]` is defined and equals `w[i]` |
| CandidateFilter.ContainsAll | kelimeBul.py:10-15 | `HarfIcersin` is true exactly when every required entry occurs in the word (vacuously true for an empty list) |
| CandidateFilter.ContainsNone | kelimeBul.py:17-22 | `HarfIcermesin` is true exactly when no forbidden entry occurs in the word |
| CandidateFilter.AllAt | kelimeBul.py:24-29 | `PozisyondaHarfIcersin` is true exactly when every `w[i] == c`; it raises exactly when an out-of-range index is reached before any mismatch, and never when all indices are in range |
| CandidateFilter.NoneAt | kelimeBul.py:31-36 | `PozisyonKontrol` is true exactly when every `w[i] != c`; it raises exactly when an out-of-range index is reached before any match, and never when all indices are in range |
| CandidateFilter.Verdict | kelimeBul.py:41-51 | a word is accepted exactly when all three checks hold; failing either letter check rejects it without indexing; it raises exactly when both letter checks pass and `PozisyonKontrol` reaches an out-of-range index before any match |
| CandidateFilter.Decide | kelimeBul.py:41-51 | an error of the loop body names the word being decided and an index outside it |
| CandidateFilter.ScanLines | kelimeBul.py:39-53 | the loop's outcome is the scan of the stripped lines: the accepted words, or the first error |
| CandidateFilter.FindCandidates | kelimeBul.py:39-56 | the script prints the kept words one per line, or raises with the scan's error before printing |
| CandidateFilter.ScanFails | kelimeBul.py:41-51 | the scan raises exactly when some word's decision raises, and the offending word passed both letter checks and has an out-of-range index |
| CandidateFilter.ScanSelects | kelimeBul.py:39-53 | `gecerliKelimeler` is the input at increasing positions, namely exactly the accepted ones |
| CandidateFilter.ScanSoundComplete | kelimeBul.py:39-53 | a word is kept exactly when it is in the input and passes all three checks |
| CandidateFilter.DefaultSafeOnSixLetters | kelimeBul.py:5 | with the script's exclusions, no word of six or more characters makes the script raise |
| CandidateFilter.DefaultRequiredAtRejects | kelimeBul.py:7 | with the script's all-empty position requirements, every non-empty word fails and the empty word raises at index 0 |
| CandidateFilter.DefaultRejectsMissingLetter | kelimeBul.py:41-42 | "ödalak" lacks 'e' and is rejected by the first check |
| CandidateFilter.LetterSetSemantics | kelimeBul.py:10-22 | with one-character entries only, acceptance is the letter-set condition |
| CandidateFilter.DefaultAcceptsCedilla | kelimeBul.py:4 | as written, "çedale" is accepted although it contains 'ç' |
| CandidateFilter.IntendedRejectsCedillaAndSCedilla | kelimeBul.py:4 | with 'ç' and 'ş' themselves forbidden, every word containing either is rejected |
| CandidateFilter.IntendedIsLetterSets | kelimeBul.py:3-5 | the intended configuration filters by letter sets exactly |
| Scanning.Scan | kelimeBul.py:39-53 | a completed pass keeps no more items than it was given, and every kept item was accepted |
| Scanning.ScanCompletes | kelimeBul.py:39-53 | the pass completes exactly when no decision raises |
| Scanning.ScanReportsFirstError | kelimeBul.py:39-53 | a failing pass reports the error of the first word whose decision raises |
| Scanning.ScanKeepsPassing | kelimeBul.py:39-53 | a completed pass keeps exactly the accepted words, in order |
| Scanning.ScanStopsAtError | kelimeBul.py:39-53 | once a prefix raises, the whole run raises the same way, and nothing later is looked at |
| Pipeline.FilterOnNormalisedDictionary | kelimeBul.py:39-53 | on the normaliser's output, with exclusions that fit six letters, the filter never raises and keeps exactly the accepted six-letter words |
| Pipeline.ConfigurationsFit | kelimeBul.py:5 | the script's exclusions and the intended ones all fit a six-letter word |

## Left out

- Opening files, the cp1254 decoding of both input files and the platform-default encoding of the output file are left out. Inputs and outputs are already-decoded text (`string`).
- Normaliser.WrittenWordsReadBack and Pipeline.FilterOnNormalisedDictionary: both take the two files to hold the same decoded text. The program writes in the platform's default encoding and reads back with cp1254, so the two agree only on a platform whose default encoding is cp1254. The line separator written in text mode is read back as `'\n'` by universal-newline reading, which the model leaves out.
- Universal-newline translation (`'\r\n'` read as `'\n'`) is left out. The text is split at `'\n'` only.
- `print` and `out.write` are modelled only by the text they produce. Their I/O and any write failure are left out.
- Unclosed file handles and resource cleanup are left out, since they have no logical content.
- The commented-out `line.upper()`, the commented-out `decode`, and the commented-out `PozisyondaHarfIcersin` call are dead code and are not modelled as behaviour.
- PyStr.Strip: models `strip` only for a one-character argument, the only form the scripts use.
- The exit status and the traceback after an `IndexError` are left out. Python's message says only that the string index is out of range. The model's `ScanError` adds the offending word and index, which the program does not report.

## Findings

| source | as written | input that shows it | evidently intended | confidence | as-written member | corrected member |
|---|---|---|---|---|---|---|
| kelimeBul.py:4 | Two of the forbidden entries are 'รง' and 'ล' followed by U+009F. These are the UTF-8 bytes of 'ç' and 'ş' read through a Thai code page. They are two-character strings and never occur in a correctly spelled word. | "çedale" contains a, d, l and e, and none of p, r, m, k, y and o. No excluded letter is at its index. The word contains 'ç' and is accepted. | 'ç' and 'ş' forbidden, like the other one-letter entries | high, not executed | CandidateFilter.DefaultAcceptsCedilla | CandidateFilter.IntendedRejectsCedillaAndSCedilla |
