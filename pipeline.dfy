/** The two scripts run one after the other: the normaliser writes the
    six-letter word file that the filter then reads. */
module Pipeline {
  import opened Outcomes
  import opened Seqs
  import opened LineFile
  import opened Normaliser
  import opened Scanning
  import opened CandidateFilter

  /** Every excluded index names a character of any six-letter word. */
  predicate FitsSixLetters(cfg: Config)
  {
    forall k :: 0 <= k < |cfg.excluded| ==> -(WordLength as int) <= cfg.excluded[k].0 < WordLength
  }

  /** Fed the normaliser's output, the filter never raises when every
      excluded index fits a six-letter word (as in the script's own
      configuration and the intended one): every word it reads is one of
      `sixLetterWords`. It prints the accepted six-letter words, in
      dictionary order. */
  lemma FilterOnNormalisedDictionary(cfg: Config, text: string)
    requires FitsSixLetters(cfg)
    ensures Scan(Decide(cfg), Map(StripNewlines, FileLines(Serialise(SixLetterWords(FileLines(text)))))) ==
            Ok(Filter(Passes(Decide(cfg)), SixLetterWords(FileLines(text))))
  {
    var words := SixLetterWords(FileLines(text));
    WrittenWordsReadBack(text);
    forall k | 0 <= k < |words| ensures Decide(cfg)(words[k]).Ok? {
      assert |words[k]| == WordLength;
      assert forall j :: 0 <= j < |cfg.excluded| ==> InRange(words[k], cfg.excluded[j].0);
    }
    ScanCompletes(Decide(cfg), words);
    ScanKeepsPassing(Decide(cfg), words);
  }

  /** The script's configuration, and the intended one, both fit. */
  lemma ConfigurationsFit()
    ensures FitsSixLetters(Default) && FitsSixLetters(Intended)
  {
    assert Intended.excluded == Default.excluded;
  }
}
