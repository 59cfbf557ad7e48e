/** The candidate filter (kelimeBul.py): each line of the six-letter word
    file is stripped of `'\n'` and kept when it contains every required
    letter, none of the forbidden ones, and none of the excluded letters at
    their excluded positions; the kept words are printed one per line. */
module CandidateFilter {
  import opened Outcomes
  import opened Seqs
  import opened PyStr
  import opened LineFile
  import opened Scanning

  /** The four configuration lists of the filter. Letters are strings, since
      Python compares `w[i]` and tests `harf in word` on strings. */
  datatype Config = Config(
    required: seq<string>,            // harfList
    forbidden: seq<string>,           // olmayanHarfList
    excluded: seq<(int, string)>,     // pozisyondaOlmayanHarfList
    requiredAt: seq<(int, string)>)   // pozisyondaHarfList

  /** The configuration the script runs with. Two forbidden entries are
      two-character mis-decodings ('ç' and 'ş' as read through the wrong
      code page), kept as they are. */
  const Default: Config := Config(
    ["a", "d", "l", "e"],
    ["p", "r", "m", "k", "\U{E23}\U{E07}", "y", "o", "\U{E25}\U{9F}"],
    [(0, "e"), (1, "a"), (2, "l"), (3, "d"), (4, "a"), (5, "a"), (1, "l")],
    [(0, ""), (1, ""), (2, ""), (3, ""), (4, ""), (5, "")])

  /** The configuration the script evidently means: the same lists, with
      'ç' and 'ş' themselves forbidden. */
  const Intended: Config := Default.(forbidden := ["p", "r", "m", "k", "\U{E7}", "y", "o", "\U{15F}"])

  /** The script's lists: four required letters, eight forbidden entries of
      which two are two-character strings, seven exclusions at indices 0 to
      5, and six position requirements, all with the empty letter. */
  lemma DefaultShape()
    ensures |Default.required| == 4 && forall k :: 0 <= k < 4 ==> |Default.required[k]| == 1
    ensures |Default.forbidden| == 8
    ensures forall k :: 0 <= k < 8 ==> |Default.forbidden[k]| == (if k == 4 || k == 7 then 2 else 1)
    ensures |Default.excluded| == 7 && forall k :: 0 <= k < 7 ==> 0 <= Default.excluded[k].0 <= 5
    ensures |Default.requiredAt| == 6
    ensures forall k :: 0 <= k < 6 ==> Default.requiredAt[k] == (k, "")
  {
  }

  /** The script stops with an `IndexError` when `word[index]` is out of
      range; the word and the index are recorded here, although Python's
      message names neither. */
  datatype ScanError = IndexOutOfRange(word: string, index: int)

  /** `w[i]` is defined in Python: counting from the front, or from the back
      when `i` is negative. */
  predicate InRange(w: string, i: int): (r: bool)
    ensures r <==> 0 <= (if i >= 0 then i else |w| + i) < |w|
  {
    -|w| <= i < |w|
  }

  /** Python's `w[i]`, a one-character string. */
  function At(w: string, i: int): (r: string)
    requires InRange(w, i)
    ensures |r| == 1 && r[0] in w
  {
    [w[if i >= 0 then i else |w| + i]]
  }

  /** A negative index counts from the back: `w[i - len(w)]` is `w[i]`. */
  lemma AtFromBack(w: string, i: int)
    requires 0 <= i < |w|
    ensures InRange(w, i - |w|) && At(w, i - |w|) == At(w, i)
  {
  }

  /** `HarfIcersin`: scans the letters in order and answers False at the
      first one that is not a substring of the word. */
  function ContainsAll(w: string, letters: seq<string>): (r: bool)
    ensures r <==> forall k :: 0 <= k < |letters| ==> Contains(w, letters[k])
  {
    if letters == [] then true
    else if !Contains(w, letters[0]) then false
    else
      assert forall k :: 1 <= k < |letters| ==> letters[k] == letters[1..][k - 1];
      ContainsAll(w, letters[1..])
  }

  /** `HarfIcermesin`: answers False at the first letter that is a substring
      of the word. */
  function ContainsNone(w: string, letters: seq<string>): (r: bool)
    ensures r <==> forall k :: 0 <= k < |letters| ==> !Contains(w, letters[k])
  {
    if letters == [] then true
    else if Contains(w, letters[0]) then false
    else
      assert forall k :: 1 <= k < |letters| ==> letters[k] == letters[1..][k - 1];
      ContainsNone(w, letters[1..])
  }

  /** The requirement `(i, c)` is met: `w[i]` exists and equals `c`. */
  ghost predicate HasAt(w: string, pair: (int, string))
  {
    InRange(w, pair.0) && At(w, pair.0) == pair.1
  }

  /** The exclusion `(i, c)` is met: `w[i]` exists and differs from `c`. */
  ghost predicate LacksAt(w: string, pair: (int, string))
  {
    InRange(w, pair.0) && At(w, pair.0) != pair.1
  }

  /** `PozisyondaHarfIcersin`: walks the pairs in order, answering False at
      the first `w[i] != c`; an index out of range on the way raises, which
      is `Err` with that index. */
  function AllAt(w: string, pairs: seq<(int, string)>): (r: Result<bool, int>)
    ensures r == Ok(true) <==> forall k :: 0 <= k < |pairs| ==> HasAt(w, pairs[k])
    ensures (forall k :: 0 <= k < |pairs| ==> InRange(w, pairs[k].0)) ==> r.Ok?
    ensures r.Err? <==> exists k :: 0 <= k < |pairs| && !InRange(w, pairs[k].0) &&
                                    forall j :: 0 <= j < k ==> HasAt(w, pairs[j])
    ensures r.Err? ==> !InRange(w, r.error)
  {
    if pairs == [] then Ok(true)
    else
      var (i, c) := pairs[0];
      var tail := pairs[1..];
      assert forall k :: 1 <= k < |pairs| ==> pairs[k] == tail[k - 1];
      if !InRange(w, i) then Err(i)
      else if At(w, i) != c then Ok(false)
      else
        var r := AllAt(w, tail);
        assert r.Err? ==> exists k :: 0 <= k < |tail| && !InRange(w, tail[k].0) &&
                                      forall j :: 0 <= j < k ==> HasAt(w, tail[j]);
        assert r.Err? <== exists k :: 1 <= k < |pairs| && !InRange(w, pairs[k].0) &&
                                      forall j :: 0 <= j < k ==> HasAt(w, pairs[j]);
        r
  }

  /** `PozisyonKontrol`: walks the pairs in order, answering False at the
      first `w[i] == c`; an index out of range on the way raises, which is
      `Err` with that index. */
  function NoneAt(w: string, pairs: seq<(int, string)>): (r: Result<bool, int>)
    ensures r == Ok(true) <==> forall k :: 0 <= k < |pairs| ==> LacksAt(w, pairs[k])
    ensures (forall k :: 0 <= k < |pairs| ==> InRange(w, pairs[k].0)) ==> r.Ok?
    ensures r.Err? <==> exists k :: 0 <= k < |pairs| && !InRange(w, pairs[k].0) &&
                                    forall j :: 0 <= j < k ==> LacksAt(w, pairs[j])
    ensures r.Err? ==> !InRange(w, r.error)
  {
    if pairs == [] then Ok(true)
    else
      var (i, c) := pairs[0];
      var tail := pairs[1..];
      assert forall k :: 1 <= k < |pairs| ==> pairs[k] == tail[k - 1];
      if !InRange(w, i) then Err(i)
      else if At(w, i) == c then Ok(false)
      else
        var r := NoneAt(w, tail);
        assert r.Err? ==> exists k :: 0 <= k < |tail| && !InRange(w, tail[k].0) &&
                                      forall j :: 0 <= j < k ==> LacksAt(w, tail[j]);
        assert r.Err? <== exists k :: 1 <= k < |pairs| && !InRange(w, pairs[k].0) &&
                                      forall j :: 0 <= j < k ==> LacksAt(w, pairs[j]);
        r
  }

  /** What the loop body decides for one stripped word: the three active
      checks in the script's order, each skipped once an earlier one fails. */
  function Verdict(cfg: Config, w: string): (r: Result<bool, ScanError>)
    ensures r == Ok(true) <==>
      && (forall k :: 0 <= k < |cfg.required| ==> Contains(w, cfg.required[k]))
      && (forall k :: 0 <= k < |cfg.forbidden| ==> !Contains(w, cfg.forbidden[k]))
      && (forall k :: 0 <= k < |cfg.excluded| ==> LacksAt(w, cfg.excluded[k]))
    ensures !ContainsAll(w, cfg.required) || !ContainsNone(w, cfg.forbidden) ==> r == Ok(false)
    ensures r.Err? ==> && ContainsAll(w, cfg.required) && ContainsNone(w, cfg.forbidden)
                       && r.error.word == w && !InRange(w, r.error.index)
    ensures r.Err? <==> && ContainsAll(w, cfg.required) && ContainsNone(w, cfg.forbidden)
                        && NoneAt(w, cfg.excluded).Err?
    ensures (forall k :: 0 <= k < |cfg.excluded| ==> InRange(w, cfg.excluded[k].0)) ==> r.Ok?
  {
    if !ContainsAll(w, cfg.required) then Ok(false)
    else if !ContainsNone(w, cfg.forbidden) then Ok(false)
    else match NoneAt(w, cfg.excluded)
      case Ok(b) => Ok(b)
      case Err(i) => Err(IndexOutOfRange(w, i))
  }

  /** The loop body's decision as a value. */
  function Decide(cfg: Config): (d: string -> Result<bool, ScanError>)
    ensures forall w :: d(w).Err? ==> d(w).error.word == w && !InRange(w, d(w).error.index)
  {
    w => Verdict(cfg, w)
  }

  /** The scan loop of kelimeBul.py over the file's lines. */
  method ScanLines(cfg: Config, lines: seq<string>) returns (r: Result<seq<string>, ScanError>)
    ensures r == Scan(Decide(cfg), Map(StripNewlines, lines))
  {
    ghost var words := Map(StripNewlines, lines);
    var kept: seq<string> := [];
    var i := 0;
    while i < |lines|
      invariant 0 <= i <= |lines|
      invariant Scan(Decide(cfg), words[..i]) == Ok(kept)
    {
      var word := StripNewlines(lines[i]);
      assert words[i] == word;
      ScanStep(Decide(cfg), words, i, kept);
      assert Decide(cfg)(word) == Verdict(cfg, word);
      if ContainsAll(word, cfg.required) && ContainsNone(word, cfg.forbidden) {
        match NoneAt(word, cfg.excluded)
        case Err(index) =>
          assert Verdict(cfg, word) == Err(IndexOutOfRange(word, index));
          ScanStopsAtError(Decide(cfg), words, i + 1);
          return Err(IndexOutOfRange(word, index));
        case Ok(ok) =>
          assert Verdict(cfg, word) == Ok(ok);
          if ok {
            kept := kept + [word];
          }
      } else {
        assert Verdict(cfg, word) == Ok(false);
      }
      i := i + 1;
    }
    assert words[..|lines|] == words;
    r := Ok(kept);
  }

  /** The whole filter: the text of the word file in, what the script
      prints out, or the error that stops it before it prints anything. */
  method FindCandidates(cfg: Config, text: string) returns (r: Result<string, ScanError>)
    ensures r.Err? <==> Scan(Decide(cfg), Map(StripNewlines, FileLines(text))).Err?
    ensures r.Ok? ==> r.value == Serialise(Scan(Decide(cfg), Map(StripNewlines, FileLines(text))).value)
    ensures r.Err? ==> r.error == Scan(Decide(cfg), Map(StripNewlines, FileLines(text))).error
  {
    var scanned := ScanLines(cfg, FileLines(text));
    match scanned
    case Err(e) =>
      r := Err(e);
    case Ok(gecerliKelimeler) =>
      var printed := WriteLines(gecerliKelimeler);
      r := Ok(printed);
  }

  /** The scan raises exactly when some word that passes the two letter
      checks has an excluded index outside it; the error names the first
      such word. */
  lemma ScanFails(cfg: Config, words: seq<string>)
    ensures Scan(Decide(cfg), words).Err? <==>
      exists k :: 0 <= k < |words| && Verdict(cfg, words[k]).Err?
    ensures Scan(Decide(cfg), words).Err? ==>
      && ContainsAll(Scan(Decide(cfg), words).error.word, cfg.required)
      && ContainsNone(Scan(Decide(cfg), words).error.word, cfg.forbidden)
      && Scan(Decide(cfg), words).error.word in words
      && !InRange(Scan(Decide(cfg), words).error.word, Scan(Decide(cfg), words).error.index)
  {
    ScanCompletes(Decide(cfg), words);
    if Scan(Decide(cfg), words).Err? {
      var k := ScanReportsFirstError(Decide(cfg), words);
      assert Verdict(cfg, words[k]).Err?;
    } else {
      forall k | 0 <= k < |words| ensures Verdict(cfg, words[k]).Ok? {
        assert Decide(cfg)(words[k]).Ok?;
      }
    }
  }

  /** When the scan completes, its result is exactly the accepted words at
      their input positions, in input order, duplicates included. */
  lemma ScanSelects(cfg: Config, words: seq<string>) returns (idx: seq<nat>)
    requires Scan(Decide(cfg), words).Ok?
    ensures Embeds(Scan(Decide(cfg), words).value, words, idx)
    ensures forall k :: 0 <= k < |words| ==> (Verdict(cfg, words[k]) == Ok(true) <==> k in idx)
  {
    ScanKeepsPassing(Decide(cfg), words);
    idx := FilterSelects(Passes(Decide(cfg)), words);
  }

  /** Every kept word holds all required letters, no forbidden one, and no
      excluded letter at its position; every such input word is kept. */
  lemma ScanSoundComplete(cfg: Config, words: seq<string>, w: string)
    requires Scan(Decide(cfg), words).Ok?
    ensures w in Scan(Decide(cfg), words).value <==>
      && w in words
      && (forall k :: 0 <= k < |cfg.required| ==> Contains(w, cfg.required[k]))
      && (forall k :: 0 <= k < |cfg.forbidden| ==> !Contains(w, cfg.forbidden[k]))
      && (forall k :: 0 <= k < |cfg.excluded| ==> LacksAt(w, cfg.excluded[k]))
  {
    ScanKeepsPassing(Decide(cfg), words);
    FilterCount(Passes(Decide(cfg)), words, w);
    assert Passes(Decide(cfg))(w) <==> Verdict(cfg, w) == Ok(true);
    assert w in multiset(Scan(Decide(cfg), words).value) <==> w in Scan(Decide(cfg), words).value;
    assert w in multiset(words) <==> w in words;
  }

  /** With the default configuration every excluded index is below 6, so a
      word of six characters or more never makes the script raise. */
  lemma DefaultSafeOnSixLetters(w: string)
    requires |w| >= 6
    ensures Verdict(Default, w).Ok?
  {
    assert forall k :: 0 <= k < |Default.excluded| ==> 0 <= Default.excluded[k].0 < 6;
  }

  /** The disabled `PozisyondaHarfIcersin` with its default pairs, all of
      whose letters are empty: a one-character `w[i]` never equals `''`, so
      every non-empty word is rejected at its first pair, and the empty word
      raises there. */
  lemma DefaultRequiredAtRejects(w: string)
    ensures w != [] ==> AllAt(w, Default.requiredAt) == Ok(false)
    ensures w == [] ==> AllAt(w, Default.requiredAt) == Err(0)
  {
    if w != [] {
      assert !HasAt(w, Default.requiredAt[0]);
    }
  }

  /** For example, "ödalak" holds 'a', 'd' and 'l' but not 'e', so the
      first check rejects it. */
  lemma DefaultRejectsMissingLetter()
    ensures Verdict(Default, "\U{F6}dalak") == Ok(false)
  {
    var w := "\U{F6}dalak";
    ContainsLetter(w, 'e');
    assert 'e' !in w;
    assert !Contains(w, Default.required[3]);
  }

  /** Every entry is a single character. */
  ghost predicate SingleLetters(letters: seq<string>)
  {
    forall k :: 0 <= k < |letters| ==> |letters[k]| == 1
  }

  /** With one-character entries only, the substring tests are the letter-set
      tests: the word holds every required letter and no forbidden one. */
  lemma LetterSetSemantics(cfg: Config, w: string)
    requires SingleLetters(cfg.required) && SingleLetters(cfg.forbidden)
    ensures Verdict(cfg, w) == Ok(true) <==>
      && (forall k :: 0 <= k < |cfg.required| ==> cfg.required[k][0] in w)
      && (forall k :: 0 <= k < |cfg.forbidden| ==> cfg.forbidden[k][0] !in w)
      && (forall k :: 0 <= k < |cfg.excluded| ==> LacksAt(w, cfg.excluded[k]))
  {
    forall k | 0 <= k < |cfg.required|
      ensures Contains(w, cfg.required[k]) <==> cfg.required[k][0] in w
    {
      assert cfg.required[k] == [cfg.required[k][0]];
      ContainsLetter(w, cfg.required[k][0]);
    }
    forall k | 0 <= k < |cfg.forbidden|
      ensures Contains(w, cfg.forbidden[k]) <==> cfg.forbidden[k][0] in w
    {
      assert cfg.forbidden[k] == [cfg.forbidden[k][0]];
      ContainsLetter(w, cfg.forbidden[k][0]);
    }
  }

  /** As written, the two mis-decoded entries never match a correctly
      spelled word: "çedale" holds 'a', 'd', 'l' and 'e', none of the
      one-letter forbidden entries and no excluded letter at its position,
      and is accepted although it contains 'ç'. */
  lemma DefaultAcceptsCedilla()
    ensures '\U{E7}' in "\U{E7}edale"
    ensures Verdict(Default, "\U{E7}edale") == Ok(true)
  {
    var w := "\U{E7}edale";
    assert w[0] == '\U{E7}';
    CedillaWordHasRequired(w);
    CedillaWordLacksForbidden(w);
    CedillaWordPassesPositions(w);
  }

  lemma CedillaWordHasRequired(w: string)
    requires w == "\U{E7}edale"
    ensures forall k :: 0 <= k < |Default.required| ==> Contains(w, Default.required[k])
  {
    forall k | 0 <= k < |Default.required| ensures Contains(w, Default.required[k]) {
      var c := Default.required[k][0];
      assert Default.required[k] == [c];
      assert w[[3, 2, 4, 1][k]] == c;
      ContainsLetter(w, c);
    }
  }

  lemma CedillaWordLacksForbidden(w: string)
    requires w == "\U{E7}edale"
    ensures forall k :: 0 <= k < |Default.forbidden| ==> !Contains(w, Default.forbidden[k])
  {
    forall k | 0 <= k < |Default.forbidden| ensures !Contains(w, Default.forbidden[k]) {
      MissingFirstLetter(w, Default.forbidden[k]);
    }
  }

  lemma CedillaWordPassesPositions(w: string)
    requires w == "\U{E7}edale"
    ensures forall k :: 0 <= k < |Default.excluded| ==> LacksAt(w, Default.excluded[k])
  {
    forall k | 0 <= k < |Default.excluded| ensures LacksAt(w, Default.excluded[k]) {
      var (i, c) := Default.excluded[k];
      assert 0 <= i < 6;
      assert At(w, i) == [w[i]];
    }
  }

  /** The intended configuration rejects every word holding 'ç' or 'ş'. */
  lemma IntendedRejectsCedillaAndSCedilla(w: string)
    ensures '\U{E7}' in w || '\U{15F}' in w ==> Verdict(Intended, w) == Ok(false)
  {
    ContainsLetter(w, '\U{E7}');
    ContainsLetter(w, '\U{15F}');
    assert Intended.forbidden[4] == "\U{E7}" && Intended.forbidden[7] == "\U{15F}";
  }

  /** The intended configuration holds one-letter entries only, so it
      filters by letter sets exactly. */
  lemma IntendedIsLetterSets(w: string)
    ensures Verdict(Intended, w) == Ok(true) <==>
      && (forall k :: 0 <= k < |Intended.required| ==> Intended.required[k][0] in w)
      && (forall k :: 0 <= k < |Intended.forbidden| ==> Intended.forbidden[k][0] !in w)
      && (forall k :: 0 <= k < |Intended.excluded| ==> LacksAt(w, Intended.excluded[k]))
  {
    assert SingleLetters(Intended.required) && SingleLetters(Intended.forbidden);
    LetterSetSemantics(Intended, w);
  }
}
