/** The dictionary normaliser (sozlukOlustur.py): every line of the raw word
    list has its `'\n'` stripped and seven mis-decoded two-character
    sequences replaced by the Turkish letters they stand for; the lines that
    are then exactly six characters long are written out, one per line. */
module Normaliser {
  import opened Seqs
  import opened PyStr
  import opened LineFile

  /** The seven `replace` calls of the normaliser, in the order they are
      applied: a letter's UTF-8 bytes read as cp1252/cp1254, and the letter. */
  const Repairs: seq<(string, string)> := [
    ("\U{C4}\U{178}", "\U{11F}"),  // "ÄŸ" to 'ğ'
    ("\U{C5}\U{178}", "\U{15F}"),  // "ÅŸ" to 'ş'
    ("\U{C4}\U{B0}", "\U{130}"),   // "Ä°" to 'İ'
    ("\U{C4}\U{B1}", "\U{131}"),   // "Ä±" to 'ı'
    ("\U{C3}\U{BC}", "\U{FC}"),    // "Ã¼" to 'ü'
    ("\U{C3}\U{B6}", "\U{F6}"),    // "Ã¶" to 'ö'
    ("\U{C3}\U{A7}", "\U{E7}")     // "Ã§" to 'ç'
  ]

  /** The only word length the normaliser keeps. */
  const WordLength: nat := 6

  /** `s.replace(p0, r0).replace(p1, r1)...` for the pairs of `table`, in order. */
  function ReplaceChain(s: string, table: seq<(string, string)>): (r: string)
    ensures (forall k :: 0 <= k < |table| ==> table[k].0 == table[k].1) ==> r == s
    decreases |table|
  {
    if table == [] then s else ReplaceChain(Replace(s, table[0].0, table[0].1), table[1..])
  }

  /** Every pattern has two characters and every replacement one. */
  ghost predicate PairToLetter(table: seq<(string, string)>)
  {
    forall k :: 0 <= k < |table| ==> |table[k].0| == 2 && |table[k].1| == 1
  }

  /** No replacement letter is either character of the two-character `q`. */
  ghost predicate LettersAvoid(table: seq<(string, string)>, q: string)
    requires PairToLetter(table) && |q| == 2
  {
    forall k :: 0 <= k < |table| ==> table[k].1[0] != q[0] && table[k].1[0] != q[1]
  }

  /** The repair table is of that shape, and no letter it produces is part
      of any pattern, so no repair can prepare the ground for another. */
  lemma RepairsShape()
    ensures PairToLetter(Repairs)
    ensures forall k :: 0 <= k < |Repairs| ==> LettersAvoid(Repairs, Repairs[k].0)
  {
  }

  /** The repair chain applied by the normaliser. */
  function Repair(s: string): (r: string)
    ensures |r| <= |s|
    ensures |r| == |s| ==> r == s
  {
    RepairsShape();
    ChainShortens(s, Repairs);
    ReplaceChain(s, Repairs)
  }

  /** A raw line as the normaliser leaves it: stripped, then repaired. */
  function Normalise(line: string): (r: string)
    ensures |r| <= |line|
  {
    Repair(StripNewlines(line))
  }

  predicate IsSixLetters(w: string)
  {
    |w| == WordLength
  }

  /** `sixLetterWords` after the read loop: the normalised lines of length 6,
      in file order. */
  function SixLetterWords(lines: seq<string>): (words: seq<string>)
    ensures forall k :: 0 <= k < |words| ==> |words[k]| == WordLength
  {
    Filter(IsSixLetters, Map(Normalise, lines))
  }

  /** The read loop of the normaliser. */
  method CollectSixLetterWords(lines: seq<string>) returns (sixLetterWords: seq<string>)
    ensures sixLetterWords == SixLetterWords(lines)
  {
    sixLetterWords := [];
    for i := 0 to |lines|
      invariant sixLetterWords == SixLetterWords(lines[..i])
    {
      var line := StripNewlines(lines[i]);
      line := Repair(line);
      SixLetterWordsStep(lines, i);
      if |line| == WordLength {
        sixLetterWords := sixLetterWords + [line];
      }
    }
    assert lines[..|lines|] == lines;
  }

  /** One more line: the words so far, and the line's normalised form when
      it has six characters. */
  lemma SixLetterWordsStep(lines: seq<string>, i: nat)
    requires i < |lines|
    ensures SixLetterWords(lines[..i + 1]) ==
      SixLetterWords(lines[..i]) + (if |Normalise(lines[i])| == WordLength then [Normalise(lines[i])] else [])
  {
    var seen := Map(Normalise, lines[..i + 1]);
    assert seen[..i] == Map(Normalise, lines[..i]);
    assert lines[..i + 1][i] == lines[i];
  }

  /** The whole normaliser: the text of the dictionary file in, the text of
      the six-letter word file out. */
  method NormaliseDictionary(text: string) returns (out: string)
    ensures out == Serialise(SixLetterWords(FileLines(text)))
  {
    var sixLetterWords := CollectSixLetterWords(FileLines(text));
    out := WriteLines(sixLetterWords);
  }

  /** Text in which no pattern of `table` occurs goes through the chain unchanged. */
  lemma {:induction false} ChainUnchanged(s: string, table: seq<(string, string)>)
    requires forall k :: 0 <= k < |table| ==> !Contains(s, table[k].0)
    ensures ReplaceChain(s, table) == s
    decreases |table|
  {
    if table != [] {
      ReplaceAbsent(s, table[0].0, table[0].1);
      ChainUnchanged(s, table[1..]);
    }
  }

  /** A chain of two-character-to-one-letter replacements never lengthens a
      line, and keeps its length only when it changes nothing. */
  lemma {:induction false} ChainShortens(s: string, table: seq<(string, string)>)
    requires PairToLetter(table)
    ensures |ReplaceChain(s, table)| <= |s|
    ensures |ReplaceChain(s, table)| == |s| ==> ReplaceChain(s, table) == s
    decreases |table|
  {
    if table != [] {
      var (pat, rep) := table[0];
      var next := Replace(s, pat, rep);
      ReplaceLength(s, pat, rep);
      assert |next| == |s| - Count(s, pat);
      if Count(s, pat) == 0 {
        ReplaceAbsent(s, pat, rep);
      }
      ChainShortens(next, table[1..]);
    }
  }

  /** A two-character sequence absent from the text, and made of characters
      that no replacement letter equals, stays absent along the chain. */
  lemma {:induction false} ChainKeepsAbsent(s: string, table: seq<(string, string)>, q: string)
    requires PairToLetter(table) && |q| == 2 && LettersAvoid(table, q)
    requires !Contains(s, q)
    ensures !Contains(ReplaceChain(s, table), q)
    decreases |table|
  {
    if table != [] {
      ReplaceLeavesNoPair(s, table[0].0, table[0].1, q);
      ChainKeepsAbsent(Replace(s, table[0].0, table[0].1), table[1..], q);
    }
  }

  /** After the chain, none of its patterns is left in the text: a pattern
      is removed by its own step and no later step brings it back. */
  lemma {:induction false} ChainRemovesPatterns(s: string, table: seq<(string, string)>)
    requires PairToLetter(table)
    requires forall k :: 0 <= k < |table| ==> LettersAvoid(table, table[k].0)
    ensures forall k :: 0 <= k < |table| ==> !Contains(ReplaceChain(s, table), table[k].0)
    decreases |table|
  {
    if table != [] {
      var (pat, rep) := table[0];
      var next := Replace(s, pat, rep);
      var tail := table[1..];
      assert forall k :: 0 <= k < |tail| ==> tail[k] == table[k + 1];
      assert LettersAvoid(table, pat);
      ReplaceLeavesNoPair(s, pat, rep, pat);
      ChainKeepsAbsent(next, tail, pat);
      ChainRemovesPatterns(next, tail);
      forall k | 0 <= k < |table| ensures !Contains(ReplaceChain(s, table), table[k].0) {
        if k > 0 {
          assert table[k].0 == tail[k - 1].0;
        }
      }
    }
  }

  /** A character that is in neither the text nor any replacement letter
      stays out of the text along the chain. */
  lemma {:induction false} ChainKeepsOut(s: string, table: seq<(string, string)>, c: char)
    requires c !in s && forall k :: 0 <= k < |table| ==> c !in table[k].1
    ensures c !in ReplaceChain(s, table)
    decreases |table|
  {
    if table != [] {
      ReplaceKeepsOut(s, table[0].0, table[0].1, c);
      ChainKeepsOut(Replace(s, table[0].0, table[0].1), table[1..], c);
    }
  }

  /** The repair never lengthens a line, changes it whenever it shortens it,
      and leaves none of the seven mis-decoded sequences behind. */
  lemma RepairProperties(s: string)
    ensures |Repair(s)| <= |s|
    ensures |Repair(s)| == |s| ==> Repair(s) == s
    ensures forall k :: 0 <= k < |Repairs| ==> !Contains(Repair(s), Repairs[k].0)
  {
    RepairsShape();
    ChainShortens(s, Repairs);
    ChainRemovesPatterns(s, Repairs);
  }

  /** A line holding none of the seven sequences is unchanged by the repair. */
  lemma RepairUnchanged(s: string)
    requires forall k :: 0 <= k < |Repairs| ==> !Contains(s, Repairs[k].0)
    ensures Repair(s) == s
  {
    ChainUnchanged(s, Repairs);
  }

  /** A correctly encoded word, read with or without its terminator, comes
      out of normalisation as itself. */
  lemma NormaliseCorrectWord(w: string)
    requires '\n' !in w
    requires forall k :: 0 <= k < |Repairs| ==> !Contains(w, Repairs[k].0)
    ensures Normalise(w) == w && Normalise(w + "\n") == w
  {
    StripTerminated(w, '\n');
    RepairUnchanged(w);
  }

  /** Exactly the lines whose normalised form has six characters are kept,
      in file order and with duplicates. */
  lemma SixLetterWordsSelect(lines: seq<string>) returns (idx: seq<nat>)
    ensures Embeds(SixLetterWords(lines), Map(Normalise, lines), idx)
    ensures forall k :: 0 <= k < |lines| ==> (|Normalise(lines[k])| == WordLength <==> k in idx)
  {
    idx := FilterSelects(IsSixLetters, Map(Normalise, lines));
  }

  /** The repair never introduces a `'\n'`. */
  lemma RepairKeepsOutNewline(s: string)
    requires '\n' !in s
    ensures '\n' !in Repair(s)
  {
    ChainKeepsOut(s, Repairs, '\n');
  }

  /** Words collected from a file's lines contain no `'\n'`. */
  lemma SixLetterWordsHaveNoNewline(text: string)
    ensures forall k :: 0 <= k < |SixLetterWords(FileLines(text))| ==> '\n' !in SixLetterWords(FileLines(text))[k]
  {
    var lines := FileLines(text);
    var normalised := Map(Normalise, lines);
    var words := SixLetterWords(lines);
    var idx := SixLetterWordsSelect(lines);
    forall k | 0 <= k < |words| ensures '\n' !in words[k] {
      var n := idx[k];
      assert words[k] == normalised[n] == Normalise(lines[n]);
      LineHasNoInnerNewline(lines, n);
      StrippedLineHasNoNewline(lines[n]);
      RepairKeepsOutNewline(StripNewlines(lines[n]));
    }
  }

  /** One line's instance of FileLines' newline fact, taken apart so that
      SixLetterWordsHaveNoNewline does not instantiate the nested forall. */
  lemma LineHasNoInnerNewline(lines: seq<string>, n: nat)
    requires n < |lines|
    requires forall k, j :: 0 <= k < |lines| && 0 <= j < |lines[k]| - 1 ==> lines[k][j] != '\n'
    ensures forall j :: 0 <= j < |lines[n]| - 1 ==> lines[n][j] != '\n'
  {
  }

  /** The file the normaliser writes, read back line by line and stripped
      as the filter reads it, gives back `sixLetterWords` exactly. */
  lemma WrittenWordsReadBack(text: string)
    ensures Map(StripNewlines, FileLines(Serialise(SixLetterWords(FileLines(text))))) ==
            SixLetterWords(FileLines(text))
  {
    SixLetterWordsHaveNoNewline(text);
    RoundTrip(SixLetterWords(FileLines(text)));
  }
}
