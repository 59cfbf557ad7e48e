/** Text files as both scripts see them: iterating over an open file yields
    its lines, each still carrying its `'\n'` terminator (the last line may
    lack one); writing `'{}\n'.format(w)` for each word, or printing each
    word, produces the words one per line. */
module LineFile {
  import opened Seqs
  import opened PyStr

  /** `line.strip('\n')`, the first thing both scripts do with a line. */
  function StripNewlines(line: string): (r: string)
    ensures |r| <= |line|
    ensures r == [] || (r[0] != '\n' && r[|r| - 1] != '\n')
  {
    Strip(line, '\n')
  }

  /** `w + '\n'`: one word as written by `'{}\n'.format(w)` or `print(w)`. */
  function Terminate(w: string): string
  {
    w + "\n"
  }

  /** The length of the first line of `t`, its `'\n'` included. */
  function LineEnd(t: string): (n: nat)
    ensures n <= |t| && (t != [] ==> 1 <= n)
    ensures forall k :: 0 <= k < n - 1 ==> t[k] != '\n'
    ensures n < |t| ==> t[n - 1] == '\n'
  {
    if t == [] then 0 else if t[0] == '\n' then 1 else 1 + LineEnd(t[1..])
  }

  /** `list(f)` for a file holding `t`: the lines in order, each ending at
      the first `'\n'` after the previous one; concatenated they give `t` back. */
  function FileLines(t: string): (lines: seq<string>)
    ensures forall k :: 0 <= k < |lines| ==> lines[k] != []
    ensures forall k, j :: 0 <= k < |lines| && 0 <= j < |lines[k]| - 1 ==> lines[k][j] != '\n'
    ensures forall k :: 0 <= k < |lines| - 1 ==> lines[k][|lines[k]| - 1] == '\n'
    ensures Flatten(lines) == t
    decreases |t|
  {
    if t == [] then []
    else
      var n := LineEnd(t);
      var rest := FileLines(t[n..]);
      var lines := [t[..n]] + rest;
      assert lines[1..] == rest;
      assert t[..n] + t[n..] == t;
      lines
  }

  /** The text that writing each word followed by `'\n'` produces. */
  function Serialise(words: seq<string>): (r: string)
    ensures r == [] <==> words == []
    ensures r != [] ==> r[|r| - 1] == '\n'
  {
    if words == [] then [] else words[0] + "\n" + Serialise(words[1..])
  }

  /** Writing one more word appends that word and its terminator. */
  lemma {:induction false} SerialiseSnoc(words: seq<string>, w: string)
    ensures Serialise(words + [w]) == Serialise(words) + w + "\n"
  {
    if words != [] {
      assert (words + [w])[1..] == words[1..] + [w];
      SerialiseSnoc(words[1..], w);
    } else {
      assert ([] + [w])[1..] == [];
    }
  }

  /** The write loop of sozlukOlustur.py (and the print loop of
      kelimeBul.py): every word, in order, each followed by `'\n'`. */
  method WriteLines(words: seq<string>) returns (out: string)
    ensures out == Serialise(words)
  {
    out := [];
    for i := 0 to |words|
      invariant out == Serialise(words[..i])
    {
      SerialiseSnoc(words[..i], words[i]);
      assert words[..i + 1] == words[..i] + [words[i]];
      out := out + words[i] + "\n";
    }
    assert words[..|words|] == words;
  }

  /** A word without `'\n'` followed by `'\n'` is read back as one line. */
  lemma FirstLine(w: string, rest: string)
    requires '\n' !in w
    ensures FileLines(w + "\n" + rest) == [w + "\n"] + FileLines(rest)
  {
    var t := w + "\n" + rest;
    var n := LineEnd(t);
    assert t[|w|] == '\n';
    assert forall k :: 0 <= k < |w| ==> t[k] == w[k] && w[k] in w;
    assert n == |w| + 1;
    assert t[..n] == w + "\n";
    assert t[n..] == rest;
  }

  /** Reading back what `Serialise` wrote yields one line per word. */
  lemma {:induction false} ReadSerialised(words: seq<string>)
    requires forall k :: 0 <= k < |words| ==> '\n' !in words[k]
    ensures FileLines(Serialise(words)) == Map(Terminate, words)
  {
    if words != [] {
      var tail := words[1..];
      assert forall k :: 0 <= k < |tail| ==> tail[k] == words[k + 1];
      ReadSerialised(tail);
      var rest := Serialise(tail);
      assert Serialise(words) == words[0] + "\n" + rest;
      FirstLine(words[0], rest);
      MapCons(Terminate, words);
    }
  }

  /** The write/read round trip: splitting the written text into lines and
      stripping each line's `'\n'` gives back exactly the words written,
      provided no word contains `'\n'`. */
  lemma RoundTrip(words: seq<string>)
    requires forall k :: 0 <= k < |words| ==> '\n' !in words[k]
    ensures Map(StripNewlines, FileLines(Serialise(words))) == words
  {
    ReadSerialised(words);
    forall k | 0 <= k < |words|
      ensures StripNewlines(Terminate(words[k])) == words[k]
    {
      StripTerminated(words[k], '\n');
    }
  }

  /** A line read from a file holds no `'\n'` once stripped: its only
      possible `'\n'` is its last character. */
  lemma StrippedLineHasNoNewline(line: string)
    requires forall j :: 0 <= j < |line| - 1 ==> line[j] != '\n'
    ensures '\n' !in StripNewlines(line)
  {
    var r := StripNewlines(line);
    var i, j := StripIsInfix(line, '\n');
    assert r == line[i..j];
    forall m | 0 <= m < |r| - 1 ensures r[m] != '\n' {
      assert i + m < |line| - 1;
      assert r[m] == line[i + m];
    }
    assert r == [] || r[|r| - 1] != '\n';
  }
}
