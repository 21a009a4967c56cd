/** The chunked, context-carrying book translator of translator/translator.py:
    text cleaning and chunking, the rolling conversation sent to the
    translation service, the per-chunk prompt, the terminology glossary and
    the layout of the saved translation. */
module Translator {
  import opened Text

  // ---------------------------------------------------------------------
  // Cleaning and chunking (PDFTranslator.clean_and_chunk_text)

  /** `re.sub(r'\s+', ' ', s)`: every maximal whitespace run becomes one space. */
  function CollapseWhitespace(s: string): (r: string)
    ensures r == [] <==> s == []
    ensures s != [] ==> (IsSpace(r[0]) <==> IsSpace(s[0]))
    decreases |s|
  {
    if s == [] then []
    else if IsSpace(s[0]) then " " + CollapseWhitespace(TrimLeft(s[1..]))
    else [s[0]] + CollapseWhitespace(s[1..])
  }

  /** Every whitespace character left is a single space not followed by another. */
  predicate Collapsed(r: string) {
    forall i :: 0 <= i < |r| && IsSpace(r[i]) ==> r[i] == ' ' && (i + 1 == |r| || !IsSpace(r[i + 1]))
  }

  /** Collapsing keeps every non-whitespace character, in order, and leaves no
      whitespace run longer than one space. */
  lemma {:induction false} CollapseWhitespaceSpec(s: string)
    ensures NonWs(CollapseWhitespace(s)) == NonWs(s)
    ensures Collapsed(CollapseWhitespace(s))
    decreases |s|
  {
    if s != [] {
      var r := CollapseWhitespace(s);
      if IsSpace(s[0]) {
        var rest := TrimLeft(s[1..]);
        var c := CollapseWhitespace(rest);
        CollapseWhitespaceSpec(rest);
        NonWsTrimLeft(s[1..]);
        assert r == " " + c && r[1..] == c;
        forall i | 0 <= i < |r| && IsSpace(r[i]) ensures r[i] == ' ' && (i + 1 == |r| || !IsSpace(r[i + 1])) {
          if i > 0 { assert r[i] == c[i - 1]; }
          if i + 1 < |r| { assert r[i + 1] == c[i]; }
        }
      } else {
        var c := CollapseWhitespace(s[1..]);
        CollapseWhitespaceSpec(s[1..]);
        assert r == [s[0]] + c && r[1..] == c;
        forall i | 0 <= i < |r| && IsSpace(r[i]) ensures r[i] == ' ' && (i + 1 == |r| || !IsSpace(r[i + 1])) {
          assert r[i] == c[i - 1];
          if i + 1 < |r| { assert r[i + 1] == c[i]; }
        }
      }
    }
  }

  /** Collapsing keeps the words: `re.sub(r'\s+', ' ', s).split() == s.split()`. */
  lemma {:induction false} WordsCollapse(s: string)
    ensures Words(CollapseWhitespace(s)) == Words(s)
    decreases |s|
  {
    if s != [] {
      assert s == [s[0]] + s[1..];
      if IsSpace(s[0]) {
        var t := TrimLeft(s[1..]);
        WordsCollapse(t);
        WordsSpaceFirst(" ", CollapseWhitespace(t));
        WordsTrimLeft(s[1..]);
        WordsSpaceFirst([s[0]], s[1..]);
      } else {
        WordsCollapse(s[1..]);
        WordsCons(s[0], CollapseWhitespace(s[1..]));
        WordsCons(s[0], s[1..]);
      }
    }
  }

  /** Stripping a collapsed text leaves it single-spaced. */
  lemma StripCollapsed(x: string)
    requires Collapsed(x)
    ensures SingleSpaced(Strip(x))
  {
    StripIsSlice(x);
    var y, a := Strip(x), StripStart(x);
    forall i | 0 <= i < |y| && IsSpace(y[i])
      ensures y[i] == ' ' && 0 < i < |y| - 1 && !IsSpace(y[i - 1]) && !IsSpace(y[i + 1])
    {
      assert y[i] == x[a + i];
      if 0 < i {
        assert y[i - 1] == x[a + i - 1];
      }
      if i + 1 < |y| {
        assert y[i + 1] == x[a + i + 1];
      }
    }
  }

  /** Collapsing whitespace and then stripping the ends, as chunking does,
      gives `' '.join(s.split())`. */
  lemma CollapseWhitespaceStrip(s: string)
    ensures Strip(CollapseWhitespace(s)) == CollapseSpaces(s)
  {
    var r := CollapseWhitespace(s);
    CollapseWhitespaceSpec(s);
    StripCollapsed(r);
    SingleSpacedJoin(Strip(r));
    WordsStrip(r);
    WordsCollapse(s);
  }

  predicate IsSentenceEnd(c: char) {
    c == '.' || c == '!' || c == '?'
  }

  /** `(?<=[.!?])\s+` can start matching at `k`. */
  predicate BreakAt(t: string, k: nat) {
    0 < k < |t| && IsSpace(t[k]) && IsSentenceEnd(t[k - 1])
  }

  /** The leftmost break at or after `from`, or `|t|` when there is none. */
  function FirstBreak(t: string, from: nat): (k: nat)
    requires from <= |t|
    ensures from <= k <= |t|
    ensures k < |t| ==> BreakAt(t, k)
    ensures forall j :: from <= j < k ==> !BreakAt(t, j)
    decreases |t| - from
  {
    if from == |t| || BreakAt(t, from) then from else FirstBreak(t, from + 1)
  }

  /** `re.split(r'(?<=[.!?])\s+', t)`: cut at every whitespace run that follows
      '.', '!' or '?', dropping the run.  After a cut the next piece starts at
      a non-whitespace character, so its first position is never a break. */
  function SplitSentences(t: string): (r: seq<string>)
    ensures |r| >= 1
    decreases |t|
  {
    var k := FirstBreak(t, 0);
    if k == |t| then [t]
    else [t[..k]] + SplitSentences(TrimLeft(t[k + 1..]))
  }

  predicate EndsSentence(x: string) {
    x != [] && IsSentenceEnd(x[|x| - 1])
  }

  /** Every sentence but the last ends with '.', '!' or '?'. */
  lemma {:induction false} SplitSentencesEnds(t: string)
    ensures forall i :: 0 <= i < |SplitSentences(t)| - 1 ==> EndsSentence(SplitSentences(t)[i])
    decreases |t|
  {
    var k := FirstBreak(t, 0);
    if k < |t| {
      var rest := TrimLeft(t[k + 1..]);
      SplitSentencesEnds(rest);
      assert SplitSentences(t) == [t[..k]] + SplitSentences(rest);
      assert t[..k][k - 1] == t[k - 1];
      EndsSentenceCons(t[..k], SplitSentences(rest));
    }
  }

  lemma EndsSentenceCons(a: string, tail: seq<string>)
    requires EndsSentence(a) && forall i :: 0 <= i < |tail| - 1 ==> EndsSentence(tail[i])
    ensures var r := [a] + tail; forall i :: 0 <= i < |r| - 1 ==> EndsSentence(r[i])
  {
    var r := [a] + tail;
    forall i | 0 <= i < |r| - 1 ensures EndsSentence(r[i]) {
      if i > 0 { assert r[i] == tail[i - 1]; }
    }
  }

  /** Cutting at a whitespace character and skipping the run after it loses
      only whitespace. */
  lemma NonWsCut(t: string, k: nat)
    requires k < |t| && IsSpace(t[k])
    ensures NonWs(t) == NonWs(t[..k]) + NonWs(TrimLeft(t[k + 1..]))
  {
    NonWsTrimLeft(t[k + 1..]);
    NonWsSplit(t, k, k + 1);
    NonWsAllSpace(t[k..k + 1]);
  }

  /** Splitting into sentences loses nothing but whitespace. */
  lemma {:induction false} SplitSentencesLossless(t: string)
    ensures NonWs(Concat(SplitSentences(t))) == NonWs(t)
    decreases |t|
  {
    var k := FirstBreak(t, 0);
    var r := SplitSentences(t);
    if k == |t| {
      assert r == [t] && r[1..] == [];
      assert Concat(r) == t + Concat([]) == t;
    } else {
      var rest := TrimLeft(t[k + 1..]);
      assert r[0] == t[..k] && r[1..] == SplitSentences(rest);
      SplitSentencesLossless(rest);
      NonWsConcat(t[..k], Concat(r[1..]));
      NonWsCut(t, k);
    }
  }

  /** The sentences the chunker packs: the text with whitespace collapsed, cut
      after sentence-final punctuation.  The second substitution of the source,
      `\n\s*\n` to a blank line, never matches once every newline has become a
      space, so it is the identity here. */
  function Sentences(text: string): (r: seq<string>)
    ensures |r| >= 1
    ensures NonWs(Concat(r)) == NonWs(text)
  {
    var c := CollapseWhitespace(text);
    CollapseWhitespaceSpec(text);
    SplitSentencesLossless(c);
    SplitSentences(c)
  }

  /** The loop state of the packer: the chunks emitted so far and the chunk
      being filled. */
  datatype Packing = Packing(chunks: seq<string>, current: string)

  /** One step of the packing loop, as written: a sentence joins the current
      chunk when both fit in `size`; otherwise a non-empty current chunk is
      flushed (stripped) and the sentence starts the next one, whatever its
      length; only when the current chunk is empty is an oversized sentence
      cut after its first `size` characters, and the rest is not cut again. */
  function PackSentence(p: Packing, sentence: string, size: nat): Packing {
    if |p.current| + |sentence| <= size then
      if p.current != "" then Packing(p.chunks, p.current + " " + sentence)
      else Packing(p.chunks, sentence)
    else if p.current != "" then
      Packing(p.chunks + [Strip(p.current)], sentence)
    else
      Packing(p.chunks + [sentence[..size]], sentence[size..])
  }

  function Pack(sentences: seq<string>, size: nat): Packing {
    if sentences == [] then Packing([], "")
    else PackSentence(Pack(sentences[..|sentences| - 1], size), sentences[|sentences| - 1], size)
  }

  /** The last, non-empty current chunk is flushed stripped. */
  function Flush(p: Packing): seq<string> {
    if p.current != "" then p.chunks + [Strip(p.current)] else p.chunks
  }

  function ChunkSentences(sentences: seq<string>, size: nat): seq<string> {
    Flush(Pack(sentences, size))
  }

  function ChunkText(text: string, size: nat): seq<string> {
    ChunkSentences(Sentences(text), size)
  }

  /** The packing loop of `clean_and_chunk_text`. */
  method PackChunks(sentences: seq<string>, size: nat) returns (chunks: seq<string>)
    ensures chunks == ChunkSentences(sentences, size)
  {
    chunks := [];
    var current := "";
    for i := 0 to |sentences|
      invariant Packing(chunks, current) == Pack(sentences[..i], size)
    {
      assert sentences[..i + 1][..i] == sentences[..i];
      var sentence := sentences[i];
      if |current| + |sentence| <= size {
        if current != "" {
          current := current + " " + sentence;
        } else {
          current := sentence;
        }
      } else if current != "" {
        chunks := chunks + [Strip(current)];
        current := sentence;
      } else {
        chunks := chunks + [sentence[..size]];
        current := sentence[size..];
      }
    }
    assert sentences[..|sentences|] == sentences;
    if current != "" {
      chunks := chunks + [Strip(current)];
    }
  }

  /** Packing loses nothing but whitespace: the emitted chunks followed by the
      current one hold the non-whitespace characters of the sentences, in order. */
  lemma {:induction false} PackLossless(sentences: seq<string>, size: nat)
    ensures Kept(Pack(sentences, size)) == NonWs(Concat(sentences))
  {
    if sentences != [] {
      var init, s := sentences[..|sentences| - 1], sentences[|sentences| - 1];
      assert sentences == init + [s];
      PackLossless(init, size);
      PackSentenceKept(Pack(init, size), s, size);
      ConcatAppend(init, s);
      NonWsConcat(Concat(init), s);
    }
  }

  /** The non-whitespace characters a packing holds: its chunks, then the
      chunk being filled. */
  function Kept(p: Packing): string {
    NonWs(Concat(p.chunks)) + NonWs(p.current)
  }

  /** Emitting `x` and going on with `next`. */
  lemma KeptEmit(p: Packing, x: string, next: string)
    ensures Kept(Packing(p.chunks + [x], next)) == NonWs(Concat(p.chunks)) + NonWs(x) + NonWs(next)
  {
    ConcatAppend(p.chunks, x);
    NonWsConcat(Concat(p.chunks), x);
  }

  /** The joining space adds no non-whitespace character. */
  lemma NonWsJoinSpace(a: string, b: string)
    ensures NonWs(a + " " + b) == NonWs(a) + NonWs(b)
  {
    NonWsConcat(a + " ", b);
    NonWsConcat(a, " ");
    assert NonWs(" ") == [];
  }

  /** A sentence that joins the current chunk, whether it was empty or not. */
  lemma KeptJoin(p: Packing, sentence: string)
    ensures Kept(Packing(p.chunks, if p.current != "" then p.current + " " + sentence else sentence)) == Kept(p) + NonWs(sentence)
  {
    if p.current != "" {
      NonWsJoinSpace(p.current, sentence);
      AppendAssoc(NonWs(Concat(p.chunks)), NonWs(p.current), NonWs(sentence));
    } else {
      assert NonWs(p.current) == [];
    }
  }

  /** A sentence cut after its first `size` characters, into an empty chunk. */
  lemma KeptCut(p: Packing, sentence: string, size: nat)
    requires size <= |sentence| && p.current == ""
    ensures Kept(Packing(p.chunks + [sentence[..size]], sentence[size..])) == Kept(p) + NonWs(sentence)
  {
    var head, rest := sentence[..size], sentence[size..];
    NonWsSplitAt(sentence, size);
    AppendAssoc(Kept(p), NonWs(head), NonWs(rest));
    KeptEmitFromEmpty(p, head, rest);
  }

  /** Emitting `x` from an empty chunk and going on with `next`. */
  lemma KeptEmitFromEmpty(p: Packing, x: string, next: string)
    requires p.current == ""
    ensures Kept(Packing(p.chunks + [x], next)) == Kept(p) + NonWs(x) + NonWs(next)
  {
    KeptEmit(p, x, next);
    assert NonWs(p.current) == [];
    assert Kept(p) == NonWs(Concat(p.chunks));
  }

  /** One packing step loses only whitespace. */
  lemma PackSentenceKept(p: Packing, sentence: string, size: nat)
    ensures Kept(PackSentence(p, sentence, size)) == Kept(p) + NonWs(sentence)
  {
    if |p.current| + |sentence| <= size {
      KeptJoin(p, sentence);
    } else if p.current != "" {
      KeptEmit(p, Strip(p.current), sentence);
      NonWsStrip(p.current);
    } else {
      KeptCut(p, sentence, size);
    }
  }

  /** Chunking loses nothing but whitespace. */
  lemma ChunkTextLossless(text: string, size: nat)
    ensures NonWs(Concat(ChunkText(text, size))) == NonWs(text)
  {
    var ss := Sentences(text);
    PackLossless(ss, size);
    FlushSpec(Pack(ss, size), 0);
  }

  /** A chunk as the packer can leave it: within the budget plus the joining
      space, or a sentence longer than the budget, whole or after its first
      `size` characters were cut off. */
  predicate CurrentWithinBudget(c: string, sentences: seq<string>, size: nat) {
    |c| <= size + 1 ||
    exists j :: 0 <= j < |sentences| && |sentences[j]| > size &&
      (c == sentences[j] || c == sentences[j][size..])
  }

  /** An emitted chunk: the same, stripped. */
  predicate ChunkWithinBudget(c: string, sentences: seq<string>, size: nat) {
    |c| <= size + 1 ||
    exists j :: 0 <= j < |sentences| && |sentences[j]| > size &&
      (c == Strip(sentences[j]) || c == Strip(sentences[j][size..]))
  }

  lemma CurrentWithinBudgetGrows(c: string, init: seq<string>, s: string, size: nat)
    requires CurrentWithinBudget(c, init, size)
    ensures CurrentWithinBudget(c, init + [s], size) && CurrentWithinBudget(s, init + [s], size)
  {
    var ss := init + [s];
    if |c| > size + 1 {
      var j :| 0 <= j < |init| && |init[j]| > size && (c == init[j] || c == init[j][size..]);
      assert ss[j] == init[j];
    }
    if |s| > size + 1 {
      assert ss[|init|] == s;
    }
  }

  lemma ChunkWithinBudgetGrows(c: string, init: seq<string>, s: string, size: nat)
    requires ChunkWithinBudget(c, init, size)
    ensures ChunkWithinBudget(c, init + [s], size)
  {
    if |c| > size + 1 {
      var j :| 0 <= j < |init| && |init[j]| > size && (c == Strip(init[j]) || c == Strip(init[j][size..]));
      assert (init + [s])[j] == init[j];
    }
  }

  /** The packer's length guarantee: no chunk is longer than the budget plus
      one joining space, except a stripped sentence that alone is longer than
      the budget, or what is left of one after its first `size` characters. */
  lemma {:induction false} PackWithinBudget(sentences: seq<string>, size: nat)
    ensures var p := Pack(sentences, size);
      (forall i :: 0 <= i < |p.chunks| ==> ChunkWithinBudget(p.chunks[i], sentences, size)) &&
      CurrentWithinBudget(p.current, sentences, size)
  {
    if sentences != [] {
      var init, s := sentences[..|sentences| - 1], sentences[|sentences| - 1];
      assert sentences == init + [s];
      PackWithinBudget(init, size);
      var p := Pack(init, size);
      CurrentWithinBudgetGrows(p.current, init, s, size);
      CurrentStripWithinBudget(p.current, sentences, size);
      forall i | 0 <= i < |p.chunks| ensures ChunkWithinBudget(p.chunks[i], sentences, size) {
        ChunkWithinBudgetGrows(p.chunks[i], init, s, size);
      }
      if |p.current| + |s| > size && p.current == "" {
        assert |s[..size]| == size;
        if |s[size..]| > size + 1 {
          assert sentences[|init|] == s;
        }
      }
    }
  }

  lemma ChunkTextWithinBudget(text: string, size: nat)
    ensures var cs := ChunkText(text, size);
      forall i :: 0 <= i < |cs| ==> ChunkWithinBudget(cs[i], Sentences(text), size)
  {
    var ss := Sentences(text);
    PackWithinBudget(ss, size);
    var p := Pack(ss, size);
    if p.current != "" {
      CurrentStripWithinBudget(p.current, ss, size);
    }
  }

  lemma CurrentStripWithinBudget(c: string, ss: seq<string>, size: nat)
    requires CurrentWithinBudget(c, ss, size)
    ensures ChunkWithinBudget(Strip(c), ss, size)
  {
    if |c| > size + 1 {
      var j :| 0 <= j < |ss| && |ss[j]| > size && (c == ss[j] || c == ss[j][size..]);
    }
  }

  /** A sentence longer than the budget that follows a non-empty chunk is
      emitted whole: with a budget of 3, "ab" and "cdefgh" stay two chunks and
      the second has 6 characters. */
  lemma OversizedSentenceNotSplit()
    ensures ChunkSentences(["ab", "cdefgh"], 3) == ["ab", "cdefgh"]
  {
    assert ["ab", "cdefgh"][..1] == ["ab"];
    assert ["ab"][..0] == [];
    assert Strip("ab") == "ab" by { StripStripped("ab"); }
    assert Strip("cdefgh") == "cdefgh" by { StripStripped("cdefgh"); }
  }

  /** What is left of a sentence cut after its first `size` characters is never
      cut again: with a budget of 3, "abcdefgh" gives "abc" and "defgh". */
  lemma RemainderNotSplit()
    ensures ChunkSentences(["abcdefgh"], 3) == ["abc", "defgh"]
  {
    var s: string := "abcdefgh";
    var none: seq<string> := [];
    assert [s][..0] == none;
    assert Pack([s], 3) == PackSentence(Packing([], ""), s, 3);
    assert s[..3] == "abc" && s[3..] == "defgh";
    assert Pack([s], 3) == Packing(["abc"], "defgh");
    assert Strip("defgh") == "defgh" by { StripStripped("defgh"); }
  }

  /** The packing step as evidently intended: a sentence that does not fit
      flushes the current chunk and, when it alone exceeds the budget, is cut
      into budget-sized pieces until the rest fits. */
  function PackSentenceIntended(p: Packing, sentence: string, size: nat): Packing
    requires size > 0
  {
    if |p.current| + |sentence| <= size then
      if p.current != "" then Packing(p.chunks, p.current + " " + sentence)
      else Packing(p.chunks, sentence)
    else
      var flushed := if p.current != "" then p.chunks + [Strip(p.current)] else p.chunks;
      CutOversized(flushed, sentence, size)
  }

  /** Emit `size`-character heads of `s` until what is left fits. */
  function CutOversized(chunks: seq<string>, s: string, size: nat): (p: Packing)
    requires size > 0
    ensures |p.current| <= size
    decreases |s|
  {
    if |s| <= size then Packing(chunks, s)
    else CutOversized(chunks + [s[..size]], s[size..], size)
  }

  function PackIntended(sentences: seq<string>, size: nat): Packing
    requires size > 0
  {
    if sentences == [] then Packing([], "")
    else PackSentenceIntended(PackIntended(sentences[..|sentences| - 1], size), sentences[|sentences| - 1], size)
  }

  function ChunkSentencesIntended(sentences: seq<string>, size: nat): seq<string>
    requires size > 0
  {
    Flush(PackIntended(sentences, size))
  }

  predicate AllWithin(cs: seq<string>, bound: nat) {
    forall i :: 0 <= i < |cs| ==> |cs[i]| <= bound
  }

  lemma CutOversizedSpec(chunks: seq<string>, s: string, size: nat)
    requires size > 0 && AllWithin(chunks, size + 1)
    ensures AllWithin(CutOversized(chunks, s, size).chunks, size + 1)
    ensures Kept(CutOversized(chunks, s, size)) == NonWs(Concat(chunks)) + NonWs(s)
  {
    CutOversizedWithin(chunks, s, size);
    CutOversizedKept(chunks, s, size);
  }

  lemma AllWithinSnoc(cs: seq<string>, x: string, bound: nat)
    requires AllWithin(cs, bound) && |x| <= bound
    ensures AllWithin(cs + [x], bound)
  {
    forall i | 0 <= i < |cs| + 1 ensures |(cs + [x])[i]| <= bound {
      if i < |cs| { assert (cs + [x])[i] == cs[i]; }
    }
  }

  lemma {:induction false} CutOversizedWithin(chunks: seq<string>, s: string, size: nat)
    requires size > 0 && AllWithin(chunks, size + 1)
    ensures AllWithin(CutOversized(chunks, s, size).chunks, size + 1)
    decreases |s|
  {
    if |s| > size {
      AllWithinSnoc(chunks, s[..size], size + 1);
      CutOversizedWithin(chunks + [s[..size]], s[size..], size);
    }
  }

  lemma {:induction false} CutOversizedKept(chunks: seq<string>, s: string, size: nat)
    requires size > 0
    ensures Kept(CutOversized(chunks, s, size)) == NonWs(Concat(chunks)) + NonWs(s)
    decreases |s|
  {
    if |s| > size {
      var head, rest := s[..size], s[size..];
      CutOversizedKept(chunks + [head], rest, size);
      ConcatAppend(chunks, head);
      NonWsConcat(Concat(chunks), head);
      NonWsSplitAt(s, size);
      AppendAssoc(NonWs(Concat(chunks)), NonWs(head), NonWs(rest));
    }
  }

  /** With the intended packer every chunk fits the budget plus the one
      joining space, and still nothing but whitespace is lost. */
  lemma PackIntendedSpec(sentences: seq<string>, size: nat)
    requires size > 0
    ensures AllWithin(PackIntended(sentences, size).chunks, size + 1)
    ensures |PackIntended(sentences, size).current| <= size + 1
    ensures Kept(PackIntended(sentences, size)) == NonWs(Concat(sentences))
  {
    PackIntendedWithin(sentences, size);
    PackIntendedKept(sentences, size);
  }

  lemma {:induction false} PackIntendedWithin(sentences: seq<string>, size: nat)
    requires size > 0
    ensures AllWithin(PackIntended(sentences, size).chunks, size + 1)
    ensures |PackIntended(sentences, size).current| <= size + 1
  {
    if sentences != [] {
      var init, s := sentences[..|sentences| - 1], sentences[|sentences| - 1];
      PackIntendedWithin(init, size);
      PackSentenceIntendedWithin(PackIntended(init, size), s, size);
    }
  }

  /** One intended packing step keeps every chunk within the budget plus one. */
  lemma PackSentenceIntendedWithin(p: Packing, sentence: string, size: nat)
    requires size > 0 && AllWithin(p.chunks, size + 1) && |p.current| <= size + 1
    ensures AllWithin(PackSentenceIntended(p, sentence, size).chunks, size + 1)
    ensures |PackSentenceIntended(p, sentence, size).current| <= size + 1
  {
    if |p.current| + |sentence| > size {
      if p.current != "" {
        StripIsSlice(p.current);
        AllWithinSnoc(p.chunks, Strip(p.current), size + 1);
      }
      var flushed := if p.current != "" then p.chunks + [Strip(p.current)] else p.chunks;
      CutOversizedWithin(flushed, sentence, size);
    }
  }

  lemma {:induction false} PackIntendedKept(sentences: seq<string>, size: nat)
    requires size > 0
    ensures Kept(PackIntended(sentences, size)) == NonWs(Concat(sentences))
  {
    if sentences != [] {
      var init, s := sentences[..|sentences| - 1], sentences[|sentences| - 1];
      assert sentences == init + [s];
      PackIntendedKept(init, size);
      PackSentenceIntendedKept(PackIntended(init, size), s, size);
      ConcatAppend(init, s);
      NonWsConcat(Concat(init), s);
    }
  }

  /** One intended packing step loses only whitespace. */
  lemma PackSentenceIntendedKept(p: Packing, sentence: string, size: nat)
    requires size > 0
    ensures Kept(PackSentenceIntended(p, sentence, size)) == Kept(p) + NonWs(sentence)
  {
    if |p.current| + |sentence| <= size {
      KeptJoin(p, sentence);
    } else {
      var flushed := if p.current != "" then p.chunks + [Strip(p.current)] else p.chunks;
      CutOversizedKept(flushed, sentence, size);
      if p.current != "" {
        ConcatAppend(p.chunks, Strip(p.current));
        NonWsConcat(Concat(p.chunks), Strip(p.current));
        NonWsStrip(p.current);
        AppendAssoc(NonWs(Concat(p.chunks)), NonWs(p.current), NonWs(sentence));
      } else {
        assert NonWs(p.current) == [];
      }
    }
  }

  lemma ChunkSentencesIntendedSpec(sentences: seq<string>, size: nat)
    requires size > 0
    ensures var cs := ChunkSentencesIntended(sentences, size);
      AllWithin(cs, size + 1) && NonWs(Concat(cs)) == NonWs(Concat(sentences))
  {
    PackIntendedSpec(sentences, size);
    FlushSpec(PackIntended(sentences, size), size + 1);
  }

  /** Flushing the last chunk keeps the length bound and loses only whitespace. */
  lemma FlushSpec(p: Packing, bound: nat)
    ensures AllWithin(p.chunks, bound) && |p.current| <= bound ==> AllWithin(Flush(p), bound)
    ensures NonWs(Concat(Flush(p))) == NonWs(Concat(p.chunks)) + NonWs(p.current)
  {
    if p.current != "" {
      var x := Strip(p.current);
      var cs := p.chunks + [x];
      assert Flush(p) == cs;
      ConcatAppend(p.chunks, x);
      NonWsConcat(Concat(p.chunks), x);
      NonWsStrip(p.current);
      if AllWithin(p.chunks, bound) && |p.current| <= bound {
        forall i | 0 <= i < |cs| ensures |cs[i]| <= bound {
          if i < |p.chunks| { assert cs[i] == p.chunks[i]; }
        }
      }
    }
  }

  // ---------------------------------------------------------------------
  // The conversation sent to the service

  datatype Role = System | User | Assistant
  datatype Message = Message(role: Role, content: string)

  /** The number of user/assistant rounds the translator keeps (the default of
      `max_history`). */
  const MaxHistory: nat := 3

  /** `manage_conversation_history` as written: keep the system turn, then all
      later turns while there are at most `2 * maxHistory` of them, otherwise
      `messages[-(2 * maxHistory):]`, and append the reply.  For `maxHistory`
      of 0 that slice is `messages[-0:]`, the whole list, system turn included. */
  function ManageConversationHistory(messages: seq<Message>, newTranslation: string, maxHistory: nat): (r: seq<Message>)
    requires messages != []
    ensures |r| >= 2 && r[0] == messages[0] && r[|r| - 1] == Message(Assistant, newTranslation)
    ensures IsSuffix(r[1..|r| - 1], messages)
  {
    var recent :=
      if |messages| > maxHistory * 2 + 1 then
        if maxHistory == 0 then messages else messages[|messages| - maxHistory * 2..]
      else messages[1..];
    assert ([messages[0]] + recent + [Message(Assistant, newTranslation)])[1..|recent| + 1] == recent;
    [messages[0]] + recent + [Message(Assistant, newTranslation)]
  }

  /** With no rounds to keep the source repeats the system turn: the history
      [system, user] becomes [system, system, user, reply]. */
  lemma ManageConversationHistoryZero(system: string, user: string, reply: string)
    ensures var m := [Message(System, system), Message(User, user)];
      ManageConversationHistory(m, reply, 0) ==
        [Message(System, system), Message(System, system), Message(User, user), Message(Assistant, reply)]
  {
  }

  function Min(a: int, b: int): int {
    if a <= b then a else b
  }

  /** The history window as intended: the system turn, the last
      `2 * maxHistory` later turns (all of them when there are fewer), and the
      reply. */
  function WindowHistory(messages: seq<Message>, newTranslation: string, maxHistory: nat): (r: seq<Message>)
    requires messages != []
    ensures |r| == 2 + Min(|messages| - 1, 2 * maxHistory)
    ensures r[0] == messages[0] && r[|r| - 1] == Message(Assistant, newTranslation)
    ensures IsSuffix(r[1..|r| - 1], messages[1..])
  {
    var keep := Min(|messages| - 1, 2 * maxHistory);
    var recent := messages[|messages| - keep..];
    assert recent == messages[1..][|messages| - 1 - keep..];
    assert ([messages[0]] + recent + [Message(Assistant, newTranslation)])[1..keep + 1] == recent;
    [messages[0]] + recent + [Message(Assistant, newTranslation)]
  }

  /** For every positive window, which is how the translator calls it, the
      source's history management is the intended one. */
  lemma ManageConversationHistoryIntended(messages: seq<Message>, newTranslation: string, maxHistory: nat)
    requires messages != [] && maxHistory > 0
    ensures ManageConversationHistory(messages, newTranslation, maxHistory) ==
            WindowHistory(messages, newTranslation, maxHistory)
  {
  }

  /** `recover_from_error`: after a failed request keep the system turn and the
      last two turns, or everything when there are fewer than three. */
  function RecoverFromError(messages: seq<Message>): (r: seq<Message>)
    ensures |r| == Min(|messages|, 3)
    ensures messages != [] ==> r[0] == messages[0] && IsSuffix(r[1..], messages[1..])
  {
    if |messages| >= 3 then
      var r := [messages[0], messages[|messages| - 2], messages[|messages| - 1]];
      assert r[1..] == messages[1..][|messages| - 3..];
      r
    else messages
  }

  // ---------------------------------------------------------------------
  // The per-chunk prompt (build_translation_prompt)

  const ConsistencyHint := "请基于前文内容，保持术语和风格的一致性"
  const ContinuationHint := "请确保本部分结尾自然衔接后续内容"
  const TerminologyHint := "特别注意荣格心理学和塔罗牌专业术语的准确翻译"

  /** The context notes of chunk `index` of `total`. */
  function ContextHints(index: nat, total: nat): (hints: seq<string>) {
    (if index > 0 then [ConsistencyHint] else [])
    + (if index < total - 1 then [ContinuationHint] else [])
    + [TerminologyHint]
  }

  /** The consistency note appears exactly after the first chunk, the
      continuation note exactly before the last, and the terminology note
      always, last. */
  lemma ContextHintsSpec(index: nat, total: nat)
    ensures var h := ContextHints(index, total);
      (ConsistencyHint in h <==> index > 0) &&
      (ContinuationHint in h <==> index + 1 < total) &&
      h != [] && h[|h| - 1] == TerminologyHint
  {
    var h := ContextHints(index, total);
    assert ConsistencyHint != ContinuationHint && ConsistencyHint != TerminologyHint
      && ContinuationHint != TerminologyHint by {
      assert ConsistencyHint[1] != ContinuationHint[1] && ConsistencyHint[0] != TerminologyHint[0];
      assert ContinuationHint[0] != TerminologyHint[0];
    }
  }

  /** `第{index + 1}/{total}部分` */
  function PositionLabel(index: nat, total: nat): string {
    "第" + NatToDecimal(index + 1) + "/" + NatToDecimal(total) + "部分"
  }

  /** `《{title}》翻译任务` and a blank line. */
  function PromptIntro(title: string): string {
    BookName(title) + "翻译任务\n\n"
  }

  /** `《{title}》` */
  function BookName(title: string): string {
    "《" + title + "》"
  }

  /** A blank line, then `当前翻译片段（第i/n部分）：` on its own line. */
  function PromptPosition(index: nat, total: nat): string {
    "\n\n当前翻译片段（" + PositionLabel(index, total) + "）：\n"
  }

  const PromptTail := "\n\n请提供专业准确的中文翻译，保持学术严谨性和语言流畅性："

  function BuildTranslationPrompt(chunk: string, index: nat, total: nat, title: string): string {
    PromptIntro(title) + Join(ContextHints(index, total), "。") + PromptPosition(index, total) + chunk + PromptTail
  }

  lemma PromptStartsWithTitle(chunk: string, index: nat, total: nat, title: string)
    ensures IsPrefix(BookName(title), BuildTranslationPrompt(chunk, index, total, title))
  {
    var book := BookName(title);
    var rest := "翻译任务\n\n" + Join(ContextHints(index, total), "。") + PromptPosition(index, total) + chunk + PromptTail;
    assert BuildTranslationPrompt(chunk, index, total, title) == book + rest;
    assert (book + rest)[..|book|] == book;
  }

  lemma PromptHoldsChunk(chunk: string, index: nat, total: nat, title: string)
    ensures IsInfix(chunk, BuildTranslationPrompt(chunk, index, total, title))
  {
    InfixOfConcat(PromptIntro(title) + Join(ContextHints(index, total), "。") + PromptPosition(index, total), chunk, PromptTail);
  }

  lemma PromptHoldsPosition(chunk: string, index: nat, total: nat, title: string)
    ensures IsInfix(PositionLabel(index, total), BuildTranslationPrompt(chunk, index, total, title))
  {
    var pos := PositionLabel(index, total);
    var pre := PromptIntro(title) + Join(ContextHints(index, total), "。");
    InfixOfConcat("\n\n当前翻译片段（", pos, "）：\n");
    InfixOfConcat(pre, PromptPosition(index, total), chunk + PromptTail);
    assert BuildTranslationPrompt(chunk, index, total, title) == pre + PromptPosition(index, total) + (chunk + PromptTail);
    InfixTransitive(pos, PromptPosition(index, total), BuildTranslationPrompt(chunk, index, total, title));
  }

  lemma PromptHoldsHints(chunk: string, index: nat, total: nat, title: string)
    ensures forall h :: h in ContextHints(index, total) ==> IsInfix(h, BuildTranslationPrompt(chunk, index, total, title))
  {
    var hints := ContextHints(index, total);
    var joined := Join(hints, "。");
    var prompt := BuildTranslationPrompt(chunk, index, total, title);
    assert prompt == PromptIntro(title) + joined + (PromptPosition(index, total) + chunk + PromptTail);
    InfixOfConcat(PromptIntro(title), joined, PromptPosition(index, total) + chunk + PromptTail);
    forall h | h in hints ensures IsInfix(h, prompt) {
      var i :| 0 <= i < |hints| && hints[i] == h;
      InfixOfJoin(hints, "。", i);
      InfixTransitive(h, joined, prompt);
    }
  }

  /** The prompt names the book first and carries every context note, the
      chunk's position and the chunk itself. */
  lemma PromptContents(chunk: string, index: nat, total: nat, title: string)
    ensures var prompt := BuildTranslationPrompt(chunk, index, total, title);
      IsPrefix(BookName(title), prompt) &&
      IsInfix(chunk, prompt) &&
      IsInfix(PositionLabel(index, total), prompt) &&
      (forall h :: h in ContextHints(index, total) ==> IsInfix(h, prompt))
  {
    PromptStartsWithTitle(chunk, index, total, title);
    PromptHoldsChunk(chunk, index, total, title);
    PromptHoldsPosition(chunk, index, total, title);
    PromptHoldsHints(chunk, index, total, title);
  }

  // ---------------------------------------------------------------------
  // The terminology glossary (extract_terminology)

  predicate IsOpenQuote(c: char) { c == '「' || c == '《' }
  predicate IsCloseQuote(c: char) { c == '」' || c == '》' }
  predicate IsUpper(c: char) { 'A' <= c <= 'Z' }
  predicate IsLower(c: char) { 'a' <= c <= 'z' }

  /** The two term patterns, tried in this order: a term in 「」 or 《》
      quotes, and a run of capitalised words, each followed by a gloss in
      full-width parentheses. */
  datatype TermPattern = QuotedTerm | CapitalizedTerm

  const TerminologyPatterns: seq<TermPattern> := [QuotedTerm, CapitalizedTerm]

  /** What a match of the pattern captures. */
  predicate WellFormedGloss(pattern: TermPattern, term: string, gloss: string) {
    term != [] && gloss != [] && (forall i :: 0 <= i < |gloss| ==> gloss[i] != '）') &&
    match pattern
    case QuotedTerm => forall i :: 0 <= i < |term| ==> !IsCloseQuote(term[i])
    case CapitalizedTerm => WellFormedTerm(term)
  }

  predicate NotCloseParen(c: char) { c != '）' }
  predicate NotCloseQuote(c: char) { !IsCloseQuote(c) }

  /** Every character of `t[a..b]` is an ASCII lower-case letter. */
  predicate LowersIn(t: string, a: nat, b: nat) {
    forall i :: a <= i < b && i < |t| ==> IsLower(t[i])
  }

  // ---- The patterns as shapes of the text ----

  /** `\s*（([^）]+)）` matches `t[c..f + 1]`: whitespace up to the opening
      parenthesis at `d`, then the gloss `t[d + 1..f]`, which holds no `）`,
      then `）` at `f`. */
  ghost predicate GlossShape(t: string, c: nat, d: nat, f: nat) {
    c <= d && d + 1 < f < |t| && SpacesIn(t, c, d) &&
    t[d] == '（' && t[f] == '）' && (forall i :: d < i < f ==> t[i] != '）')
  }

  /** A further capitalised word `\s+[A-Z][a-z]+` can start at `q`. */
  ghost predicate StartsCapWord(t: string, q: nat) {
    exists w: nat :: q < w && w + 1 < |t| && SpacesIn(t, q, w) && IsUpper(t[w]) && IsLower(t[w + 1])
  }

  /** `t[a..b]` is one unit `\s+[A-Z][a-z]+`, its capital at `w`. */
  ghost predicate CapWord(t: string, a: nat, w: nat, b: nat) {
    a < w && w + 1 < b <= |t| && SpacesIn(t, a, w) && IsUpper(t[w]) && LowersIn(t, w + 1, b)
  }

  /** `(?:\s+[A-Z][a-z]+)*` can match exactly `t[a..q]`. */
  ghost predicate CapWords(t: string, a: nat, q: nat)
    decreases if a <= q then q - a else 0
  {
    a == q || exists w: nat, b: nat :: a < w < b <= q && CapWord(t, a, w, b) && CapWords(t, b, q)
  }

  /** `[「《]([^」》]+)[」》]\s*（([^）]+)）` matches from `p`: the term
      `t[p + 1..b]` closed at `b`, then a gloss closed at `f`. */
  ghost predicate QuotedShape(t: string, p: nat, b: nat, d: nat, f: nat) {
    p + 1 < b < |t| && IsOpenQuote(t[p]) && IsCloseQuote(t[b]) &&
    (forall i :: p < i < b ==> !IsCloseQuote(t[i])) && GlossShape(t, b + 1, d, f)
  }

  /** `([A-Z][a-z]+(?:\s+[A-Z][a-z]+)*)\s*（([^）]+)）` matches from `p`:
      the term `t[p..q]`, then a gloss closed at `f`. */
  ghost predicate CapitalizedShape(t: string, p: nat, q: nat, d: nat, f: nat) {
    p < |t| && IsUpper(t[p]) && GlossShape(t, q, d, f) &&
    exists e: nat :: p + 1 < e <= q && LowersIn(t, p + 1, e) && CapWords(t, e, q)
  }

  /** `pattern` matches from `p`, capturing `m`; the match ends just before
      `e`, the index after the closing parenthesis at `f`. */
  ghost predicate MatchShape(pattern: TermPattern, t: string, p: nat, m: (string, string), e: nat) {
    match pattern
    case QuotedTerm =>
      exists b: nat, d: nat, f: nat :: QuotedShape(t, p, b, d, f) && e == f + 1 && m == (t[p + 1..b], t[d + 1..f])
    case CapitalizedTerm =>
      exists q: nat, d: nat, f: nat :: CapitalizedShape(t, p, q, d, f) && e == f + 1 && m == (t[p..q], t[d + 1..f])
  }

  // ---- The scanners ----

  /** `\s*（([^）]+)）` at `c`: the gloss and the index after the closing
      parenthesis. */
  function GlossAt(t: string, c: nat): (r: Option<(string, nat)>)
    requires c <= |t|
    ensures r.Some? ==> (c < r.value.1 <= |t| && r.value.0 != [] &&
      forall i :: 0 <= i < |r.value.0| ==> r.value.0[i] != '）')
  {
    var d := SkipWhile(t, c, IsSpace);
    if d < |t| && t[d] == '（' then
      var f := SkipWhile(t, d + 1, NotCloseParen);
      if d + 1 < f < |t| then
        var gloss := t[d + 1..f];
        assert forall i :: 0 <= i < |gloss| ==> gloss[i] == t[d + 1 + i];
        Some((gloss, f + 1))
      else None
    else None
  }

  /** No shorter whitespace run or gloss could let the rest match, so the
      greedy reading is the only one: a gloss is returned exactly when the
      text has the gloss shape at `c`, and it is that shape's gloss. */
  lemma GlossAtSpec(t: string, c: nat)
    requires c <= |t|
    ensures GlossAt(t, c).Some? ==> exists a: nat, b: nat :: GlossShape(t, c, a, b) && GlossAt(t, c) == Some((t[a + 1..b], b + 1))
    ensures forall a: nat, b: nat :: GlossShape(t, c, a, b) ==> GlossAt(t, c) == Some((t[a + 1..b], b + 1))
  {
    GlossShapeUnique(t, c);
    if GlossAt(t, c).Some? {
      var d := SkipWhile(t, c, IsSpace);
      var f := SkipWhile(t, d + 1, NotCloseParen);
      assert GlossShape(t, c, d, f);
    }
  }

  /** Where a gloss shape starts and ends is fixed by `c`. */
  lemma GlossShapeUnique(t: string, c: nat)
    requires c <= |t|
    ensures forall d: nat, f: nat :: GlossShape(t, c, d, f) ==>
      d == SkipWhile(t, c, IsSpace) && f == SkipWhile(t, d + 1, NotCloseParen)
  {
    forall d: nat, f: nat | GlossShape(t, c, d, f)
      ensures d == SkipWhile(t, c, IsSpace) && f == SkipWhile(t, d + 1, NotCloseParen)
    {
      SkipWhileAt(t, c, d, IsSpace);
      SkipWhileAt(t, d + 1, f, NotCloseParen);
    }
  }

  /** The positions of the gloss the scan finds. */
  lemma GlossAtShape(t: string, c: nat) returns (d: nat, f: nat)
    requires c <= |t| && GlossAt(t, c).Some?
    ensures GlossShape(t, c, d, f) && GlossAt(t, c) == Some((t[d + 1..f], f + 1))
  {
    GlossAtSpec(t, c);
    d, f :| GlossShape(t, c, d, f) && GlossAt(t, c) == Some((t[d + 1..f], f + 1));
  }

  /** `(?:\s+[A-Z][a-z]+)*` from `q`: the end of the longest run of further
      capitalised words. */
  function CapitalizedRunEnd(t: string, q: nat): (e: nat)
    requires q <= |t|
    ensures q <= e <= |t| && (e == q || IsLower(t[e - 1]))
    decreases |t| - q
  {
    var w := SkipWhile(t, q, IsSpace);
    if q < w < |t| && IsUpper(t[w]) then
      var e := SkipWhile(t, w + 1, IsLower);
      if e > w + 1 then CapitalizedRunEnd(t, e) else q
    else q
  }

  /** The run stops only where no further word starts, and it does not move
      when none starts at `q`. */
  lemma {:induction false} CapitalizedRunMaximal(t: string, q: nat)
    requires q <= |t|
    ensures !StartsCapWord(t, CapitalizedRunEnd(t, q))
    ensures !StartsCapWord(t, q) ==> CapitalizedRunEnd(t, q) == q
    decreases |t| - q
  {
    var w := SkipWhile(t, q, IsSpace);
    if q < w < |t| && IsUpper(t[w]) && SkipWhile(t, w + 1, IsLower) > w + 1 {
      var e := SkipWhile(t, w + 1, IsLower);
      CapitalizedRunUnfold(t, q, w, e);
      CapitalizedRunMaximal(t, e);
      CapWordFound(t, q);
    } else {
      CapitalizedRunStays(t, q);
      NoCapWordAt(t, q);
    }
  }

  /** When the scan finds a capitalised word after the whitespace at `q`,
      one starts there. */
  lemma CapWordFound(t: string, q: nat)
    requires q <= |t|
    requires var w := SkipWhile(t, q, IsSpace);
      q < w < |t| && IsUpper(t[w]) && SkipWhile(t, w + 1, IsLower) > w + 1
    ensures StartsCapWord(t, q)
  {
    var w := SkipWhile(t, q, IsSpace);
    assert SpacesIn(t, q, w) && IsLower(t[w + 1]);
  }

  /** Where the scan finds no capitalised word, the run is empty. */
  lemma CapitalizedRunStays(t: string, q: nat)
    requires q <= |t|
    requires var w := SkipWhile(t, q, IsSpace);
      !(q < w < |t| && IsUpper(t[w]) && SkipWhile(t, w + 1, IsLower) > w + 1)
    ensures CapitalizedRunEnd(t, q) == q
  {
  }

  /** When the scan finds no capitalised word after the whitespace at `q`,
      none starts there. */
  lemma NoCapWordAt(t: string, q: nat)
    requires q <= |t|
    requires var w := SkipWhile(t, q, IsSpace);
      !(q < w < |t| && IsUpper(t[w]) && SkipWhile(t, w + 1, IsLower) > w + 1)
    ensures !StartsCapWord(t, q)
  {
    forall w: nat | q < w && w + 1 < |t| && SpacesIn(t, q, w) && IsUpper(t[w])
      ensures !IsLower(t[w + 1])
    {
      SkipWhileAt(t, q, w, IsSpace);
    }
  }

  /** One more word: a run that starts with the word `t[q..b]` ends where
      the run from `b` ends. */
  lemma CapitalizedRunStep(t: string, q: nat, w: nat, b: nat)
    requires CapWord(t, q, w, b) && (b == |t| || !IsLower(t[b]))
    ensures CapitalizedRunEnd(t, q) == CapitalizedRunEnd(t, b)
  {
    CapWordScan(t, q, w, b);
    CapitalizedRunUnfold(t, q, w, b);
  }

  /** The scan reads the word `t[q..b]` as its whitespace up to `w` and its
      lower-case letters up to `b`. */
  lemma CapWordScan(t: string, q: nat, w: nat, b: nat)
    requires CapWord(t, q, w, b) && (b == |t| || !IsLower(t[b]))
    ensures SkipWhile(t, q, IsSpace) == w && SkipWhile(t, w + 1, IsLower) == b
  {
    SkipWhileAt(t, q, w, IsSpace);
    SkipWhileAt(t, w + 1, b, IsLower);
  }

  /** One step of the run, with the two scans already known. */
  lemma CapitalizedRunUnfold(t: string, q: nat, w: nat, b: nat)
    requires q < w < |t| && w + 1 < b <= |t| && IsUpper(t[w])
    requires SkipWhile(t, q, IsSpace) == w && SkipWhile(t, w + 1, IsLower) == b
    ensures CapitalizedRunEnd(t, q) == CapitalizedRunEnd(t, b)
  {
  }

  /** The scanned run is a run of capitalised words. */
  lemma {:induction false} CapitalizedRunWords(t: string, q: nat)
    requires q <= |t|
    ensures CapWords(t, q, CapitalizedRunEnd(t, q))
    decreases |t| - q
  {
    var w := SkipWhile(t, q, IsSpace);
    if q < w < |t| && IsUpper(t[w]) {
      var e := SkipWhile(t, w + 1, IsLower);
      if e > w + 1 {
        CapitalizedRunWords(t, e);
        assert CapWord(t, q, w, e);
      }
    }
  }

  /** Where a run of words is followed by a gloss, its start is not a
      lower-case letter. */
  lemma RunBeforeGloss(t: string, e: nat, q: nat, d: nat, f: nat)
    requires e <= q && CapWords(t, e, q) && GlossShape(t, q, d, f)
    ensures e < |t| && !IsLower(t[e])
  {
    if e < q {
      var w: nat, b: nat :| e < w < b <= q && CapWord(t, e, w, b) && CapWords(t, b, q);
      assert IsSpace(t[e]);
    } else if q < d {
      assert IsSpace(t[q]);
    }
  }

  /** A run of capitalised words followed by a gloss is exactly the run the
      scan takes: the greedy `*` cannot stop earlier and still match. */
  lemma {:induction false} CapWordsRunEnd(t: string, e: nat, q: nat, d: nat, f: nat)
    requires e <= q && CapWords(t, e, q) && GlossShape(t, q, d, f)
    ensures CapitalizedRunEnd(t, e) == q
    decreases q - e
  {
    if e == q {
      SkipWhileAt(t, q, d, IsSpace);
      NoCapWordAt(t, q);
    } else {
      var w: nat, b: nat :| e < w < b <= q && CapWord(t, e, w, b) && CapWords(t, b, q);
      RunBeforeGloss(t, b, q, d, f);
      CapitalizedRunStep(t, e, w, b);
      CapWordsRunEnd(t, b, q, d, f);
    }
  }

  /** A match of `pattern` starting at `p`: the captured term and gloss and
      the index where the match ends. */
  function MatchAt(pattern: TermPattern, t: string, p: nat): (r: Option<((string, string), nat)>)
    requires p < |t|
    ensures r.Some? ==> p < r.value.1 <= |t| && WellFormedGloss(pattern, r.value.0.0, r.value.0.1)
  {
    match pattern
    case QuotedTerm => QuotedAt(t, p)
    case CapitalizedTerm => CapitalizedAt(t, p)
  }

  /** A match is found at `p` exactly when the text has the pattern's shape
      there, and it is that shape's term, gloss and end. */
  lemma MatchAtSpec(pattern: TermPattern, t: string, p: nat)
    requires p < |t|
    ensures MatchAt(pattern, t, p).Some? ==> MatchShape(pattern, t, p, MatchAt(pattern, t, p).value.0, MatchAt(pattern, t, p).value.1)
    ensures forall m, e: nat :: MatchShape(pattern, t, p, m, e) ==> MatchAt(pattern, t, p) == Some((m, e))
  {
    match pattern
    case QuotedTerm => QuotedAtSpec(t, p);
    case CapitalizedTerm => CapitalizedAtSpec(t, p);
  }

  /** `[「《]([^」》]+)[」》]` followed by a gloss, at `p`. */
  function QuotedAt(t: string, p: nat): (r: Option<((string, string), nat)>)
    requires p < |t|
    ensures r.Some? ==> p < r.value.1 <= |t| && WellFormedGloss(QuotedTerm, r.value.0.0, r.value.0.1)
  {
    if !IsOpenQuote(t[p]) then None
    else
      var b := SkipWhile(t, p + 1, NotCloseQuote);
      if p + 1 < b < |t| then
        match GlossAt(t, b + 1)
        case Some((gloss, end)) => Some(((t[p + 1..b], gloss), end))
        case None => None
      else None
  }

  /** The quoted scan finds a match exactly when the text has the shape. */
  lemma QuotedAtSpec(t: string, p: nat)
    requires p < |t|
    ensures QuotedAt(t, p).Some? ==> MatchShape(QuotedTerm, t, p, QuotedAt(t, p).value.0, QuotedAt(t, p).value.1)
    ensures forall m, e: nat :: MatchShape(QuotedTerm, t, p, m, e) ==> QuotedAt(t, p) == Some((m, e))
  {
    if QuotedAt(t, p).Some? {
      QuotedAtSound(t, p);
    }
    forall m, e: nat | MatchShape(QuotedTerm, t, p, m, e) ensures QuotedAt(t, p) == Some((m, e)) {
      QuotedAtComplete(t, p, m, e);
    }
  }

  /** What the quoted scan returns, once the end of the term is known. */
  lemma QuotedAtUnfold(t: string, p: nat, b: nat)
    requires p + 1 < b < |t| && IsOpenQuote(t[p]) && b == SkipWhile(t, p + 1, NotCloseQuote)
    ensures QuotedAt(t, p) == if GlossAt(t, b + 1).Some? then Some(((t[p + 1..b], GlossAt(t, b + 1).value.0), GlossAt(t, b + 1).value.1)) else None
  {
  }

  lemma QuotedAtSound(t: string, p: nat)
    requires p < |t| && QuotedAt(t, p).Some?
    ensures MatchShape(QuotedTerm, t, p, QuotedAt(t, p).value.0, QuotedAt(t, p).value.1)
  {
    var b := SkipWhile(t, p + 1, NotCloseQuote);
    QuotedAtUnfold(t, p, b);
    var d, f := GlossAtShape(t, b + 1);
    assert QuotedShape(t, p, b, d, f);
  }

  lemma QuotedAtComplete(t: string, p: nat, m: (string, string), e: nat)
    requires p < |t| && MatchShape(QuotedTerm, t, p, m, e)
    ensures QuotedAt(t, p) == Some((m, e))
  {
    var b: nat, d: nat, f: nat :| QuotedShape(t, p, b, d, f) && e == f + 1 && m == (t[p + 1..b], t[d + 1..f]);
    QuotedAtShape(t, p, m, e, b, d, f);
  }

  /** On a quoted shape the scan returns the shape's term and gloss. */
  lemma QuotedAtShape(t: string, p: nat, m: (string, string), e: nat, b: nat, d: nat, f: nat)
    requires QuotedShape(t, p, b, d, f) && e == f + 1 && m == (t[p + 1..b], t[d + 1..f])
    ensures QuotedAt(t, p) == Some((m, e))
  {
    SkipWhileAt(t, p + 1, b, NotCloseQuote);
    GlossAtSpec(t, b + 1);
    assert GlossAt(t, b + 1) == Some((t[d + 1..f], f + 1));
    QuotedAtUnfold(t, p, b);
  }

  /** `([A-Z][a-z]+(?:\s+[A-Z][a-z]+)*)` followed by a gloss, at `p`. */
  function CapitalizedAt(t: string, p: nat): (r: Option<((string, string), nat)>)
    requires p < |t|
    ensures r.Some? ==> p < r.value.1 <= |t| && WellFormedGloss(CapitalizedTerm, r.value.0.0, r.value.0.1)
  {
    if !IsUpper(t[p]) then None
    else
      var e := SkipWhile(t, p + 1, IsLower);
      if e == p + 1 then None
      else
        var q := CapitalizedRunEnd(t, e);
        var g := GlossAt(t, q);
        if g.Some? then
          assert IsLower(t[e - 1]) && IsLower(t[q - 1]);
          CapitalizedTermShape(t, p, q);
          Some(((t[p..q], g.value.0), g.value.1))
        else None
  }

  /** The capitalised scan finds a match exactly when the text has the
      shape, however many words the term has. */
  lemma CapitalizedAtSpec(t: string, p: nat)
    requires p < |t|
    ensures CapitalizedAt(t, p).Some? ==>
      MatchShape(CapitalizedTerm, t, p, CapitalizedAt(t, p).value.0, CapitalizedAt(t, p).value.1)
    ensures forall m, e: nat :: MatchShape(CapitalizedTerm, t, p, m, e) ==> CapitalizedAt(t, p) == Some((m, e))
  {
    if CapitalizedAt(t, p).Some? {
      CapitalizedAtSound(t, p);
    }
    forall m, e: nat | MatchShape(CapitalizedTerm, t, p, m, e) ensures CapitalizedAt(t, p) == Some((m, e)) {
      CapitalizedAtComplete(t, p, m, e);
    }
  }

  /** What the capitalised scan returns, once the first word's end `e` and
      the run's end `q` are known. */
  lemma CapitalizedAtUnfold(t: string, p: nat, e: nat, q: nat)
    requires p < |t| && IsUpper(t[p]) && e == SkipWhile(t, p + 1, IsLower) && p + 1 < e && q == CapitalizedRunEnd(t, e)
    ensures CapitalizedAt(t, p) == if GlossAt(t, q).Some? then Some(((t[p..q], GlossAt(t, q).value.0), GlossAt(t, q).value.1)) else None
  {
  }

  lemma CapitalizedAtSound(t: string, p: nat)
    requires p < |t| && CapitalizedAt(t, p).Some?
    ensures MatchShape(CapitalizedTerm, t, p, CapitalizedAt(t, p).value.0, CapitalizedAt(t, p).value.1)
  {
    var e := SkipWhile(t, p + 1, IsLower);
    var q := CapitalizedRunEnd(t, e);
    CapitalizedAtUnfold(t, p, e, q);
    var d, f := GlossAtShape(t, q);
    CapitalizedRunWords(t, e);
    FirstWordLowers(t, p, e);
    CapitalizedMatch(t, p, e, q, d, f);
  }

  /** The letters the scan takes after the capital are lower-case. */
  lemma FirstWordLowers(t: string, p: nat, e: nat)
    requires p < |t| && e == SkipWhile(t, p + 1, IsLower)
    ensures LowersIn(t, p + 1, e)
  {
  }

  /** A first word `t[p..e]`, a run of further words up to `q` and a gloss
      make a match of the capitalised pattern. */
  lemma CapitalizedMatch(t: string, p: nat, e: nat, q: nat, d: nat, f: nat)
    requires p < |t| && IsUpper(t[p]) && p + 1 < e <= q && LowersIn(t, p + 1, e)
    requires CapWords(t, e, q) && GlossShape(t, q, d, f)
    ensures MatchShape(CapitalizedTerm, t, p, (t[p..q], t[d + 1..f]), f + 1)
  {
    assert CapitalizedShape(t, p, q, d, f);
  }

  lemma CapitalizedAtComplete(t: string, p: nat, m: (string, string), e: nat)
    requires p < |t| && MatchShape(CapitalizedTerm, t, p, m, e)
    ensures CapitalizedAt(t, p) == Some((m, e))
  {
    var q: nat, d: nat, f: nat :| CapitalizedShape(t, p, q, d, f) && e == f + 1 && m == (t[p..q], t[d + 1..f]);
    CapitalizedAtShape(t, p, m, e, q, d, f);
  }

  /** On a capitalised shape the scan returns the shape's term and gloss. */
  lemma CapitalizedAtShape(t: string, p: nat, m: (string, string), e: nat, q: nat, d: nat, f: nat)
    requires CapitalizedShape(t, p, q, d, f) && e == f + 1 && m == (t[p..q], t[d + 1..f])
    ensures CapitalizedAt(t, p) == Some((m, e))
  {
    var w := CapitalizedScan(t, p, q, d, f);
    GlossAtSpec(t, q);
    assert GlossAt(t, q) == Some((t[d + 1..f], f + 1));
    CapitalizedAtUnfold(t, p, w, q);
  }

  /** On a capitalised shape the scan takes the first word up to some `w`
      and the run of further words up to the shape's `q`. */
  lemma CapitalizedScan(t: string, p: nat, q: nat, d: nat, f: nat) returns (w: nat)
    requires CapitalizedShape(t, p, q, d, f)
    ensures p + 1 < w && w == SkipWhile(t, p + 1, IsLower) && q == CapitalizedRunEnd(t, w)
  {
    w :| p + 1 < w <= q && LowersIn(t, p + 1, w) && CapWords(t, w, q);
    RunBeforeGloss(t, w, q, d, f);
    SkipWhileAt(t, p + 1, w, IsLower);
    CapWordsRunEnd(t, w, q, d, f);
  }

  /** The captured words start with a capital and end with a lower-case letter. */
  lemma CapitalizedTermShape(t: string, p: nat, q: nat)
    requires p < q <= |t| && IsUpper(t[p]) && IsLower(t[q - 1])
    ensures WellFormedTerm(t[p..q])
  {
    var term := t[p..q];
    assert term[0] == t[p] && term[|term| - 1] == t[q - 1];
  }

  predicate WellFormedTerm(term: string) {
    term != [] && IsUpper(term[0]) && IsLower(term[|term| - 1])
  }

  /** `re.findall(pattern, t[from:])`: matches scanned left to right, each
      search resuming where the previous match ended. */
  function FindAll(pattern: TermPattern, t: string, from: nat): (r: seq<(string, string)>)
    requires from <= |t|
    ensures forall i :: 0 <= i < |r| ==> WellFormedGloss(pattern, r[i].0, r[i].1)
    decreases |t| - from
  {
    if from == |t| then []
    else
      match MatchAt(pattern, t, from)
      case Some((m, end)) => [m] + FindAll(pattern, t, end)
      case None => FindAll(pattern, t, from + 1)
  }

  /** `findall` skips the positions where nothing matches and takes the
      match at the first position where one does. */
  lemma {:induction false} FindAllFirst(pattern: TermPattern, t: string, from: nat, k: nat)
    requires from <= k < |t| && MatchAt(pattern, t, k).Some?
    requires forall j :: from <= j < k ==> MatchAt(pattern, t, j).None?
    ensures FindAll(pattern, t, from) ==
      [MatchAt(pattern, t, k).value.0] + FindAll(pattern, t, MatchAt(pattern, t, k).value.1)
    decreases k - from
  {
    if from < k {
      assert MatchAt(pattern, t, from).None?;
      FindAllSkip(pattern, t, from);
      FindAllFirst(pattern, t, from + 1, k);
    } else {
      FindAllStep(pattern, t, k);
    }
  }

  /** A position without a match is skipped. */
  lemma FindAllSkip(pattern: TermPattern, t: string, from: nat)
    requires from < |t| && MatchAt(pattern, t, from).None?
    ensures FindAll(pattern, t, from) == FindAll(pattern, t, from + 1)
  {
  }

  /** One step of `findall` at `from`. */
  lemma FindAllStep(pattern: TermPattern, t: string, from: nat)
    requires from < |t|
    ensures FindAll(pattern, t, from) ==
      if MatchAt(pattern, t, from).Some? then
        [MatchAt(pattern, t, from).value.0] + FindAll(pattern, t, MatchAt(pattern, t, from).value.1)
      else FindAll(pattern, t, from + 1)
  {
  }

  /** `findall` finds nothing exactly when the pattern matches at no
      position. */
  lemma {:induction false} FindAllEmpty(pattern: TermPattern, t: string, from: nat)
    requires from <= |t|
    ensures FindAll(pattern, t, from) == [] <==> forall j :: from <= j < |t| ==> MatchAt(pattern, t, j).None?
    decreases |t| - from
  {
    if from < |t| {
      if MatchAt(pattern, t, from).None? {
        FindAllSkip(pattern, t, from);
        FindAllEmpty(pattern, t, from + 1);
      } else {
        FindAllTake(pattern, t, from);
      }
    }
  }

  /** A position where the pattern matches contributes a pair. */
  lemma FindAllTake(pattern: TermPattern, t: string, from: nat)
    requires from < |t| && MatchAt(pattern, t, from).Some?
    ensures FindAll(pattern, t, from) != []
  {
  }

  /** The matches of each pattern in turn. */
  function GlossesFor(patterns: seq<TermPattern>, t: string): seq<(string, string)> {
    if patterns == [] then []
    else GlossesFor(patterns[..|patterns| - 1], t) + FindAll(patterns[|patterns| - 1], t, 0)
  }

  function Glosses(t: string): seq<(string, string)> {
    GlossesFor(TerminologyPatterns, t)
  }

  const AnimaExample := "Anima（阿尼玛）"

  /** A capitalised term glossed in parentheses is found. */
  lemma FindCapitalizedExample()
    ensures FindAll(CapitalizedTerm, AnimaExample, 0) == [("Anima", "阿尼玛")]
  {
    var t := AnimaExample;
    assert LowersIn(t, 1, 5) && CapWords(t, 5, 5) && GlossShape(t, 5, 5, 9);
    assert CapitalizedShape(t, 0, 5, 5, 9);
    assert t[0..5] == "Anima" && t[6..9] == "阿尼玛";
    CapitalizedAtShape(t, 0, ("Anima", "阿尼玛"), 10, 5, 5, 9);
    FindAllFirst(CapitalizedTerm, t, 0, 0);
  }

  const MundiExample := "Anima Mundi（世界灵魂）"

  /** The example's two words and gloss have the capitalised shape. */
  lemma MundiShape()
    ensures CapitalizedShape(MundiExample, 0, 11, 11, 16)
  {
    var t := MundiExample;
    assert CapWord(t, 5, 6, 11) && CapWords(t, 11, 11);
    assert CapWords(t, 5, 11);
    assert LowersIn(t, 1, 5) && GlossShape(t, 11, 11, 16);
  }

  /** A term of several capitalised words is found whole. */
  lemma FindTwoWordExample()
    ensures FindAll(CapitalizedTerm, MundiExample, 0) == [("Anima Mundi", "世界灵魂")]
  {
    var t := MundiExample;
    MundiShape();
    assert t[0..11] == "Anima Mundi" && t[12..16] == "世界灵魂";
    CapitalizedAtShape(t, 0, ("Anima Mundi", "世界灵魂"), 17, 11, 11, 16);
    FindAllFirst(CapitalizedTerm, t, 0, 0);
  }

  const QuotedExample := "《阿尼玛》 （Anima）"

  /** The term and the gloss of `QuotedExample`. */
  lemma QuotedExampleParts()
    ensures QuotedExample[1..4] == "阿尼玛" && QuotedExample[7..12] == "Anima"
  {
    var t := QuotedExample;
    assert t[1..4] == [t[1], t[2], t[3]];
    assert t[7..12] == [t[7], t[8], t[9], t[10], t[11]];
  }

  /** A quoted term is found, with whitespace before its gloss. */
  lemma FindQuotedExample()
    ensures FindAll(QuotedTerm, QuotedExample, 0) == [("阿尼玛", "Anima")]
  {
    var t := QuotedExample;
    QuotedExampleParts();
    assert SpacesIn(t, 5, 6) && GlossShape(t, 5, 6, 12);
    assert QuotedShape(t, 0, 4, 6, 12);
    QuotedAtShape(t, 0, ("阿尼玛", "Anima"), 13, 4, 6, 12);
    FindAllFirst(QuotedTerm, t, 0, 0);
  }

  /** Record each term not yet known with its gloss; a known term keeps the
      gloss it already has. */
  function InsertNew(d: map<string, string>, pairs: seq<(string, string)>): map<string, string> {
    if pairs == [] then d
    else AddNew(InsertNew(d, pairs[..|pairs| - 1]), pairs[|pairs| - 1])
  }

  /** `if term not in d: d[term] = gloss` */
  function AddNew(d: map<string, string>, pair: (string, string)): map<string, string> {
    if pair.0 in d then d else d[pair.0 := pair.1]
  }

  /** One more match inserted after the ones before it. */
  lemma InsertNewStep(d: map<string, string>, done: seq<(string, string)>, ms: seq<(string, string)>, j: nat)
    requires j < |ms|
    ensures InsertNew(d, done + ms[..j + 1]) == AddNew(InsertNew(d, done + ms[..j]), ms[j])
  {
    assert (done + ms[..j + 1])[..|done| + j] == done + ms[..j];
  }

  /** The matches of one more pattern come after those of the ones before. */
  lemma GlossesForStep(patterns: seq<TermPattern>, t: string, k: nat)
    requires k < |patterns|
    ensures GlossesFor(patterns[..k + 1], t) == GlossesFor(patterns[..k], t) + FindAll(patterns[k], t, 0)
  {
    assert patterns[..k + 1][..k] == patterns[..k];
  }

  function Terms(pairs: seq<(string, string)>): set<string> {
    set i | 0 <= i < |pairs| :: pairs[i].0
  }

  /** The glossary only grows: no known gloss changes, the terms afterwards are
      the old ones and the new ones, and a new term takes the gloss of its
      first occurrence. */
  lemma InsertNewSpec(d: map<string, string>, pairs: seq<(string, string)>)
    ensures KeepsKnown(d, InsertNew(d, pairs))
    ensures InsertNew(d, pairs).Keys == d.Keys + Terms(pairs)
    ensures FirstGlossTaken(d, pairs, InsertNew(d, pairs))
  {
    InsertNewKeeps(d, pairs);
    InsertNewKeys(d, pairs);
    InsertNewFirstGloss(d, pairs);
  }

  ghost predicate KeepsKnown(d: map<string, string>, r: map<string, string>) {
    forall k :: k in d ==> k in r && r[k] == d[k]
  }

  /** No earlier pair has the term of pair `j`. */
  predicate FirstOccurrence(pairs: seq<(string, string)>, j: nat)
    requires j < |pairs|
  {
    forall i :: 0 <= i < j ==> pairs[i].0 != pairs[j].0
  }

  /** Each term new to `d` has in `r` the gloss of its first occurrence. */
  ghost predicate FirstGlossTaken(d: map<string, string>, pairs: seq<(string, string)>, r: map<string, string>) {
    forall j :: 0 <= j < |pairs| && pairs[j].0 !in d && FirstOccurrence(pairs, j) ==>
      pairs[j].0 in r && r[pairs[j].0] == pairs[j].1
  }

  lemma InsertNewSnoc(d: map<string, string>, pairs: seq<(string, string)>)
    requires pairs != []
    ensures InsertNew(d, pairs) == AddNew(InsertNew(d, pairs[..|pairs| - 1]), pairs[|pairs| - 1])
  {
  }

  /** `AddNew` keeps every known gloss and knows the pair's term afterwards. */
  lemma AddNewSpec(m: map<string, string>, pair: (string, string))
    ensures KeepsKnown(m, AddNew(m, pair)) && pair.0 in AddNew(m, pair)
    ensures pair.0 !in m ==> AddNew(m, pair)[pair.0] == pair.1
  {
  }

  /** A first occurrence before the last pair is one in the shorter list. */
  lemma FirstOccurrencePrefix(pairs: seq<(string, string)>, j: nat)
    requires j < |pairs| - 1 && FirstOccurrence(pairs, j)
    ensures pairs[..|pairs| - 1][j] == pairs[j] && FirstOccurrence(pairs[..|pairs| - 1], j)
  {
    var init := pairs[..|pairs| - 1];
    assert forall i :: 0 <= i < j ==> init[i] == pairs[i];
  }

  lemma {:induction false} InsertNewKeeps(d: map<string, string>, pairs: seq<(string, string)>)
    ensures KeepsKnown(d, InsertNew(d, pairs))
  {
    if pairs != [] {
      InsertNewKeeps(d, pairs[..|pairs| - 1]);
    }
  }

  lemma TermsSnoc(pairs: seq<(string, string)>)
    requires pairs != []
    ensures Terms(pairs) == Terms(pairs[..|pairs| - 1]) + {pairs[|pairs| - 1].0}
  {
    var init := pairs[..|pairs| - 1];
    forall x | x in Terms(pairs) ensures x in Terms(init) + {pairs[|pairs| - 1].0} {
      var i :| 0 <= i < |pairs| && pairs[i].0 == x;
      if i < |init| { assert init[i] == pairs[i]; }
    }
    forall x | x in Terms(init) ensures x in Terms(pairs) {
      var i :| 0 <= i < |init| && init[i].0 == x;
      assert pairs[i] == init[i];
    }
  }

  lemma {:induction false} InsertNewKeys(d: map<string, string>, pairs: seq<(string, string)>)
    ensures InsertNew(d, pairs).Keys == d.Keys + Terms(pairs)
  {
    if pairs != [] {
      InsertNewKeys(d, pairs[..|pairs| - 1]);
      TermsSnoc(pairs);
    } else {
      assert Terms(pairs) == {};
    }
  }

  lemma {:induction false} InsertNewFirstGloss(d: map<string, string>, pairs: seq<(string, string)>)
    ensures FirstGlossTaken(d, pairs, InsertNew(d, pairs))
  {
    if pairs != [] {
      var init := pairs[..|pairs| - 1];
      var last := pairs[|pairs| - 1];
      InsertNewFirstGloss(d, init);
      InsertNewKeys(d, init);
      var m := InsertNew(d, init);
      var r := InsertNew(d, pairs);
      InsertNewSnoc(d, pairs);
      AddNewSpec(m, last);
      forall j | 0 <= j < |pairs| && pairs[j].0 !in d && FirstOccurrence(pairs, j)
        ensures pairs[j].0 in r && r[pairs[j].0] == pairs[j].1
      {
        if j < |init| {
          FirstOccurrencePrefix(pairs, j);
        } else {
          assert last.0 !in Terms(init);
        }
      }
    }
  }

  lemma {:induction false} InsertNewAppend(d: map<string, string>, a: seq<(string, string)>, b: seq<(string, string)>)
    ensures InsertNew(InsertNew(d, a), b) == InsertNew(d, a + b)
  {
    if b == [] {
      assert a + b == a;
    } else {
      var init := b[..|b| - 1];
      InsertNewAppend(d, a, init);
      assert (a + b)[..|a + b| - 1] == a + init;
      assert (a + b)[|a + b| - 1] == b[|b| - 1];
    }
  }

  // ---------------------------------------------------------------------
  // The translator

  /** What the service did with one request: the reply text, or the reason
      the call raised. */
  datatype Outcome = Ok(text: string) | Err(reason: string)

  /** One record of `translation_log`; the wall-clock timestamp is not
      modelled. */
  datatype LogEntry = LogEntry(chunkIndex: nat, originalLength: nat, translationLength: nat)

  /** `[翻译错误: {reason}]`, the text kept for a chunk whose request failed. */
  function ErrorMarker(reason: string): string {
    "[翻译错误: " + reason + "]"
  }

  function TranslationOf(reply: Outcome): string {
    match reply
    case Ok(t) => t
    case Err(e) => ErrorMarker(e)
  }

  /** The seconds slept after chunk `index`: 10 after a failure, 5 after every
      tenth chunk, 1 otherwise. */
  function Pause(index: nat, reply: Outcome): nat {
    if reply.Err? then 10 else if (index + 1) % 10 == 0 then 5 else 1
  }

  function UserTurn(chunks: seq<string>, title: string, i: nat): Message
    requires i < |chunks|
  {
    Message(User, BuildTranslationPrompt(chunks[i], i, |chunks|, title))
  }

  /** The conversation carried into chunk `n`: the system turn alone at first;
      after a reply the window of the last rounds plus the reply, after a
      failure the system turn and the last two turns, the failed prompt
      among them. */
  function Conversation(systemPrompt: string, chunks: seq<string>, title: string, replies: seq<Outcome>, n: nat): (m: seq<Message>)
    requires n <= |chunks| && n <= |replies|
    ensures m != [] && m[0] == Message(System, systemPrompt) && |m| <= 2 * MaxHistory + 2
  {
    if n == 0 then [Message(System, systemPrompt)]
    else
      var sent := Conversation(systemPrompt, chunks, title, replies, n - 1) + [UserTurn(chunks, title, n - 1)];
      match replies[n - 1]
      case Ok(t) => WindowHistory(sent, t, MaxHistory)
      case Err(_) => RecoverFromError(sent)
  }

  /** The messages sent for chunk `i`. */
  function Request(systemPrompt: string, chunks: seq<string>, title: string, replies: seq<Outcome>, i: nat): seq<Message>
    requires i < |chunks| && i <= |replies|
  {
    Conversation(systemPrompt, chunks, title, replies, i) + [UserTurn(chunks, title, i)]
  }

  /** Every request starts with the system turn, ends with the chunk's prompt
      and holds at most the system turn, three rounds and the new prompt. */
  lemma RequestShape(systemPrompt: string, chunks: seq<string>, title: string, replies: seq<Outcome>, i: nat)
    requires i < |chunks| && i <= |replies|
    ensures var r := Request(systemPrompt, chunks, title, replies, i);
      2 <= |r| <= 2 * MaxHistory + 3 && r[0] == Message(System, systemPrompt) &&
      r[|r| - 1] == UserTurn(chunks, title, i)
  {
  }

  /** After a reply the conversation ends with the chunk's prompt and the
      reply; after a failure it ends with the failed prompt, so the next
      request repeats it. */
  lemma ReplyRecorded(systemPrompt: string, chunks: seq<string>, title: string, replies: seq<Outcome>, i: nat)
    requires i < |chunks| && i < |replies|
    ensures var m := Conversation(systemPrompt, chunks, title, replies, i + 1);
      match replies[i]
      case Ok(t) => |m| >= 3 && m[|m| - 1] == Message(Assistant, t) && m[|m| - 2] == UserTurn(chunks, title, i)
      case Err(_) => |m| >= 2 && m[|m| - 1] == UserTurn(chunks, title, i)
  {
    var sent := Conversation(systemPrompt, chunks, title, replies, i) + [UserTurn(chunks, title, i)];
    if replies[i].Ok? {
      var m := WindowHistory(sent, replies[i].text, MaxHistory);
      assert m[1..|m| - 1] == sent[1..][|sent| - 1 - (|m| - 2)..];
      assert m[|m| - 2] == m[1..|m| - 1][|m| - 3];
    }
  }

  function EntryFor(chunks: seq<string>, replies: seq<Outcome>, i: nat): LogEntry
    requires i < |chunks| && i < |replies| && replies[i].Ok?
  {
    LogEntry(i, |chunks[i]|, |replies[i].text|)
  }

  /** The log records of the first `n` chunks. */
  function LogOf(chunks: seq<string>, replies: seq<Outcome>, n: nat): seq<LogEntry>
    requires n <= |chunks| && n <= |replies|
  {
    if n == 0 then []
    else LogOf(chunks, replies, n - 1) + (if replies[n - 1].Ok? then [EntryFor(chunks, replies, n - 1)] else [])
  }

  /** The log has one record per translated chunk, in chunk order, and none
      for a failed chunk. */
  lemma LogSpec(chunks: seq<string>, replies: seq<Outcome>, n: nat)
    requires n <= |chunks| && n <= |replies|
    ensures LogRecordsOk(chunks, replies, n)
    ensures LogIncreasing(LogOf(chunks, replies, n))
    ensures LogComplete(chunks, replies, n)
  {
    LogRecords(chunks, replies, n);
    LogInOrder(chunks, replies, n);
    LogHasAll(chunks, replies, n);
  }

  /** Each record is the record of a successful chunk among the first `n`. */
  ghost predicate LogRecordsOk(chunks: seq<string>, replies: seq<Outcome>, n: nat)
    requires n <= |chunks| && n <= |replies|
  {
    var log := LogOf(chunks, replies, n);
    forall k :: 0 <= k < |log| ==>
      log[k].chunkIndex < n && replies[log[k].chunkIndex].Ok? &&
      log[k] == EntryFor(chunks, replies, log[k].chunkIndex)
  }

  ghost predicate LogIncreasing(log: seq<LogEntry>) {
    forall k, l :: 0 <= k < l < |log| ==> log[k].chunkIndex < log[l].chunkIndex
  }

  /** Every successful chunk among the first `n` has its record. */
  ghost predicate LogComplete(chunks: seq<string>, replies: seq<Outcome>, n: nat)
    requires n <= |chunks| && n <= |replies|
  {
    forall i :: 0 <= i < n && replies[i].Ok? ==> EntryFor(chunks, replies, i) in LogOf(chunks, replies, n)
  }

  lemma {:induction false} LogRecords(chunks: seq<string>, replies: seq<Outcome>, n: nat)
    requires n <= |chunks| && n <= |replies|
    ensures LogRecordsOk(chunks, replies, n)
  {
    if n > 0 {
      LogRecords(chunks, replies, n - 1);
      var prev := LogOf(chunks, replies, n - 1);
      var log := LogOf(chunks, replies, n);
      forall k | 0 <= k < |log|
        ensures log[k].chunkIndex < n && replies[log[k].chunkIndex].Ok? &&
          log[k] == EntryFor(chunks, replies, log[k].chunkIndex)
      {
        if k < |prev| {
          assert log[k] == prev[k];
        }
      }
    }
  }

  lemma {:induction false} LogInOrder(chunks: seq<string>, replies: seq<Outcome>, n: nat)
    requires n <= |chunks| && n <= |replies|
    ensures LogIncreasing(LogOf(chunks, replies, n))
  {
    if n > 0 {
      LogInOrder(chunks, replies, n - 1);
      LogRecords(chunks, replies, n - 1);
      var prev := LogOf(chunks, replies, n - 1);
      var log := LogOf(chunks, replies, n);
      forall k, l | 0 <= k < l < |log| ensures log[k].chunkIndex < log[l].chunkIndex {
        assert log[k] == prev[k];
        if l < |prev| {
          assert log[l] == prev[l];
        }
      }
    }
  }

  lemma {:induction false} LogHasAll(chunks: seq<string>, replies: seq<Outcome>, n: nat)
    requires n <= |chunks| && n <= |replies|
    ensures LogComplete(chunks, replies, n)
  {
    if n > 0 {
      LogHasAll(chunks, replies, n - 1);
      var prev := LogOf(chunks, replies, n - 1);
      var log := LogOf(chunks, replies, n);
      forall i | 0 <= i < n && replies[i].Ok? ensures EntryFor(chunks, replies, i) in log {
        if i < n - 1 {
          var k :| 0 <= k < |prev| && prev[k] == EntryFor(chunks, replies, i);
          assert log[k] == prev[k];
        } else {
          assert log[|log| - 1] == EntryFor(chunks, replies, i);
        }
      }
    }
  }

  /** The glosses found in the successful replies among the first `n`. */
  function GlossesOfReplies(replies: seq<Outcome>, n: nat): seq<(string, string)>
    requires n <= |replies|
  {
    if n == 0 then []
    else GlossesOfReplies(replies, n - 1) + (if replies[n - 1].Ok? then Glosses(replies[n - 1].text) else [])
  }

  /** The texts kept for the first `n` chunks. */
  function TranslationsUpTo(replies: seq<Outcome>, n: nat): (r: seq<string>)
    requires n <= |replies|
    ensures |r| == n && forall j :: 0 <= j < n ==> r[j] == TranslationOf(replies[j])
  {
    if n == 0 then [] else TranslationsUpTo(replies, n - 1) + [TranslationOf(replies[n - 1])]
  }

  /** The pauses after the first `n` chunks. */
  function PausesUpTo(replies: seq<Outcome>, n: nat): (r: seq<nat>)
    requires n <= |replies|
    ensures |r| == n && forall j :: 0 <= j < n ==> r[j] == Pause(j, replies[j])
  {
    if n == 0 then [] else PausesUpTo(replies, n - 1) + [Pause(n - 1, replies[n - 1])]
  }

  /** The requests for the first `n` chunks. */
  function RequestsUpTo(systemPrompt: string, chunks: seq<string>, title: string, replies: seq<Outcome>, n: nat): (r: seq<seq<Message>>)
    requires n <= |chunks| && n <= |replies|
    ensures |r| == n && forall j :: 0 <= j < n ==> r[j] == Request(systemPrompt, chunks, title, replies, j)
  {
    if n == 0 then []
    else
      var prev := RequestsUpTo(systemPrompt, chunks, title, replies, n - 1);
      var r := prev + [Request(systemPrompt, chunks, title, replies, n - 1)];
      assert forall j :: 0 <= j < n - 1 ==> r[j] == prev[j];
      r
  }

  /** `PDFTranslator`: the glossary and the log it accumulates across chunks. */
  class PDFTranslator {
    var terminologyDict: map<string, string>
    var translationLog: seq<LogEntry>

    constructor ()
      ensures terminologyDict == map[] && translationLog == []
    {
      terminologyDict := map[];
      translationLog := [];
    }

    /** `clean_and_chunk_text` */
    method CleanAndChunkText(text: string, chunkSize: nat) returns (chunks: seq<string>)
      ensures chunks == ChunkText(text, chunkSize)
      ensures NonWs(Concat(chunks)) == NonWs(text)
      ensures forall i :: 0 <= i < |chunks| ==> ChunkWithinBudget(chunks[i], Sentences(text), chunkSize)
    {
      var sentences := SplitSentences(CollapseWhitespace(text));
      chunks := PackChunks(sentences, chunkSize);
      ChunkTextLossless(text, chunkSize);
      ChunkTextWithinBudget(text, chunkSize);
    }

    /** `extract_terminology`: each pattern in turn, each match in order. */
    method ExtractTerminology(translation: string)
      modifies this`terminologyDict
      ensures terminologyDict == InsertNew(old(terminologyDict), Glosses(translation))
    {
      ghost var d0 := terminologyDict;
      for k := 0 to |TerminologyPatterns|
        invariant terminologyDict == InsertNew(d0, GlossesFor(TerminologyPatterns[..k], translation))
      {
        ghost var done := GlossesFor(TerminologyPatterns[..k], translation);
        var matches := FindAll(TerminologyPatterns[k], translation, 0);
        assert done + matches[..0] == done;
        for j := 0 to |matches|
          invariant terminologyDict == InsertNew(d0, done + matches[..j])
        {
          InsertNewStep(d0, done, matches, j);
          var (term, explanation) := matches[j];
          if term !in terminologyDict {
            terminologyDict := terminologyDict[term := explanation];
          }
        }
        GlossesForStep(TerminologyPatterns, translation, k);
        assert matches[..|matches|] == matches;
      }
      assert TerminologyPatterns[..|TerminologyPatterns|] == TerminologyPatterns;
    }

    /** The bookkeeping after a reply: log it and collect its terms. */
    method RecordTranslation(index: nat, chunk: string, translation: string)
      modifies this
      ensures translationLog == old(translationLog) + [LogEntry(index, |chunk|, |translation|)]
      ensures terminologyDict == InsertNew(old(terminologyDict), Glosses(translation))
    {
      translationLog := translationLog + [LogEntry(index, |chunk|, |translation|)];
      ExtractTerminology(translation);
    }

    /** `translate_text_chunks` against the service's outcomes, one per chunk:
        returns the texts kept, the messages sent for each chunk and the
        pauses taken after each. */
    method TranslateTextChunks(chunks: seq<string>, bookTitle: string, systemPrompt: string, replies: seq<Outcome>)
      returns (translations: seq<string>, requests: seq<seq<Message>>, pauses: seq<nat>)
      requires |replies| == |chunks|
      modifies this
      ensures |translations| == |chunks| && forall i :: 0 <= i < |chunks| ==> translations[i] == TranslationOf(replies[i])
      ensures |requests| == |chunks| &&
        forall i :: 0 <= i < |chunks| ==> requests[i] == Request(systemPrompt, chunks, bookTitle, replies, i)
      ensures |pauses| == |chunks| && forall i :: 0 <= i < |chunks| ==> pauses[i] == Pause(i, replies[i])
      ensures translationLog == old(translationLog) + LogOf(chunks, replies, |chunks|)
      ensures terminologyDict == InsertNew(old(terminologyDict), GlossesOfReplies(replies, |chunks|))
    {
      translations, requests, pauses := [], [], [];
      var messages := [Message(System, systemPrompt)];
      for i := 0 to |chunks|
        invariant translations == TranslationsUpTo(replies, i)
        invariant requests == RequestsUpTo(systemPrompt, chunks, bookTitle, replies, i)
        invariant pauses == PausesUpTo(replies, i)
        invariant messages == Conversation(systemPrompt, chunks, bookTitle, replies, i)
        invariant translationLog == old(translationLog) + LogOf(chunks, replies, i)
        invariant terminologyDict == InsertNew(old(terminologyDict), GlossesOfReplies(replies, i))
      {
        var userPrompt := BuildTranslationPrompt(chunks[i], i, |chunks|, bookTitle);
        messages := messages + [Message(User, userPrompt)];
        requests := requests + [messages];
        match replies[i] {
          case Ok(translation) =>
            assert LogOf(chunks, replies, i + 1) == LogOf(chunks, replies, i) + [EntryFor(chunks, replies, i)];
            ghost var found, newFound := GlossesOfReplies(replies, i), Glosses(translation);
            assert GlossesOfReplies(replies, i + 1) == found + newFound;
            InsertNewAppend(old(terminologyDict), found, newFound);
            translations := translations + [translation];
            ghost var known := terminologyDict;
            RecordTranslation(i, chunks[i], translation);
            assert terminologyDict == InsertNew(known, newFound);
            assert translationLog == old(translationLog) + LogOf(chunks, replies, i) + [EntryFor(chunks, replies, i)];
            ManageConversationHistoryIntended(messages, translation, MaxHistory);
            messages := ManageConversationHistory(messages, translation, MaxHistory);
            pauses := pauses + [if (i + 1) % 10 == 0 then 5 else 1];
            assert translationLog == old(translationLog) + LogOf(chunks, replies, i + 1);
            assert terminologyDict == InsertNew(old(terminologyDict), GlossesOfReplies(replies, i + 1));
          case Err(reason) =>
            assert terminologyDict == InsertNew(old(terminologyDict), GlossesOfReplies(replies, i));
            assert GlossesOfReplies(replies, i + 1) == GlossesOfReplies(replies, i);
            translations := translations + [ErrorMarker(reason)];
            messages := RecoverFromError(messages);
            pauses := pauses + [10];
            assert GlossesOfReplies(replies, i + 1) == GlossesOfReplies(replies, i) + [];
            assert LogOf(chunks, replies, i + 1) == LogOf(chunks, replies, i) + [];
            assert translationLog == old(translationLog) + LogOf(chunks, replies, i + 1);
            assert terminologyDict == InsertNew(old(terminologyDict), GlossesOfReplies(replies, i + 1));
        }
      }
    }
  }

  // ---------------------------------------------------------------------
  // The saved translation (save_translation)

  /** `《{title}》中文翻译`, a rule of 50 '=' and a blank line. */
  function TranslationHeader(title: string): string {
    BookName(title) + "中文翻译\n" + Repeat('=', 50) + "\n\n"
  }

  /** `【第{i + 1}部分】` on its own line, the translation, a blank line, a rule
      of 40 '-' and a blank line. */
  function SectionText(i: nat, translation: string): string {
    SectionHeading(i) + translation + SectionRule
  }

  function SectionHeading(i: nat): string {
    "【第" + NatToDecimal(i + 1) + "部分】\n"
  }

  const SectionRule := "\n\n" + Repeat('-', 40) + "\n\n"

  function Sections(translations: seq<string>): (r: seq<string>)
    ensures |r| == |translations| && forall i :: 0 <= i < |r| ==> r[i] == SectionText(i, translations[i])
  {
    if translations == [] then []
    else
      var init := translations[..|translations| - 1];
      var r := Sections(init) + [SectionText(|init|, translations[|init|])];
      assert forall i :: 0 <= i < |init| ==> init[i] == translations[i];
      r
  }

  /** The text written to the translation file. */
  function TranslationFileText(title: string, translations: seq<string>): string {
    TranslationHeader(title) + Concat(Sections(translations))
  }

  /** The file opens with the header and holds every section, numbered from 1. */
  lemma TranslationFileContents(title: string, translations: seq<string>)
    ensures var text := TranslationFileText(title, translations);
      IsPrefix(TranslationHeader(title), text) &&
      forall i :: 0 <= i < |translations| ==> IsInfix(SectionText(i, translations[i]), text)
  {
    var text := TranslationFileText(title, translations);
    var secs := Sections(translations);
    assert text[..|TranslationHeader(title)|] == TranslationHeader(title);
    forall i | 0 <= i < |translations| ensures IsInfix(SectionText(i, translations[i]), text) {
      InfixOfConcatParts(secs, i);
      var k :| 0 <= k <= |Concat(secs)| && IsPrefix(secs[i], Concat(secs)[k..]);
      var h := |TranslationHeader(title)|;
      assert text[h + k..] == Concat(secs)[k..];
    }
  }

  lemma {:induction false} InfixOfConcatParts(parts: seq<string>, i: nat)
    requires i < |parts|
    ensures IsInfix(parts[i], Concat(parts))
  {
    if i == 0 {
      InfixOfConcat("", parts[0], Concat(parts[1..]));
      assert "" + parts[0] + Concat(parts[1..]) == Concat(parts);
    } else {
      InfixOfConcatParts(parts[1..], i - 1);
      InfixOfConcat(parts[0], Concat(parts[1..]), "");
      assert parts[0] + Concat(parts[1..]) + "" == Concat(parts);
      InfixTransitive(parts[i], Concat(parts[1..]), Concat(parts));
    }
  }

  /** The file text as `save_translation` writes it, piece by piece. */
  method SaveTranslationText(title: string, translations: seq<string>) returns (text: string)
    ensures text == TranslationFileText(title, translations)
  {
    text := BookName(title) + "中文翻译\n";
    text := text + Repeat('=', 50) + "\n\n";
    for i := 0 to |translations|
      invariant text == TranslationHeader(title) + Concat(Sections(translations[..i]))
    {
      SectionStep(title, translations, i);
      text := text + SectionHeading(i) + translations[i] + SectionRule;
    }
    assert translations[..|translations|] == translations;
  }

  /** Writing section `i` extends the text of the first `i` sections to that of
      the first `i + 1`. */
  lemma SectionStep(title: string, translations: seq<string>, i: nat)
    requires i < |translations|
    ensures TranslationHeader(title) + Concat(Sections(translations[..i + 1])) ==
      TranslationHeader(title) + Concat(Sections(translations[..i])) + SectionHeading(i) + translations[i] + SectionRule
  {
    var before := Concat(Sections(translations[..i]));
    ConcatAppend(Sections(translations[..i]), SectionText(i, translations[i]));
    assert translations[..i + 1][..i] == translations[..i];
    assert Concat(Sections(translations[..i + 1])) == before + SectionText(i, translations[i]);
    AppendThree(TranslationHeader(title) + before, SectionHeading(i), translations[i], SectionRule);
  }

  lemma AppendThree(s: string, a: string, b: string, c: string)
    ensures s + a + b + c == s + (a + b + c)
  {
  }
}
