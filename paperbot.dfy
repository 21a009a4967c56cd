/** The file-name and text hygiene of the paper batch summariser: the
    file-name sanitiser, the first-author surname, the cleaner for text
    extracted from humanities and social-science papers, and the base name
    composed from a paper's metadata. */
module PaperBot {
  import opened Text

  // ---------------------------------------------------------------------
  // sanitize_filename
  // ---------------------------------------------------------------------

  /** The characters of the class `[<>:"/\\|?*]`. */
  predicate IsIllegal(c: char) {
    c == '<' || c == '>' || c == ':' || c == '"' || c == '/' || c == '\\' || c == '|' || c == '?' || c == '*'
  }

  predicate NoIllegal(s: string) {
    forall i :: 0 <= i < |s| ==> !IsIllegal(s[i])
  }

  /** `re.sub(r'[<>:"/\\|?*]', '_', s)`: a position-by-position replacement. */
  function ReplaceIllegal(s: string): (r: string)
    ensures |r| == |s| && NoIllegal(r)
    ensures forall i :: 0 <= i < |s| ==> r[i] == (if IsIllegal(s[i]) then '_' else s[i])
  {
    seq(|s|, i requires 0 <= i < |s| => if IsIllegal(s[i]) then '_' else s[i])
  }

  const MaxNameLength: nat := 250

  /** `s.rsplit(' ', 1)[0]`: everything before the last space, or all of `s`. */
  function BeforeLastSpace(s: string): (r: string)
    ensures IsPrefix(r, s)
    ensures |r| == |s| || (s[|r|] == ' ' && forall j :: |r| < j < |s| ==> s[j] != ' ')
    ensures |r| == |s| ==> forall j :: 0 <= j < |s| ==> s[j] != ' '
  {
    var k := RFind(s, ' ');
    if k < 0 then s else s[..k]
  }

  /** `sanitize_filename` */
  function SanitizeFilename(name: string): (r: string)
    ensures |r| <= MaxNameLength && NoIllegal(r) && IsStripped(r)
  {
    var replaced := ReplaceIllegal(name);
    var cut := if |replaced| > MaxNameLength then BeforeLastSpace(replaced[..MaxNameLength]) else replaced;
    assert cut == replaced[..|cut|];
    NoIllegalSlice(replaced, 0, |cut|);
    StripIsSlice(cut);
    NoIllegalSlice(cut, StripStart(cut), StripStart(cut) + |Strip(cut)|);
    Strip(cut)
  }

  lemma NoIllegalSlice(s: string, a: nat, b: nat)
    requires a <= b <= |s| && NoIllegal(s)
    ensures NoIllegal(s[a..b])
  {
    assert forall i :: 0 <= i < b - a ==> s[a..b][i] == s[a + i];
  }

  /** A name that is already clean, short and stripped is left alone. */
  lemma SanitizeFilenameClean(name: string)
    requires NoIllegal(name) && IsStripped(name) && |name| <= MaxNameLength
    ensures SanitizeFilename(name) == name
  {
    var replaced := ReplaceIllegal(name);
    assert replaced == name;
    assert SanitizeFilename(name) == Strip(replaced);
    StripStripped(name);
  }

  lemma SanitizeFilenameIdempotent(name: string)
    ensures SanitizeFilename(SanitizeFilename(name)) == SanitizeFilename(name)
  {
    SanitizeFilenameClean(SanitizeFilename(name));
  }

  /** `k` is where `s[:250].rsplit(' ', 1)[0]` ends: at the last space among
      the first 250 characters, or at 250 when there is none. */
  predicate CutAt(s: string, k: nat)
    requires MaxNameLength <= |s|
  {
    (k < MaxNameLength && s[k] == ' ' && forall j :: k < j < MaxNameLength ==> s[j] != ' ')
    || (k == MaxNameLength && forall j :: 0 <= j < MaxNameLength ==> s[j] != ' ')
  }

  /** What is kept: a short name loses only its surrounding whitespace; a
      long one is cut before the last space within its first 250
      characters, or at 250, and then stripped. */
  lemma SanitizeFilenameKeeps(name: string)
    ensures |ReplaceIllegal(name)| <= MaxNameLength ==> SanitizeFilename(name) == Strip(ReplaceIllegal(name))
    ensures |ReplaceIllegal(name)| > MaxNameLength ==>
      exists k: nat :: CutAt(ReplaceIllegal(name), k) && SanitizeFilename(name) == Strip(ReplaceIllegal(name)[..k])
  {
    var replaced := ReplaceIllegal(name);
    if |replaced| > MaxNameLength {
      var head := replaced[..MaxNameLength];
      var cut := BeforeLastSpace(head);
      var k := |cut|;
      assert cut == replaced[..k];
      assert SanitizeFilename(name) == Strip(replaced[..k]);
      assert CutAt(replaced, k) by {
        assert forall j :: 0 <= j < MaxNameLength ==> head[j] == replaced[j];
      }
    }
  }

  // ---------------------------------------------------------------------
  // get_author_lastname_for_filename
  // ---------------------------------------------------------------------

  /** `·` */
  const MiddleDot: char := '\U{B7}'

  const EtAl: string := " et al."

  /** The end of a match of the author separator `,\s*|\s+and\s+|·`
      (case-insensitive) that starts at `p`, if one does. Every alternative
      is greedy and never has to give characters back: `\s+` is followed by a
      letter and the final `\s*` or `\s+` by nothing. */
  function SeparatorAt(s: string, p: nat): (e: Option<nat>)
    requires p <= |s|
    ensures e.Some? ==> p < e.value <= |s|
  {
    if p == |s| then None
    else if s[p] == ',' then Some(SkipWhile(s, p + 1, IsSpace))
    else if s[p] == MiddleDot then Some(p + 1)
    else if IsSpace(s[p]) then
      var q := SkipWhile(s, p, IsSpace);
      if q + 3 < |s| && Lower(s[q..q + 3]) == "and" && IsSpace(s[q + 3]) then
        Some(SkipWhile(s, q + 3, IsSpace))
      else None
    else None
  }

  /** `s[i..j]` is what a greedy `\s*` takes from `i`: whitespace that
      cannot be extended. */
  predicate MaximalSpaces(s: string, i: nat, j: nat) {
    i <= j <= |s| && SpacesIn(s, i, j) && (j == |s| || !IsSpace(s[j]))
  }

  /** `,\s*|\s+and\s+|·` (case-insensitive) matches `s[p..e]`, each
      alternative taking its whitespace greedily. */
  ghost predicate SeparatorMatch(s: string, p: nat, e: nat) {
    p < |s| &&
    ((s[p] == ',' && MaximalSpaces(s, p + 1, e)) ||
     (s[p] == MiddleDot && e == p + 1) ||
     (exists q: nat :: p < q && q + 3 < e <= |s| && SpacesIn(s, p, q) && Lower(s[q..q + 3]) == "and" && MaximalSpaces(s, q + 3, e)))
  }

  /** A separator is found at `p` exactly when one matches there, and it
      ends where the match ends. */
  lemma SeparatorAtSpec(s: string, p: nat)
    requires p <= |s|
    ensures SeparatorAt(s, p).Some? ==> SeparatorMatch(s, p, SeparatorAt(s, p).value)
    ensures forall e: nat :: SeparatorMatch(s, p, e) ==> SeparatorAt(s, p) == Some(e)
  {
    if SeparatorAt(s, p).Some? {
      SeparatorAtSound(s, p);
    }
    forall e: nat | SeparatorMatch(s, p, e) ensures SeparatorAt(s, p) == Some(e) {
      SeparatorAtComplete(s, p, e);
    }
  }

  lemma SeparatorAtSound(s: string, p: nat)
    requires p <= |s| && SeparatorAt(s, p).Some?
    ensures SeparatorMatch(s, p, SeparatorAt(s, p).value)
  {
    if s[p] != ',' && s[p] != MiddleDot {
      var q := SkipWhile(s, p, IsSpace);
      assert SpacesIn(s, p, q) && MaximalSpaces(s, q + 3, SeparatorAt(s, p).value);
    }
  }

  lemma SeparatorAtComplete(s: string, p: nat, e: nat)
    requires SeparatorMatch(s, p, e)
    ensures SeparatorAt(s, p) == Some(e)
  {
    if s[p] == ',' {
      SkipWhileAt(s, p + 1, e, IsSpace);
    } else if s[p] != MiddleDot {
      var q: nat :| p < q && q + 3 < e <= |s| && SpacesIn(s, p, q) && Lower(s[q..q + 3]) == "and" && MaximalSpaces(s, q + 3, e);
      AndSeparatorAt(s, p, q, e);
    }
  }

  /** The `\s+and\s+` alternative: the scan's whitespace run stops at the
      `a` of `and`. */
  lemma AndSeparatorAt(s: string, p: nat, q: nat, e: nat)
    requires p < q && q + 3 < e <= |s| && SpacesIn(s, p, q) && Lower(s[q..q + 3]) == "and" && MaximalSpaces(s, q + 3, e)
    ensures SeparatorAt(s, p) == Some(e)
  {
    LowerIsA(s[q]);
    assert LowerChar(s[q]) == Lower(s[q..q + 3])[0];
    SkipWhileAt(s, p, q, IsSpace);
    SkipWhileAt(s, q + 3, e, IsSpace);
  }

  /** Only `a` and `A` lower-case to `a`. */
  lemma LowerIsA(c: char)
    ensures LowerChar(c) == 'a' ==> c == 'a' || c == 'A'
  {
  }

  /** The leftmost position at or after `p` where a separator starts. */
  function FirstSeparator(s: string, p: nat): (k: Option<nat>)
    requires p <= |s|
    ensures k.Some? ==> p <= k.value < |s| && SeparatorAt(s, k.value).Some?
    ensures forall j :: p <= j < (if k.Some? then k.value else |s|) ==> SeparatorAt(s, j).None?
    decreases |s| - p
  {
    if p == |s| then None
    else if SeparatorAt(s, p).Some? then Some(p)
    else FirstSeparator(s, p + 1)
  }

  /** `re.split` yields more than one piece exactly when a separator occurs. */
  predicate SeveralAuthors(s: string) {
    exists p :: 0 <= p < |s| && SeparatorAt(s, p).Some?
  }

  /** `authors[0]`: the text before the leftmost separator. */
  function FirstAuthor(s: string): (r: string)
    ensures IsPrefix(r, s)
    ensures forall j :: 0 <= j < |r| ==> SeparatorAt(s, j).None?
    ensures SeveralAuthors(s) <==> |r| < |s|
    ensures |r| < |s| ==> SeparatorAt(s, |r|).Some?
  {
    match FirstSeparator(s, 0)
    case None => s
    case Some(k) => s[..k]
  }

  const AndAuthors := "Jung AND Pauli"

  /** `and` separates authors in any letter case, with whitespace around it. */
  lemma FirstAuthorAndExample()
    ensures FirstAuthor(AndAuthors) == "Jung"
  {
    var s := AndAuthors;
    AndAuthorsSeparator();
    assert forall j :: 0 <= j < 4 ==> SeparatorAt(s, j).None?;
    assert FirstAuthor(s) == s[..4];
  }

  /** ` AND ` is the separator of the example, from index 4 to 9. */
  lemma AndAuthorsSeparator()
    ensures SeparatorAt(AndAuthors, 4) == Some(9)
  {
    var s := AndAuthors;
    assert Lower(s[5..8]) == "and" && MaximalSpaces(s, 8, 9);
    AndSeparatorAt(s, 4, 5, 9);
  }

  const CommaAuthors := "Jung,Pauli"

  /** A comma separates authors even with no whitespace after it. */
  lemma FirstAuthorCommaExample()
    ensures FirstAuthor(CommaAuthors) == "Jung"
  {
    var s := CommaAuthors;
    assert SeparatorAt(s, 4) == Some(5) by {
      assert MaximalSpaces(s, 5, 5) && SeparatorMatch(s, 4, 5);
      SeparatorAtComplete(s, 4, 5);
    }
    assert forall j :: 0 <= j < 4 ==> SeparatorAt(s, j).None?;
    assert FirstAuthor(s) == s[..4];
  }

  function LastOf(ws: seq<string>): string
    requires ws != []
  {
    ws[|ws| - 1]
  }

  /** `name_parts[-1] if name_parts else first_author`, with `name_parts`
      the words of the stripped first author `t`. */
  function Surname(t: string): string {
    var words := Words(t);
    if words != [] then LastOf(words) else t
  }

  /** The surname is the last whitespace-delimited token of `t`: the longest
      suffix of `t` without whitespace. */
  lemma SurnameSpec(t: string)
    requires IsStripped(t)
    ensures NoSpace(Surname(t)) && IsSuffix(Surname(t), t) && (t != [] ==> Surname(t) != [])
    ensures |Surname(t)| == |t| || IsSpace(t[|t| - |Surname(t)| - 1])
  {
    if Words(t) == [] {
      LastWordEnds(t, 0);
    } else {
      LastWordFrom(t, 0);
      SurnameIsLastWord(t, Words(t));
    }
  }

  lemma SurnameIsLastWord(t: string, ws: seq<string>)
    requires ws == Words(t) && ws != [] && EndsAfterSpace(t, 0, LastOf(ws))
    ensures NoSpace(Surname(t)) && IsSuffix(Surname(t), t) && Surname(t) != []
    ensures |Surname(t)| == |t| || IsSpace(t[|t| - |Surname(t)| - 1])
  {
    assert Surname(t) == ws[|ws| - 1];
  }


  /** `w` ends `s`, fits after `i`, and is preceded by whitespace unless it
      starts at `i`. */
  predicate EndsAfterSpace(s: string, i: nat, w: string) {
    IsSuffix(w, s) && |w| <= |s| - i && (|w| == |s| - i || IsSpace(s[|s| - |w| - 1]))
  }

  /** For `s` without trailing whitespace, the last word found from `i` ends
      `s` and is preceded by whitespace or by index `i`. */
  lemma {:induction false} LastWordFrom(s: string, i: nat)
    requires i <= |s| && (s == [] || !IsSpace(s[|s| - 1]))
    requires WordsFrom(s, i) != []
    ensures EndsAfterSpace(s, i, LastOf(WordsFrom(s, i)))
    decreases |s| - i
  {
    var a, b := LastWordStep(s, i);
    if WordsFrom(s, b) == [] {
      LastWordEnds(s, b);
      LastWordAlone(s, i, a, b);
    } else {
      LastWordFrom(s, b);
      LastWordLater(s, b, LastOf(WordsFrom(s, b)));
    }
  }

  /** The single word `s[a..]` follows whitespace from `i` to `a`. */
  lemma LastWordAlone(s: string, i: nat, a: nat, b: nat)
    requires i <= a <= b == |s|
    requires forall k :: i <= k < a ==> IsSpace(s[k])
    ensures EndsAfterSpace(s, i, s[a..b])
  {
    if a > i {
      assert |s| - |s[a..b]| - 1 == a - 1;
    }
  }

  /** A later word starts strictly after `b`, where whitespace sits. */
  lemma LastWordLater(s: string, b: nat, w: string)
    requires b < |s| && IsSpace(s[b])
    requires w != [] && NoSpace(w) && EndsAfterSpace(s, b, w)
    ensures forall i: nat :: i <= b ==> EndsAfterSpace(s, i, w)
  {
  }

  /** Nothing but whitespace after `b` means `b` is the end, since `s` does
      not end in whitespace. */
  lemma LastWordEnds(s: string, b: nat)
    requires b <= |s| && (s == [] || !IsSpace(s[|s| - 1]))
    requires WordsFrom(s, b) == []
    ensures b == |s|
  {
    assert SkipWhile(s, b, c => IsSpace(c)) == |s|;
  }

  /** One step of the word scan from `i`: whitespace up to `a`, a word up
      to `b`, and the last word is either that one or a later one. */
  lemma LastWordStep(s: string, i: nat) returns (a: nat, b: nat)
    requires i <= |s| && WordsFrom(s, i) != []
    ensures i <= a < b <= |s| && (forall k :: i <= k < a ==> IsSpace(s[k]))
    ensures b == |s| || IsSpace(s[b])
    ensures LastOf(WordsFrom(s, i)) == if WordsFrom(s, b) == [] then s[a..b] else LastOf(WordsFrom(s, b))
  {
    a := SkipWhile(s, i, c => IsSpace(c));
    b := SkipWhile(s, a, c => !IsSpace(c));
    LastOfCons(s[a..b], WordsFrom(s, b));
  }

  lemma LastOfCons(x: string, ws: seq<string>)
    ensures LastOf([x] + ws) == if ws == [] then x else LastOf(ws)
  {
  }

  /** `get_author_lastname_for_filename`; `None` stands for a missing value. */
  function AuthorLastname(author: Option<string>): (r: string)
    ensures author.None? || author.value == [] ==> r == "__"
  {
    if author.None? || author.value == [] then "__"
    else
      var s := author.value;
      var last := Surname(Strip(FirstAuthor(s)));
      if SeveralAuthors(s) then last + EtAl else last
  }

  /** A non-empty author string gives the surname of its first author, the
      text before the leftmost separator, followed by ` et al.` exactly when
      the string names several authors. */
  lemma AuthorLastnameSpec(s: string)
    requires s != []
    ensures AuthorLastname(Some(s)) == Surname(Strip(FirstAuthor(s))) + (if SeveralAuthors(s) then EtAl else "")
    ensures IsSuffix(EtAl, AuthorLastname(Some(s))) <==> SeveralAuthors(s)
  {
    var first := Strip(FirstAuthor(s));
    var w := Surname(first);
    var r := AuthorLastname(Some(s));
    assert r == w + (if SeveralAuthors(s) then EtAl else "");
    if SeveralAuthors(s) {
      assert r[|r| - |EtAl|..] == EtAl;
    } else {
      SurnameSpec(first);
      NoSpaceNotEtAl(w);
    }
  }

  lemma NoSpaceNotEtAl(w: string)
    requires NoSpace(w)
    ensures !IsSuffix(EtAl, w)
  {
    if |EtAl| <= |w| {
      assert w[|w| - |EtAl|] == w[|w| - |EtAl|..][0];
    }
  }

  // ---------------------------------------------------------------------
  // clean_hss_paper_text
  // ---------------------------------------------------------------------

  const FormFeed: char := '\U{0C}'

  /** `s.replace(c, '')` */
  function RemoveChar(s: string, c: char): (r: string)
    ensures c !in r && Subsequence(r, s)
    ensures |r| == |s| - multiset(s)[c]
  {
    if s == [] then []
    else
      assert s == [s[0]] + s[1..];
      var rest := RemoveChar(s[1..], c);
      if s[0] == c then
        SubsequenceDrop([s[0]], rest, s[1..]);
        rest
      else
        SubsequencePrefix([s[0]], rest, s[1..]);
        [s[0]] + rest
  }

  /** `-\s*\n\s*` matches at `i`: a hyphen whose following whitespace run
      holds a line break. The first `\s*` is greedy and backs up only to the
      run's last line break, and the second `\s*` takes the rest of the
      run, so a match always ends where the run does. */
  predicate HyphenBreakAt(s: string, i: nat)
    requires i < |s|
  {
    s[i] == '-' && '\n' in s[i + 1..LeftEnd(s, i + 1)]
  }

  /** `re.sub(r'-\s*\n\s*', '', s)`: each hyphen whose following whitespace
      run holds a line break is deleted together with that run. */
  function Dehyphenate(s: string): (r: string)
    ensures Subsequence(r, s)
    ensures '\n' !in s ==> r == s
    ensures '-' !in s ==> r == s
    decreases |s|
  {
    if s == [] then []
    else
      assert s == [s[0]] + s[1..];
      if HyphenBreakAt(s, 0) then
        var j := LeftEnd(s, 1);
        assert s == s[..j] + s[j..];
        assert '\n' in s && '-' in s;
        SubsequenceDrop(s[..j], Dehyphenate(s[j..]), s[j..]);
        Dehyphenate(s[j..])
      else
        SubsequencePrefix([s[0]], Dehyphenate(s[1..]), s[1..]);
        [s[0]] + Dehyphenate(s[1..])
  }

  /** The whitespace run at the start of a text is kept as it is. */
  lemma {:induction false} DehyphenateLeadingSpace(s: string)
    ensures var r := Dehyphenate(s);
      r[..LeftEnd(r, 0)] == s[..LeftEnd(s, 0)]
    decreases |s|
  {
    if s != [] {
      var r := Dehyphenate(s);
      assert s == [s[0]] + s[1..];
      LeadingSpaceCons(s[0], s[1..]);
      if HyphenBreakAt(s, 0) {
        var j := LeftEnd(s, 1);
        DehyphenateLeadingSpace(s[j..]);
        assert r == Dehyphenate(s[j..]);
        if j < |s| {
          assert s[j..] == [s[j]] + s[j + 1..];
          LeadingSpaceCons(s[j], s[j + 1..]);
        }
      } else {
        var t := Dehyphenate(s[1..]);
        DehyphenateLeadingSpace(s[1..]);
        assert r == [s[0]] + t;
        LeadingSpaceCons(s[0], t);
      }
    }
  }

  /** Behind a character `c`, the hyphen at `i` of `t` is the one at `i + 1`,
      with the same whitespace run after it. */
  lemma HyphenBreakCons(c: char, t: string, i: nat)
    requires i < |t|
    ensures HyphenBreakAt([c] + t, i + 1) <==> HyphenBreakAt(t, i)
  {
    LeftEndShift([c], t, i + 1);
    assert ([c] + t)[i + 2..1 + LeftEnd(t, i + 1)] == t[i + 1..LeftEnd(t, i + 1)];
  }

  /** `-\s*\n\s*` matches nowhere in `s`. */
  predicate NoHyphenBreak(s: string) {
    forall i :: 0 <= i < |s| ==> !HyphenBreakAt(s, i)
  }

  /** No match of the pattern is left: every hyphen still in the text is
      followed by a whitespace run without a line break. */
  lemma {:induction false} DehyphenateLeavesNoBreak(s: string)
    ensures NoHyphenBreak(Dehyphenate(s))
    decreases |s|
  {
    if s != [] {
      var r := Dehyphenate(s);
      if HyphenBreakAt(s, 0) {
        var j := LeftEnd(s, 1);
        DehyphenateLeavesNoBreak(s[j..]);
        assert r == Dehyphenate(s[j..]);
      } else {
        var t := Dehyphenate(s[1..]);
        DehyphenateLeavesNoBreak(s[1..]);
        assert r == [s[0]] + t;
        forall i | 0 <= i < |r|
          ensures !HyphenBreakAt(r, i)
        {
          if i > 0 {
            assert !HyphenBreakAt(t, i - 1);
            HyphenBreakCons(s[0], t, i - 1);
          } else {
            HyphenBreakFirst(s, t);
          }
        }
      }
    }
  }

  /** Where the pattern matches nowhere, nothing is deleted. */
  lemma {:induction false} DehyphenateNoBreak(s: string)
    requires NoHyphenBreak(s)
    ensures Dehyphenate(s) == s
    decreases |s|
  {
    if s != [] {
      assert s == [s[0]] + s[1..];
      forall i | 0 <= i < |s[1..]|
        ensures !HyphenBreakAt(s[1..], i)
      {
        HyphenBreakCons(s[0], s[1..], i);
      }
      DehyphenateNoBreak(s[1..]);
    }
  }

  /** Applying the substitution a second time changes nothing. */
  lemma DehyphenateIdempotent(s: string)
    ensures Dehyphenate(Dehyphenate(s)) == Dehyphenate(s)
  {
    DehyphenateLeavesNoBreak(s);
    DehyphenateNoBreak(Dehyphenate(s));
  }

  /** A hyphen kept at the start keeps the whitespace run after it. */
  lemma HyphenBreakFirst(s: string, t: string)
    requires s != [] && !HyphenBreakAt(s, 0) && t == Dehyphenate(s[1..])
    ensures !HyphenBreakAt([s[0]] + t, 0)
  {
    DehyphenateLeadingSpace(s[1..]);
    RunAfterFirst(s[0], t);
    assert s == [s[0]] + s[1..];
    RunAfterFirst(s[0], s[1..]);
  }

  /** The whitespace run after the first character of `[c] + t` is the one
      at the start of `t`. */
  lemma RunAfterFirst(c: char, t: string)
    ensures ([c] + t)[1..LeftEnd([c] + t, 1)] == t[..LeftEnd(t, 0)]
  {
    LeftEndShift([c], t, 0);
    assert ([c] + t)[1..1 + LeftEnd(t, 0)] == t[..LeftEnd(t, 0)];
  }

  /** The line break at `i` has no line break on either side. */
  predicate LoneNewline(s: string, i: nat)
    requires i < |s|
  {
    s[i] == '\n' && (i == 0 || s[i - 1] != '\n') && (i == |s| - 1 || s[i + 1] != '\n')
  }

  /** A neighbour of position `i` is a line break. */
  predicate NewlineBeside(s: string, i: nat)
    requires i < |s|
  {
    (0 < i && s[i - 1] == '\n') || (i < |s| - 1 && s[i + 1] == '\n')
  }

  /** `re.sub(r'(?<!\n)\n(?!\n)', ' ', s)`: single line breaks become spaces. */
  function UnwrapLines(s: string): (r: string)
    ensures |r| == |s|
    ensures forall i :: 0 <= i < |s| ==> (r[i] != s[i] <==> LoneNewline(s, i)) && (r[i] != s[i] ==> r[i] == ' ')
    ensures forall i :: 0 <= i < |r| && r[i] == '\n' ==>
      (0 < i && r[i - 1] == '\n') || (i < |r| - 1 && r[i + 1] == '\n')
  {
    seq(|s|, i requires 0 <= i < |s| => if LoneNewline(s, i) then ' ' else s[i])
  }

  /** `s.split(sep)` for a one-character separator. */
  function SplitOn(s: string, sep: char): (r: seq<string>)
    ensures |r| >= 1 && Join(r, [sep]) == s
    ensures forall i :: 0 <= i < |r| ==> sep !in r[i]
    decreases |s|
  {
    var k := SkipWhile(s, 0, c => c != sep);
    if k == |s| then
      [s]
    else
      var rest := SplitOn(s[k + 1..], sep);
      assert s == s[..k] + [sep] + s[k + 1..];
      assert ([s[..k]] + rest)[1..] == rest;
      [s[..k]] + rest
  }

  /** A character missing from `s` is missing from every piece of its split. */
  lemma {:induction false} SplitOnLacks(s: string, sep: char, c: char, i: nat)
    requires c !in s && i < |SplitOn(s, sep)|
    ensures c !in SplitOn(s, sep)[i]
    decreases |s|
  {
    var k := SkipWhile(s, 0, x => x != sep);
    if k < |s| {
      assert s == s[..k] + [sep] + s[k + 1..];
      if i == 0 {
        assert SplitOn(s, sep)[0] == s[..k];
      } else {
        assert SplitOn(s, sep)[i] == SplitOn(s[k + 1..], sep)[i - 1];
        SplitOnLacks(s[k + 1..], sep, c, i - 1);
      }
    }
  }

  /** A character missing from every part and from the separator is missing
      from the joined string. */
  lemma {:induction false} JoinLacks(parts: seq<string>, sep: string, c: char)
    requires forall i :: 0 <= i < |parts| ==> c !in parts[i]
    requires c !in sep
    ensures c !in Join(parts, sep)
  {
    if |parts| > 1 {
      JoinLacks(parts[1..], sep, c);
    }
  }

  /** `Page <digits> of <digit>` starts at `k`. */
  predicate PageCountAt(l: string, k: nat)
    requires k <= |l|
  {
    IsPrefix("Page ", l[k..]) &&
    var e := SkipWhile(l, k + 5, c => IsDigit(c));
    e > k + 5 && IsPrefix(" of ", l[e..]) && e + 4 < |l| && IsDigit(l[e + 4])
  }

  /** `^\s*© The Author\(s\)\s\d{4}` on a stripped line. */
  predicate CopyrightLine(l: string) {
    IsPrefix("\U{A9} The Author(s)", l) && |l| >= 20 && IsSpace(l[15]) && AllDigits(l[16..20])
  }

  /** `^\s*Vol\.:\(\d+\)\s*$` on a stripped line. */
  predicate VolumeLine(l: string) {
    IsPrefix("Vol.:(", l) && |l| >= 8 && l[|l| - 1] == ')' && AllDigits(l[6..|l| - 1])
  }

  /** `^\s*\* .*@.*\..*` on a line without line breaks: `* `, then an `@`,
      then a `.` somewhere after it. */
  predicate AddressLine(l: string) {
    IsPrefix("* ", l) && exists a, b :: 2 <= a < b < |l| && l[a] == '@' && l[b] == '.'
  }

  /** The line matches one of the eleven noise patterns. The line is
      stripped and has no line break, so a leading `\s*` matches nothing, a
      trailing `\s*$` only the end, and `.*` anything. Case-insensitive
      patterns compare after ASCII lower-casing. */
  predicate IsNoiseLine(l: string) {
    StartsWithIgnoreCase(l, "journal of ")
    || Lower(l) == "original paper"
    || (exists k :: 0 <= k <= |l| && PageCountAt(l, k))
    || IsPrefix("https://doi.org/", l)
    || StartsWithIgnoreCase(l, "accepted:")
    || StartsWithIgnoreCase(l, "published online:")
    || CopyrightLine(l)
    || VolumeLine(l)
    || AddressLine(l)
    || IsPrefix("Extended author information available", l)
    || IsPrefix("Publisher\U{2019}s Note Springer Nature remains neutral", l)
    || StartsWithIgnoreCase(l, "authors and affiliations")
  }

  /** The condition of the line filter, on the line as split (not stripped). */
  predicate KeepLine(line: string) {
    var t := Strip(line);
    |t| >= 3 && !AllDigits(t) && !IsNoiseLine(t)
  }

  /** The list comprehension of the line filter: exactly the lines that
      pass, in their original order. */
  function FilterLines(lines: seq<string>): (r: seq<string>)
    ensures forall i :: 0 <= i < |r| ==> KeepLine(r[i])
    ensures Subsequence(r, lines)
    ensures forall i :: 0 <= i < |lines| && KeepLine(lines[i]) ==> lines[i] in r
    ensures forall l :: multiset(r)[l] == if KeepLine(l) then multiset(lines)[l] else 0
  {
    FilterCounts(lines, line => KeepLine(line));
    Filter(lines, line => KeepLine(line))
  }

  /** The two prefix patterns removed at line starts: `^\s*\[\d+\]\s*` and
      `^\s*\d+\.\s+`. */
  datatype Marker = BracketRef | ListNumber

  /** The end of a match of `m` at the start of `t`, if there is one. Each
      `\s*`, `\s+` and `\d+` is greedy and is followed by a character outside
      its class, so no backtracking is needed. */
  function MarkerEnd(m: Marker, t: string): (e: Option<nat>)
    ensures e.Some? ==> 0 < e.value <= |t| && (e.value == |t| || !IsSpace(t[e.value]))
  {
    var q := SkipWhile(t, 0, IsSpace);
    match m
    case BracketRef =>
      if q < |t| && t[q] == '[' then
        var d := SkipWhile(t, q + 1, IsDigit);
        if d > q + 1 && d < |t| && t[d] == ']' then Some(SkipWhile(t, d + 1, IsSpace)) else None
      else None
    case ListNumber =>
      var d := SkipWhile(t, q, IsDigit);
      if d > q && d + 1 < |t| && t[d] == '.' && IsSpace(t[d + 1]) then
        Some(SkipWhile(t, d + 1, IsSpace))
      else None
  }

  /** Every character of `t[i..j]` is an ASCII digit. */
  predicate DigitsIn(t: string, i: nat, j: nat) {
    forall k :: i <= k < j && k < |t| ==> IsDigit(t[k])
  }

  /** `m` matches `t[..e]`: for `BracketRef`, whitespace up to `[` at `q`,
      digits up to `]` at `d`, then the whitespace after it; for
      `ListNumber`, whitespace up to the digits at `q`, `.` at `d`, then at
      least one whitespace character. */
  ghost predicate MarkerMatch(m: Marker, t: string, e: nat) {
    match m
    case BracketRef =>
      exists q: nat, d: nat :: q + 1 < d < |t| && SpacesIn(t, 0, q) && t[q] == '[' && DigitsIn(t, q + 1, d) &&
        t[d] == ']' && MaximalSpaces(t, d + 1, e)
    case ListNumber =>
      exists q: nat, d: nat :: q < d && d + 1 < e <= |t| && SpacesIn(t, 0, q) && DigitsIn(t, q, d) &&
        t[d] == '.' && MaximalSpaces(t, d + 1, e)
  }

  /** A marker is found at the start of `t` exactly when one matches there,
      and it ends where the match ends. */
  lemma MarkerEndSpec(m: Marker, t: string)
    ensures MarkerEnd(m, t).Some? ==> MarkerMatch(m, t, MarkerEnd(m, t).value)
    ensures forall e: nat :: MarkerMatch(m, t, e) ==> MarkerEnd(m, t) == Some(e)
  {
    if MarkerEnd(m, t).Some? {
      MarkerEndSound(m, t);
    }
    forall e: nat | MarkerMatch(m, t, e) ensures MarkerEnd(m, t) == Some(e) {
      MarkerEndComplete(m, t, e);
    }
  }

  lemma MarkerEndSound(m: Marker, t: string)
    requires MarkerEnd(m, t).Some?
    ensures MarkerMatch(m, t, MarkerEnd(m, t).value)
  {
    var q := SkipWhile(t, 0, IsSpace);
    var d := SkipWhile(t, if m == BracketRef then q + 1 else q, IsDigit);
    assert SpacesIn(t, 0, q) && DigitsIn(t, if m == BracketRef then q + 1 else q, d);
    assert MaximalSpaces(t, d + 1, MarkerEnd(m, t).value);
  }

  lemma MarkerEndComplete(m: Marker, t: string, e: nat)
    requires MarkerMatch(m, t, e)
    ensures MarkerEnd(m, t) == Some(e)
  {
    match m
    case BracketRef =>
      var q: nat, d: nat :| q + 1 < d < |t| && SpacesIn(t, 0, q) && t[q] == '[' && DigitsIn(t, q + 1, d) &&
        t[d] == ']' && MaximalSpaces(t, d + 1, e);
      BracketRefAt(t, q, d, e);
    case ListNumber =>
      var q: nat, d: nat :| q < d && d + 1 < e <= |t| && SpacesIn(t, 0, q) && DigitsIn(t, q, d) &&
        t[d] == '.' && MaximalSpaces(t, d + 1, e);
      ListNumberAt(t, q, d, e);
  }

  /** The scan reads `[` at `q` and `]` at `d`. */
  lemma BracketRefAt(t: string, q: nat, d: nat, e: nat)
    requires q + 1 < d < |t| && SpacesIn(t, 0, q) && t[q] == '[' && DigitsIn(t, q + 1, d) && t[d] == ']'
    requires MaximalSpaces(t, d + 1, e)
    ensures MarkerEnd(BracketRef, t) == Some(e)
  {
    SkipWhileAt(t, 0, q, IsSpace);
    SkipWhileAt(t, q + 1, d, IsDigit);
    SkipWhileAt(t, d + 1, e, IsSpace);
  }

  /** The scan reads the digits from `q` and `.` at `d`. */
  lemma ListNumberAt(t: string, q: nat, d: nat, e: nat)
    requires q < d && d + 1 < e <= |t| && SpacesIn(t, 0, q) && DigitsIn(t, q, d) && t[d] == '.'
    requires MaximalSpaces(t, d + 1, e)
    ensures MarkerEnd(ListNumber, t) == Some(e)
  {
    SkipWhileAt(t, 0, q, IsSpace);
    SkipWhileAt(t, q, d, IsDigit);
    SkipWhileAt(t, d + 1, e, IsSpace);
  }

  /** A bracketed reference number and the space after it are one match. */
  lemma BracketRefExample()
    ensures MarkerEnd(BracketRef, "[12] Smith") == Some(5)
  {
    var t := "[12] Smith";
    assert 0 + 1 < 3 < |t| && SpacesIn(t, 0, 0) && t[0] == '[' && DigitsIn(t, 1, 3) && t[3] == ']' && MaximalSpaces(t, 4, 5);
    assert MarkerMatch(BracketRef, t, 5);
    MarkerEndComplete(BracketRef, t, 5);
  }

  /** A list number needs whitespace after its full stop. */
  lemma ListNumberExample()
    ensures MarkerEnd(ListNumber, "3. Intro") == Some(3)
    ensures MarkerEnd(ListNumber, "3.5 cm") == None
  {
    var t := "3. Intro";
    assert SpacesIn(t, 0, 0) && DigitsIn(t, 0, 1) && MaximalSpaces(t, 2, 3);
    assert MarkerMatch(ListNumber, t, 3);
    MarkerEndComplete(ListNumber, t, 3);
    var u := "3.5 cm";
    assert SkipWhile(u, 0, IsSpace) == 0 && SkipWhile(u, 0, IsDigit) == 1;
  }

  /** `re.sub(m, '', t, flags=re.MULTILINE)`, where `lineStart` says whether
      `^` holds at the start of `t` (the start of the text, or just after a
      line break of the original text). */
  function StripMarkers(m: Marker, t: string, lineStart: bool): (r: string)
    ensures Subsequence(r, t)
    decreases |t|
  {
    if t == [] then []
    else
      var e := if lineStart then MarkerEnd(m, t) else None;
      if e.Some? then
        var rest := StripMarkers(m, t[e.value..], t[e.value - 1] == '\n');
        assert t == t[..e.value] + t[e.value..];
        SubsequenceDrop(t[..e.value], rest, t[e.value..]);
        rest
      else
        var rest := StripMarkers(m, t[1..], t[0] == '\n');
        assert t == [t[0]] + t[1..];
        SubsequencePrefix([t[0]], rest, t[1..]);
        [t[0]] + rest
  }

  /** `^` holds at `p` under `re.MULTILINE`: at the start of `t` when
      `lineStart`, and just after each line break of `t`. */
  predicate LineStartAt(t: string, p: nat, lineStart: bool)
    requires p <= |t|
  {
    if p == 0 then lineStart else t[p - 1] == '\n'
  }

  /** `m` matches nowhere in `t` where `^` holds. */
  predicate NoMarker(m: Marker, t: string, lineStart: bool) {
    forall p :: 0 <= p < |t| && LineStartAt(t, p, lineStart) ==> MarkerEnd(m, t[p..]).None?
  }

  /** Position `k` of `t` lies inside a match of `m` that begins at the line
      start `p`. */
  predicate InMatch(m: Marker, t: string, lineStart: bool, p: nat, k: nat)
    requires p <= k < |t|
  {
    LineStartAt(t, p, lineStart) && MarkerEnd(m, t[p..]).Some? && k < p + MarkerEnd(m, t[p..]).value
  }

  /** The characters of `t` whose flag in `keep` is set, in order. */
  function Select(t: string, keep: seq<bool>): (r: string)
    requires |keep| == |t|
    ensures Subsequence(r, t)
  {
    if t == [] then []
    else
      assert t == [t[0]] + t[1..];
      var rest := Select(t[1..], keep[1..]);
      if keep[0] then
        SubsequencePrefix([t[0]], rest, t[1..]);
        [t[0]] + rest
      else
        SubsequenceDrop([t[0]], rest, t[1..]);
        rest
  }

  lemma {:induction false} SelectAppend(x: string, y: string, kx: seq<bool>, ky: seq<bool>)
    requires |kx| == |x| && |ky| == |y|
    ensures Select(x + y, kx + ky) == Select(x, kx) + Select(y, ky)
    decreases |x|
  {
    if x != [] {
      assert (x + y)[1..] == x[1..] + y && (kx + ky)[1..] == kx[1..] + ky;
      SelectAppend(x[1..], y, kx[1..], ky);
    } else {
      assert x + y == y && kx + ky == ky;
    }
  }

  lemma {:induction false} SelectNone(x: string, kx: seq<bool>)
    requires |kx| == |x| && forall k :: 0 <= k < |kx| ==> !kx[k]
    ensures Select(x, kx) == []
    decreases |x|
  {
    if x != [] {
      SelectNone(x[1..], kx[1..]);
    }
  }

  /** Which characters `StripMarkers` keeps: the matches it deletes are
      cleared, everything else is set. */
  function KeepMask(m: Marker, t: string, lineStart: bool): (keep: seq<bool>)
    ensures |keep| == |t|
    decreases |t|
  {
    if t == [] then []
    else
      var e := if lineStart then MarkerEnd(m, t) else None;
      if e.Some? then
        seq(e.value, k => false) + KeepMask(m, t[e.value..], t[e.value - 1] == '\n')
      else
        [true] + KeepMask(m, t[1..], t[0] == '\n')
  }

  /** Each cleared position of `keep` lies inside a match of `m` that begins
      at a line start. */
  predicate InMatches(m: Marker, t: string, lineStart: bool, keep: seq<bool>)
    requires |keep| == |t|
  {
    forall k :: 0 <= k < |t| && !keep[k] ==> exists p :: 0 <= p <= k && InMatch(m, t, lineStart, p, k)
  }

  /** `StripMarkers` deletes only whole matches of `m` that begin where `^`
      holds: the result is `t` without the cleared positions of `KeepMask`,
      and each cleared position lies inside such a match. */
  lemma StripMarkersDeletesMatches(m: Marker, t: string, lineStart: bool)
    ensures StripMarkers(m, t, lineStart) == Select(t, KeepMask(m, t, lineStart))
    ensures InMatches(m, t, lineStart, KeepMask(m, t, lineStart))
  {
    StripMarkersSelect(m, t, lineStart);
    KeepMaskInMatches(m, t, lineStart);
  }

  lemma {:induction false} StripMarkersSelect(m: Marker, t: string, lineStart: bool)
    ensures StripMarkers(m, t, lineStart) == Select(t, KeepMask(m, t, lineStart))
    decreases |t|
  {
    if t != [] {
      if lineStart && MarkerEnd(m, t).Some? {
        var n := MarkerEnd(m, t).value;
        StripMarkersSelect(m, t[n..], t[n - 1] == '\n');
        SelectAtMatch(m, t, n);
      } else {
        StripMarkersSelect(m, t[1..], t[0] == '\n');
      }
    }
  }

  /** The step of `StripMarkersSelect` at a match ending at `n`. */
  lemma SelectAtMatch(m: Marker, t: string, n: nat)
    requires MarkerEnd(m, t) == Some(n)
    requires StripMarkers(m, t[n..], t[n - 1] == '\n') == Select(t[n..], KeepMask(m, t[n..], t[n - 1] == '\n'))
    ensures StripMarkers(m, t, true) == Select(t, KeepMask(m, t, true))
  {
    SelectDropped(t, n, KeepMask(m, t[n..], t[n - 1] == '\n'));
  }

  /** Clearing the first `n` flags drops the first `n` characters. */
  lemma SelectDropped(t: string, n: nat, rest: seq<bool>)
    requires n <= |t| && |rest| == |t| - n
    ensures Select(t, seq(n, k => false) + rest) == Select(t[n..], rest)
  {
    assert t == t[..n] + t[n..];
    SelectAppend(t[..n], t[n..], seq(n, k => false), rest);
    SelectNone(t[..n], seq(n, k => false));
  }

  lemma {:induction false} KeepMaskInMatches(m: Marker, t: string, lineStart: bool)
    ensures InMatches(m, t, lineStart, KeepMask(m, t, lineStart))
    decreases |t|
  {
    if t != [] {
      var e := if lineStart then MarkerEnd(m, t) else None;
      var n := if e.Some? then e.value else 1;
      KeepMaskInMatches(m, t[n..], t[n - 1] == '\n');
      var head := if e.Some? then seq(n, k => false) else [true];
      assert KeepMask(m, t, lineStart) == head + KeepMask(m, t[n..], t[n - 1] == '\n');
      forall k | 0 <= k < n && !head[k]
        ensures InMatch(m, t, lineStart, 0, k)
      {
        assert t[0..] == t;
      }
      InMatchesAppend(m, t, lineStart, n, head, KeepMask(m, t[n..], t[n - 1] == '\n'));
    }
  }

  /** Matches cover the cleared positions of `head` from the start of `t`
      and those of `rest` in `t[n..]`: together they cover `head + rest`. */
  lemma InMatchesAppend(m: Marker, t: string, lineStart: bool, n: nat, head: seq<bool>, rest: seq<bool>)
    requires 0 < n <= |t| && |head| == n && |rest| == |t| - n
    requires forall k :: 0 <= k < n && !head[k] ==> InMatch(m, t, lineStart, 0, k)
    requires InMatches(m, t[n..], t[n - 1] == '\n', rest)
    ensures InMatches(m, t, lineStart, head + rest)
  {
    var keep := head + rest;
    forall k | 0 <= k < |t| && !keep[k]
      ensures exists p :: 0 <= p <= k && InMatch(m, t, lineStart, p, k)
    {
      if k < n {
        assert keep[k] == head[k];
        assert InMatch(m, t, lineStart, 0, k);
      } else {
        assert keep[k] == rest[k - n];
        var p := InMatchLater(m, t, lineStart, n, rest, k - n);
        assert InMatch(m, t, lineStart, n + p, k);
      }
    }
  }

  /** A cleared position of `rest`, seen from `t`. */
  lemma InMatchLater(m: Marker, t: string, lineStart: bool, n: nat, rest: seq<bool>, k: nat) returns (p: nat)
    requires 0 < n <= |t| && |rest| == |t| - n && k < |rest| && !rest[k]
    requires InMatches(m, t[n..], t[n - 1] == '\n', rest)
    ensures p <= k && InMatch(m, t, lineStart, n + p, n + k)
  {
    p :| 0 <= p <= k && InMatch(m, t[n..], t[n - 1] == '\n', p, k);
    InMatchShift(m, t, lineStart, n, p, k);
  }

  /** A match in `t[n..]` is a match in `t`, `n` positions later. */
  lemma InMatchShift(m: Marker, t: string, lineStart: bool, n: nat, p: nat, k: nat)
    requires 0 < n <= |t| && p <= k < |t| - n
    requires InMatch(m, t[n..], t[n - 1] == '\n', p, k)
    ensures InMatch(m, t, lineStart, n + p, n + k)
  {
    assert t[n..][p..] == t[n + p..];
    if p > 0 {
      assert t[n..][p - 1] == t[n + p - 1];
    }
  }

  /** Where `m` matches at no line start, nothing is deleted. */
  lemma {:induction false} StripMarkersNoMarker(m: Marker, t: string, lineStart: bool)
    requires NoMarker(m, t, lineStart)
    ensures StripMarkers(m, t, lineStart) == t
    decreases |t|
  {
    if t != [] {
      assert LineStartAt(t, 0, lineStart) ==> MarkerEnd(m, t[0..]).None?;
      assert t[0..] == t;
      forall p | 0 <= p < |t[1..]| && LineStartAt(t[1..], p, t[0] == '\n')
        ensures MarkerEnd(m, t[1..][p..]).None?
      {
        assert t[1..][p..] == t[p + 1..];
        if p > 0 {
          assert t[1..][p - 1] == t[p];
        }
        assert LineStartAt(t, p + 1, lineStart);
      }
      StripMarkersNoMarker(m, t[1..], t[0] == '\n');
      assert t == [t[0]] + t[1..];
    }
  }

  /** Three line breaks in a row start at `i`. */
  predicate TripleAt(s: string, i: nat)
    requires i + 2 < |s|
  {
    s[i] == '\n' && s[i + 1] == '\n' && s[i + 2] == '\n'
  }

  predicate NoTripleNewline(s: string) {
    forall i: nat :: i + 2 < |s| ==> !TripleAt(s, i)
  }

  /** `re.sub(r'\n{3,}', '\n\n', s)` */
  function CollapseBlankLines(s: string): (r: string)
    ensures Subsequence(r, s) && NoTripleNewline(r)
    ensures r == [] <==> s == []
    ensures r != [] ==> r[0] == s[0]
    decreases |s|
  {
    if s == [] then []
    else if s[0] != '\n' then
      var rest := CollapseBlankLines(s[1..]);
      assert s == [s[0]] + s[1..];
      SubsequencePrefix([s[0]], rest, s[1..]);
      NoTripleJoin([s[0]], rest);
      [s[0]] + rest
    else
      var j := SkipWhile(s, 0, c => c == '\n');
      var rest := CollapseBlankLines(s[j..]);
      var run := if j >= 3 then "\n\n" else s[..j];
      assert s == s[..j] + s[j..];
      CollapseRunSubsequence(s[..j], run, rest, s[j..]);
      NoTripleJoin(run, rest);
      run + rest
  }

  /** Gluing a block of at most two characters, which is either one
      character other than a line break or line breaks only, onto a text
      that does not start with a line break after them. */
  lemma NoTripleJoin(run: string, rest: string)
    requires NoTripleNewline(rest)
    requires 0 < |run| <= 2
    requires (|run| == 1 && run[0] != '\n') || (forall i :: 0 <= i < |run| ==> run[i] == '\n')
    requires run[0] == '\n' ==> rest == [] || rest[0] != '\n'
    ensures NoTripleNewline(run + rest)
  {
    var r := run + rest;
    forall i: nat | i + 2 < |r|
      ensures !TripleAt(r, i)
    {
      if i >= |run| {
        assert r[i] == rest[i - |run|] && r[i + 1] == rest[i - |run| + 1] && r[i + 2] == rest[i - |run| + 2];
        assert !TripleAt(rest, i - |run|);
      } else if run[0] == '\n' {
        assert r[|run|] == rest[0];
      } else {
        assert r[0] == run[0];
      }
    }
  }

  lemma CollapseRunSubsequence(block: string, run: string, rest: string, tail: string)
    requires Subsequence(rest, tail)
    requires run == block || (|block| >= 3 && run == "\n\n" && block[0] == '\n' && block[1] == '\n')
    ensures Subsequence(run + rest, block + tail)
  {
    if run == block {
      SubsequencePrefix(block, rest, tail);
    } else {
      assert block == run + block[2..];
      SubsequenceDrop(block[2..], rest, tail);
      SubsequencePrefix(run, rest, block[2..] + tail);
      assert block + tail == run + (block[2..] + tail);
    }
  }

  /** A text without three line breaks in a row passes through unchanged. */
  lemma {:induction false} CollapseBlankLinesIdentity(s: string)
    requires NoTripleNewline(s)
    ensures CollapseBlankLines(s) == s
    decreases |s|
  {
    if s != [] {
      if s[0] != '\n' {
        SliceNoTriple(s, 1, |s|);
        assert s[1..|s|] == s[1..];
        CollapseBlankLinesIdentity(s[1..]);
        assert s == [s[0]] + s[1..];
      } else {
        var j := SkipWhile(s, 0, c => c == '\n');
        if |s| >= 3 {
          assert !TripleAt(s, 0);
        }
        SliceNoTriple(s, j, |s|);
        assert s[j..|s|] == s[j..];
        CollapseBlankLinesIdentity(s[j..]);
        assert s == s[..j] + s[j..];
      }
    }
  }

  /** No two line breaks in a row: the text has no blank line. */
  predicate NoBlankLine(s: string) {
    forall i: nat :: i + 1 < |s| ==> !(s[i] == '\n' && s[i + 1] == '\n')
  }

  /** Joining non-empty lines without line breaks makes no blank line. */
  lemma {:induction false} JoinNoBlankLine(lines: seq<string>)
    requires forall i :: 0 <= i < |lines| ==> lines[i] != [] && '\n' !in lines[i]
    ensures var s := Join(lines, "\n");
      NoBlankLine(s) && (lines != [] ==> s != [] && s[0] != '\n')
  {
    if |lines| > 1 {
      JoinNoBlankLine(lines[1..]);
      var w, rest := lines[0], Join(lines[1..], "\n");
      var s := Join(lines, "\n");
      assert s == w + "\n" + rest;
      assert w[0] == s[0];
      forall i: nat | i + 1 < |s|
        ensures !(s[i] == '\n' && s[i + 1] == '\n')
      {
        if i < |w| {
          assert s[i] == w[i];
        } else if i == |w| {
          assert s[i + 1] == rest[0];
        } else {
          assert s[i] == rest[i - |w| - 1] && s[i + 1] == rest[i - |w|];
        }
      }
    }
  }

  /** The line filter drops every blank line, so no two line breaks are
      left next to each other. */
  lemma KeptLinesNoBlankLine(text: string)
    ensures NoBlankLine(KeptLines(text))
  {
    var lines := SplitOn(text, '\n');
    var kept := FilterLines(lines);
    forall i | 0 <= i < |kept| ensures kept[i] != [] && '\n' !in kept[i] {
      assert KeepLine(kept[i]);
      SubsequenceIn(kept, lines, kept[i]);
    }
    JoinNoBlankLine(kept);
  }

  /** What `StripMarkers` leaves of a text that does not start with a line
      break does not start with one either: a deleted match runs up to a
      character that is not whitespace, or to the end. */
  lemma {:induction false} StripMarkersHead(m: Marker, t: string, lineStart: bool)
    requires t == [] || t[0] != '\n'
    ensures var r := StripMarkers(m, t, lineStart); r == [] || r[0] != '\n'
    decreases |t|
  {
    if t == [] {
    } else if lineStart && MarkerEnd(m, t).Some? {
      var n := MarkerEnd(m, t).value;
      AfterMatch(m, t);
      StripMarkersHead(m, t[n..], t[n - 1] == '\n');
      assert StripMarkers(m, t, lineStart) == StripMarkers(m, t[n..], t[n - 1] == '\n');
    } else {
      assert StripMarkers(m, t, lineStart) == [t[0]] + StripMarkers(m, t[1..], t[0] == '\n');
    }
  }

  /** What follows a match does not start with a line break. */
  lemma AfterMatch(m: Marker, t: string)
    requires MarkerEnd(m, t).Some?
    ensures var n := MarkerEnd(m, t).value; t[n..] == [] || t[n..][0] != '\n'
  {
    var n := MarkerEnd(m, t).value;
    if n < |t| {
      assert t[n..][0] == t[n] && !IsSpace(t[n]);
    }
  }


  /** `StripMarkers` makes no blank line: after a deleted match comes a
      character that is not whitespace, or the end of the text. */
  lemma {:induction false} StripMarkersNoBlankLine(m: Marker, t: string, lineStart: bool)
    requires NoBlankLine(t)
    ensures NoBlankLine(StripMarkers(m, t, lineStart))
    decreases |t|
  {
    if t == [] {
    } else if lineStart && MarkerEnd(m, t).Some? {
      var n := MarkerEnd(m, t).value;
      SuffixNoBlankLine(t, n);
      StripMarkersNoBlankLine(m, t[n..], t[n - 1] == '\n');
      assert StripMarkers(m, t, lineStart) == StripMarkers(m, t[n..], t[n - 1] == '\n');
    } else {
      SuffixNoBlankLine(t, 1);
      StripMarkersNoBlankLine(m, t[1..], t[0] == '\n');
      KeptFirstNoBlankLine(m, t);
      assert StripMarkers(m, t, lineStart) == [t[0]] + StripMarkers(m, t[1..], t[0] == '\n');
    }
  }

  lemma SuffixNoBlankLine(s: string, a: nat)
    requires a <= |s| && NoBlankLine(s)
    ensures NoBlankLine(s[a..])
  {
    SliceNoBlankLine(s, a, |s|);
    assert s[a..|s|] == s[a..];
  }

  /** The step of `StripMarkersNoBlankLine` that keeps the first character. */
  lemma KeptFirstNoBlankLine(m: Marker, t: string)
    requires t != [] && NoBlankLine(t) && NoBlankLine(StripMarkers(m, t[1..], t[0] == '\n'))
    ensures NoBlankLine([t[0]] + StripMarkers(m, t[1..], t[0] == '\n'))
  {
    if t[0] == '\n' {
      if |t| > 1 {
        assert !(t[0] == '\n' && t[1] == '\n');
      }
      StripMarkersHead(m, t[1..], true);
    }
    NoBlankLineCons(t[0], StripMarkers(m, t[1..], t[0] == '\n'));
  }

  /** A character in front of a text without a blank line makes none,
      unless both are line breaks. */
  lemma NoBlankLineCons(c: char, rest: string)
    requires NoBlankLine(rest)
    requires c == '\n' ==> rest == [] || rest[0] != '\n'
    ensures NoBlankLine([c] + rest)
  {
    var r := [c] + rest;
    forall i: nat | i + 1 < |r|
      ensures !(r[i] == '\n' && r[i + 1] == '\n')
    {
      if i > 0 {
        assert r[i] == rest[i - 1] && r[i + 1] == rest[i];
      } else {
        assert r[1] == rest[0];
      }
    }
  }

  lemma SliceNoBlankLine(s: string, a: nat, b: nat)
    requires a <= b <= |s| && NoBlankLine(s)
    ensures NoBlankLine(s[a..b])
  {
    var t := s[a..b];
    forall i: nat | i + 1 < |t|
      ensures !(t[i] == '\n' && t[i + 1] == '\n')
    {
      assert t[i] == s[a + i] && t[i + 1] == s[a + i + 1];
    }
  }

  /** A text without a blank line has no three line breaks in a row. */
  lemma NoBlankLineNoTriple(s: string)
    requires NoBlankLine(s)
    ensures NoTripleNewline(s)
  {
    forall i: nat | i + 2 < |s|
      ensures !TripleAt(s, i)
    {
      assert !(s[i] == '\n' && s[i + 1] == '\n');
    }
  }

  /** The character-level passes before the text is split into lines: form
      feeds removed, hyphenated line breaks joined, single line breaks turned
      into spaces. */
  function Unwrapped(raw: string): string {
    UnwrapLines(Dehyphenate(RemoveChar(raw, FormFeed)))
  }

  /** The line filter: split at line breaks, keep the lines that pass, join
      them again. */
  function KeptLines(text: string): string {
    Join(FilterLines(SplitOn(text, '\n')), "\n")
  }

  /** Both line-start prefix removals, in order. */
  function Unmarked(text: string): string {
    StripMarkers(ListNumber, StripMarkers(BracketRef, text, true), true)
  }

  /** `clean_hss_paper_text` */
  function CleanHssPaperText(raw: string): (r: string)
    ensures raw == [] ==> r == []
  {
    if raw == [] then [] else Strip(CollapseBlankLines(Unmarked(KeptLines(Unwrapped(raw)))))
  }

  lemma UnwrappedLacksFormFeed(raw: string)
    ensures FormFeed !in Unwrapped(raw)
  {
    var noFeed := RemoveChar(raw, FormFeed);
    var dehyphenated := Dehyphenate(noFeed);
    if FormFeed in dehyphenated { SubsequenceIn(dehyphenated, noFeed, FormFeed); }
  }

  lemma KeptLinesLacks(text: string, c: char)
    requires c !in text && c != '\n'
    ensures c !in KeptLines(text)
  {
    var lines := SplitOn(text, '\n');
    var kept := FilterLines(lines);
    forall i | 0 <= i < |kept| ensures c !in kept[i] {
      SubsequenceIn(kept, lines, kept[i]);
      var j :| 0 <= j < |lines| && lines[j] == kept[i];
      SplitOnLacks(text, '\n', c, j);
    }
    JoinLacks(kept, "\n", c);
  }

  lemma UnmarkedLacks(text: string, c: char)
    requires c !in text
    ensures c !in Unmarked(text)
  {
    var once := StripMarkers(BracketRef, text, true);
    if c in once { SubsequenceIn(once, text, c); }
    var twice := StripMarkers(ListNumber, once, true);
    if c in twice { SubsequenceIn(twice, once, c); }
  }

  /** The cleaned text has no form feed, no surrounding whitespace and no run
      of three or more line breaks. */
  lemma CleanHssPaperTextSpec(raw: string)
    ensures FormFeed !in CleanHssPaperText(raw)
    ensures IsStripped(CleanHssPaperText(raw))
    ensures NoTripleNewline(CleanHssPaperText(raw))
  {
    if raw != [] {
      var text := Unwrapped(raw);
      UnwrappedLacksFormFeed(raw);
      KeptLinesLacks(text, FormFeed);
      var unmarked := Unmarked(KeptLines(text));
      UnmarkedLacks(KeptLines(text), FormFeed);
      var collapsed := CollapseBlankLines(unmarked);
      if FormFeed in collapsed { SubsequenceIn(collapsed, unmarked, FormFeed); }
      assert CleanHssPaperText(raw) == Strip(collapsed);
      StripKeeps(collapsed, FormFeed);
    }
  }

  /** The cleaned text never holds two line breaks in a row: the line
      filter has already dropped every blank line, so the `\n{3,}`
      substitution finds nothing to replace and no paragraph break is
      left. */
  lemma CleanHssPaperTextNoBlankLine(raw: string)
    ensures var u := Unmarked(KeptLines(Unwrapped(raw))); CollapseBlankLines(u) == u
    ensures NoBlankLine(CleanHssPaperText(raw))
  {
    var u := Unmarked(KeptLines(Unwrapped(raw)));
    KeptLinesNoBlankLine(Unwrapped(raw));
    UnmarkedNoBlankLine(KeptLines(Unwrapped(raw)));
    NoBlankLineNoTriple(u);
    CollapseBlankLinesIdentity(u);
    StripNoBlankLine(u);
    if raw != [] {
      assert CleanHssPaperText(raw) == Strip(CollapseBlankLines(u));
    }
  }

  lemma StripNoBlankLine(s: string)
    requires NoBlankLine(s)
    ensures NoBlankLine(Strip(s))
  {
    StripIsSlice(s);
    SliceNoBlankLine(s, StripStart(s), StripStart(s) + |Strip(s)|);
  }

  lemma UnmarkedNoBlankLine(text: string)
    requires NoBlankLine(text)
    ensures NoBlankLine(Unmarked(text))
  {
    StripMarkersNoBlankLine(BracketRef, text, true);
    StripMarkersNoBlankLine(ListNumber, StripMarkers(BracketRef, text, true), true);
  }

  /** `str.strip()` keeps a text free of triple line breaks and of a given
      character. */
  lemma StripKeeps(s: string, c: char)
    requires NoTripleNewline(s) && c !in s
    ensures NoTripleNewline(Strip(s)) && c !in Strip(s)
  {
    StripIsSlice(s);
    var t := Strip(s);
    var a := StripStart(s);
    assert t == s[a..a + |t|];
    SliceNoTriple(s, a, a + |t|);
  }

  lemma SliceNoTriple(s: string, a: nat, b: nat)
    requires a <= b <= |s| && NoTripleNewline(s)
    ensures NoTripleNewline(s[a..b])
  {
    var t := s[a..b];
    forall i: nat | i + 2 < |t|
      ensures !TripleAt(t, i)
    {
      assert t[i] == s[a + i] && t[i + 1] == s[a + i + 1] && t[i + 2] == s[a + i + 2];
      assert !TripleAt(s, a + i);
    }
  }

  // ---------------------------------------------------------------------
  // The base name composed in main
  // ---------------------------------------------------------------------

  /** `f"{author} ({year}) {title}"` */
  function ComposedName(author: string, year: string, title: string): string {
    author + " (" + year + ") " + title
  }

  /** The base name of a paper's output files: `stem` is the PDF's file name
      without extension and `metadata` the fields extracted from its text
      (`None` when extraction failed). An empty dictionary is falsy, so it
      keeps the stem as well. */
  function BaseName(stem: string, metadata: Option<map<string, string>>): (r: string)
    ensures metadata.None? || |metadata.value| == 0 ==> r == stem
    ensures metadata.Some? && |metadata.value| > 0 ==> |r| <= MaxNameLength && NoIllegal(r) && IsStripped(r)
  {
    if metadata.None? || |metadata.value| == 0 then stem
    else
      var m := metadata.value;
      var author := if "author" in m then Some(m["author"]) else None;
      var year := if "year" in m then m["year"] else "__";
      var title := if "title" in m then m["title"] else stem;
      SanitizeFilename(ComposedName(AuthorLastname(author), year, title))
  }
}
