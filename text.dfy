/** Python's built-in string operations used by the scripts, over `string`
    (a sequence of Unicode code points, as Python's `str` is). */
module Text {

  datatype Option<T> = None | Some(value: T)

  /** The characters `str.isspace()`, `str.strip()`, `str.split()` and the
      regular-expression class `\s` treat as whitespace. */
  predicate IsSpace(c: char) {
    ('\t' <= c <= '\r') || ('\U{1C}' <= c <= ' ') || c == '\U{85}' || c == '\U{A0}'
    || c == '\U{1680}' || ('\U{2000}' <= c <= '\U{200A}') || c == '\U{2028}' || c == '\U{2029}'
    || c == '\U{202F}' || c == '\U{205F}' || c == '\U{3000}'
  }

  /** The regular-expression class `\d`, restricted to ASCII digits. */
  predicate IsDigit(c: char) {
    '0' <= c <= '9'
  }

  predicate AllDigits(s: string) {
    forall i :: 0 <= i < |s| ==> IsDigit(s[i])
  }

  predicate NoSpace(s: string) {
    forall i :: 0 <= i < |s| ==> !IsSpace(s[i])
  }

  predicate AllSpace(s: string) {
    forall i :: 0 <= i < |s| ==> IsSpace(s[i])
  }

  /** Neither end of `s` is whitespace: what `str.strip()` returns. */
  predicate IsStripped(s: string) {
    s == [] || (!IsSpace(s[0]) && !IsSpace(s[|s| - 1]))
  }

  predicate IsPrefix(p: string, s: string) {
    |p| <= |s| && s[..|p|] == p
  }

  predicate IsSuffix<T(==)>(p: seq<T>, s: seq<T>) {
    |p| <= |s| && s[|s| - |p|..] == p
  }

  predicate IsInfix(sub: string, s: string) {
    exists k :: 0 <= k <= |s| && IsPrefix(sub, s[k..])
  }

  /** The index of the last `c` in `s`, or -1 (`str.rfind`). */
  function RFind(s: string, c: char): (r: int)
    ensures -1 <= r < |s| && (r >= 0 ==> s[r] == c)
    ensures forall k :: r < k < |s| ==> s[k] != c
  {
    if s == [] then -1
    else if s[|s| - 1] == c then |s| - 1
    else RFind(s[..|s| - 1], c)
  }

  /** The first index at or after `i` whose character fails `p`, or `|s|`. */
  function SkipWhile(s: string, i: nat, p: char -> bool): (j: nat)
    requires i <= |s|
    ensures i <= j <= |s|
    ensures forall k :: i <= k < j ==> p(s[k])
    ensures j == |s| || !p(s[j])
    decreases |s| - i
  {
    if i < |s| && p(s[i]) then SkipWhile(s, i + 1, p) else i
  }

  /** `SkipWhile` stops at the one index `j` such that every character of
      `s[i..j]` passes and `s[j]`, if any, fails: a greedy run has one end. */
  lemma SkipWhileAt(s: string, i: nat, j: nat, p: char -> bool)
    requires i <= j <= |s| && (forall k :: i <= k < j ==> p(s[k])) && (j == |s| || !p(s[j]))
    ensures SkipWhile(s, i, p) == j
  {
  }

  /** Every character of `s[i..j]` is whitespace. */
  predicate SpacesIn(s: string, i: nat, j: nat) {
    forall k :: i <= k < j && k < |s| ==> IsSpace(s[k])
  }

  /** The first index at or after `i` that is not whitespace, or `|s|`. */
  function LeftEnd(s: string, i: nat): (r: nat)
    requires i <= |s|
    ensures i <= r <= |s| && (r == |s| || !IsSpace(s[r]))
    decreases |s| - i
  {
    if i < |s| && IsSpace(s[i]) then LeftEnd(s, i + 1) else i
  }

  /** `LeftEnd` is the whitespace case of `SkipWhile`; it is kept as its own
      recursion because the lemmas about stripping unfold it step by step. */
  lemma {:induction false} LeftEndIsSkipWhile(s: string, i: nat)
    requires i <= |s|
    ensures LeftEnd(s, i) == SkipWhile(s, i, IsSpace)
    decreases |s| - i
  {
    if i < |s| && IsSpace(s[i]) {
      LeftEndIsSkipWhile(s, i + 1);
    }
  }

  /** Just past the last index before `j` that is not whitespace, or 0. */
  function RightEnd(s: string, j: nat): (r: nat)
    requires j <= |s|
    ensures r <= j && (r == 0 || !IsSpace(s[r - 1]))
  {
    if j > 0 && IsSpace(s[j - 1]) then RightEnd(s, j - 1) else j
  }

  lemma {:induction false} LeftEndSpace(s: string, i: nat)
    requires i <= |s|
    ensures AllSpace(s[i..LeftEnd(s, i)])
    decreases |s| - i
  {
    if i < |s| && IsSpace(s[i]) {
      LeftEndSpace(s, i + 1);
      assert s[i..LeftEnd(s, i)] == [s[i]] + s[i + 1..LeftEnd(s, i)];
    }
  }

  lemma {:induction false} RightEndSpace(s: string, j: nat)
    requires j <= |s|
    ensures AllSpace(s[RightEnd(s, j)..j])
  {
    if j > 0 && IsSpace(s[j - 1]) {
      RightEndSpace(s, j - 1);
      assert s[RightEnd(s, j)..j] == s[RightEnd(s, j)..j - 1] + [s[j - 1]];
    }
  }

  /** `LeftEnd` behind a prefix is `LeftEnd` of the text, shifted. */
  lemma {:induction false} LeftEndShift(pre: string, s: string, i: nat)
    requires i <= |s|
    ensures LeftEnd(pre + s, |pre| + i) == |pre| + LeftEnd(s, i)
    decreases |s| - i
  {
    if i < |s| {
      assert (pre + s)[|pre| + i] == s[i];
      LeftEndShift(pre, s, i + 1);
    }
  }

  /** The leading whitespace of `[c] + t`: `c` and that of `t` when `c` is
      whitespace, nothing otherwise. */
  lemma LeadingSpaceCons(c: char, t: string)
    ensures var s := [c] + t;
      s[..LeftEnd(s, 0)] == if IsSpace(c) then [c] + t[..LeftEnd(t, 0)] else []
  {
    var s := [c] + t;
    if IsSpace(c) {
      LeftEndShift([c], t, 0);
      assert LeftEnd(s, 0) == 1 + LeftEnd(t, 0);
      assert s[..1 + LeftEnd(t, 0)] == [c] + t[..LeftEnd(t, 0)];
    }
  }

  /** Nothing but whitespace from `i` on: `LeftEnd` runs to the end. */
  lemma {:induction false} LeftEndAllSpace(s: string, i: nat)
    requires i <= |s| && AllSpace(s[i..])
    ensures LeftEnd(s, i) == |s|
    decreases |s| - i
  {
    if i < |s| {
      assert s[i] == s[i..][0];
      assert s[i + 1..] == s[i..][1..];
      LeftEndAllSpace(s, i + 1);
    }
  }

  /** A non-whitespace character at or after `i` stops `LeftEnd` by `k`. */
  lemma {:induction false} LeftEndBefore(s: string, i: nat, k: nat)
    requires i <= k < |s| && !IsSpace(s[k])
    ensures LeftEnd(s, i) <= k
    decreases k - i
  {
    if i < k && IsSpace(s[i]) {
      LeftEndBefore(s, i + 1, k);
    }
  }

  /** A non-whitespace character before `j` stops `RightEnd` after it. */
  lemma {:induction false} RightEndAfter(s: string, j: nat, k: nat)
    requires k < j <= |s| && !IsSpace(s[k])
    ensures k < RightEnd(s, j)
  {
    if j - 1 > k && IsSpace(s[j - 1]) {
      RightEndAfter(s, j - 1, k);
    }
  }

  /** `str.lstrip()` */
  function TrimLeft(s: string): (r: string)
    ensures |r| <= |s| && r == s[|s| - |r|..]
    ensures r == [] || !IsSpace(r[0])
  {
    s[LeftEnd(s, 0)..]
  }

  /** `str.lstrip()` drops only whitespace. */
  lemma TrimLeftDropsSpace(s: string)
    ensures AllSpace(s[..|s| - |TrimLeft(s)|])
  {
    LeftEndSpace(s, 0);
    assert s[..|s| - |TrimLeft(s)|] == s[0..LeftEnd(s, 0)];
  }

  /** `str.rstrip()` */
  function TrimRight(s: string): (r: string)
    ensures |r| <= |s| && r == s[..|r|]
    ensures r == [] || !IsSpace(r[|r| - 1])
  {
    s[..RightEnd(s, |s|)]
  }

  /** `str.strip()`: the slice between the first and the last character that
      is not whitespace. */
  function Strip(s: string): (r: string)
    ensures IsStripped(r) && |r| <= |s|
  {
    var a := LeftEnd(s, 0);
    var b := RightEnd(s, |s|);
    if a < b then s[a..b] else []
  }

  /** The number of leading whitespace characters `str.strip()` drops. */
  function StripStart(s: string): nat {
    LeftEnd(s, 0)
  }

  /** `str.strip()` is `str.rstrip()` after `str.lstrip()`. */
  lemma StripTrims(s: string)
    ensures Strip(s) == TrimRight(TrimLeft(s))
  {
    var a := LeftEnd(s, 0);
    var b := RightEnd(s, |s|);
    var t := TrimLeft(s);
    var e := RightEnd(t, |t|);
    if a < b {
      TrimRightOfSuffix(s, a);
    } else {
      if t != [] {
        RightEndAfter(s, |s|, a);
      }
    }
  }

  /** Trimming the right of a suffix `s[a..]` whose first character is not
      whitespace ends where trimming `s` does. */
  lemma TrimRightOfSuffix(s: string, a: nat)
    requires a < RightEnd(s, |s|) && !IsSpace(s[a])
    ensures TrimRight(s[a..]) == s[a..RightEnd(s, |s|)]
  {
    var t := s[a..];
    RightEndShift(s, a, |s|);
    assert RightEnd(t, |t|) == RightEnd(s, |s|) - a;
    SuffixPrefix(s, a, RightEnd(s, |s|));
  }

  lemma SuffixPrefix<T>(s: seq<T>, a: nat, b: nat)
    requires a <= b <= |s|
    ensures s[a..][..b - a] == s[a..b]
  {
  }

  lemma {:induction false} RightEndShift(s: string, a: nat, j: nat)
    requires a < j <= |s| && a < |s| && !IsSpace(s[a])
    ensures RightEnd(s[a..], j - a) == RightEnd(s, j) - a && a < RightEnd(s, j)
  {
    if j - 1 > a && IsSpace(s[j - 1]) {
      assert s[a..][j - a - 1] == s[j - 1];
      RightEndShift(s, a, j - 1);
    } else if j - 1 > a {
      assert s[a..][j - a - 1] == s[j - 1];
    } else {
      assert s[a..][0] == s[a];
    }
  }

  /** `str.strip()` returns a slice of its argument with only whitespace outside it. */
  lemma StripIsSlice(s: string)
    ensures StripStart(s) + |Strip(s)| <= |s|
    ensures Strip(s) == s[StripStart(s)..StripStart(s) + |Strip(s)|]
    ensures AllSpace(s[..StripStart(s)]) && AllSpace(s[StripStart(s) + |Strip(s)|..])
  {
    var a := LeftEnd(s, 0);
    var b := RightEnd(s, |s|);
    LeftEndSpace(s, 0);
    assert s[..a] == s[0..a];
    if a < b {
      RightEndSpace(s, |s|);
      assert s[a + (b - a)..] == s[b..|s|];
    } else {
      assert AllSpace(s[a..]) by {
        LeftEndRest(s, a, b);
      }
    }
  }

  /** When the two ends cross, nothing after the left end is kept. */
  lemma LeftEndRest(s: string, a: nat, b: nat)
    requires a == LeftEnd(s, 0) && b == RightEnd(s, |s|) && b <= a
    ensures AllSpace(s[a..])
  {
    forall n | 0 <= n < |s| - a ensures IsSpace(s[a..][n]) {
      assert s[a..][n] == s[a + n];
      if !IsSpace(s[a + n]) {
        RightEndAfter(s, |s|, a + n);
      }
    }
  }

  lemma StripStripped(s: string)
    requires IsStripped(s)
    ensures Strip(s) == s
  {
    if s != [] {
      assert LeftEnd(s, 0) == 0;
      assert RightEnd(s, |s|) == |s|;
    }
  }

  /** Whitespace appended to `x` does not change `x.strip()`. */
  lemma StripAppendSpace(x: string, w: string)
    requires AllSpace(w)
    ensures Strip(x + w) == Strip(x)
  {
    var s := x + w;
    RightEndSkipSpace(s, |x|);
    RightEndPrefix(x, w, |x|);
    var b := RightEnd(x, |x|);
    if b > 0 {
      LeftEndBefore(x, 0, b - 1);
      LeftEndPrefix(x, w, 0);
      assert s[LeftEnd(x, 0)..b] == x[LeftEnd(x, 0)..b];
    }
  }

  /** Whitespace after `j`: `RightEnd` from the end reaches back past it. */
  lemma {:induction false} RightEndSkipSpace(s: string, j: nat)
    requires j <= |s| && AllSpace(s[j..])
    ensures RightEnd(s, |s|) == RightEnd(s, j)
    decreases |s| - j
  {
    if j < |s| {
      assert s[j + 1..] == s[j..][1..];
      RightEndSkipSpace(s, j + 1);
      assert IsSpace(s[j..][0]);
    }
  }

  lemma {:induction false} RightEndPrefix(x: string, w: string, j: nat)
    requires j <= |x|
    ensures RightEnd(x + w, j) == RightEnd(x, j)
  {
    if j > 0 {
      assert (x + w)[j - 1] == x[j - 1];
      RightEndPrefix(x, w, j - 1);
    }
  }

  lemma {:induction false} LeftEndPrefix(x: string, w: string, i: nat)
    requires i <= |x| && LeftEnd(x, i) < |x|
    ensures LeftEnd(x + w, i) == LeftEnd(x, i)
    decreases |x| - i
  {
    assert (x + w)[i] == x[i];
    if IsSpace(x[i]) {
      LeftEndPrefix(x, w, i + 1);
    }
  }

  lemma AllSpaceTrimLeft(s: string)
    requires AllSpace(s)
    ensures TrimLeft(s) == []
  {
    assert s[0..] == s;
    LeftEndAllSpace(s, 0);
  }

  /** The non-whitespace characters of `s`, in order. */
  function NonWs(s: string): (r: string)
    ensures NoSpace(r)
  {
    if s == [] then []
    else if IsSpace(s[0]) then NonWs(s[1..])
    else [s[0]] + NonWs(s[1..])
  }

  lemma {:induction false} NonWsConcat(a: string, b: string)
    ensures NonWs(a + b) == NonWs(a) + NonWs(b)
  {
    if a == [] {
      assert a + b == b;
    } else {
      assert (a + b)[0] == a[0];
      assert (a + b)[1..] == a[1..] + b;
      NonWsConcat(a[1..], b);
    }
  }

  lemma {:induction false} NonWsAllSpace(s: string)
    requires AllSpace(s)
    ensures NonWs(s) == []
  {
    if s != [] {
      NonWsAllSpace(s[1..]);
    }
  }

  lemma {:induction false} NonWsNoSpace(s: string)
    requires NoSpace(s)
    ensures NonWs(s) == s
  {
    if s != [] {
      NonWsNoSpace(s[1..]);
    }
  }

  lemma NonWsSplit(s: string, i: nat, j: nat)
    requires i <= j <= |s|
    ensures NonWs(s) == NonWs(s[..i]) + NonWs(s[i..j]) + NonWs(s[j..])
  {
    assert s[0..] == s && s[0..i] == s[..i];
    NonWsSuffixSplit(s, 0, i);
    NonWsSuffixSplit(s, i, j);
    AppendAssoc(NonWs(s[..i]), NonWs(s[i..j]), NonWs(s[j..]));
  }

  lemma AppendAssoc<T>(a: seq<T>, b: seq<T>, c: seq<T>)
    ensures a + (b + c) == (a + b) + c
  {
  }

  /** Taking one more element appends it. */
  lemma TakeOneMore<T>(s: seq<T>, j: nat)
    requires j < |s|
    ensures s[..j + 1] == s[..j] + [s[j]]
  {
  }

  /** A prefix and the matching suffix make up the sequence. */
  lemma TakeDrop<T>(s: seq<T>, j: nat)
    requires j <= |s|
    ensures s[..j] + s[j..] == s
  {
  }

  /** A non-empty sequence is its front followed by its last element. */
  lemma SplitLast<T>(s: seq<T>)
    requires s != []
    ensures s == s[..|s| - 1] + [s[|s| - 1]]
  {
  }

  /** Stripping removes whitespace only. */
  lemma NonWsStrip(s: string)
    ensures NonWs(Strip(s)) == NonWs(s)
  {
    StripIsSlice(s);
    var i := StripStart(s);
    var j := i + |Strip(s)|;
    NonWsSplit(s, i, j);
    NonWsAllSpace(s[..i]);
    NonWsAllSpace(s[j..]);
  }

  /** `str.split()` with no argument: the maximal non-whitespace runs, in order. */
  function Words(s: string): (r: seq<string>)
    ensures forall i :: 0 <= i < |r| ==> r[i] != [] && NoSpace(r[i])
  {
    WordsFrom(s, 0)
  }

  /** The words of `s[i..]`, found by scanning `s` from index `i`. */
  function WordsFrom(s: string, i: nat): (r: seq<string>)
    requires i <= |s|
    ensures forall k :: 0 <= k < |r| ==> r[k] != [] && NoSpace(r[k])
    decreases |s| - i
  {
    var a := SkipWhile(s, i, c => IsSpace(c));
    if a == |s| then []
    else
      var b := SkipWhile(s, a, c => !IsSpace(c));
      [s[a..b]] + WordsFrom(s, b)
  }

  /** Splitting into words drops whitespace only. */
  lemma NonWsWords(s: string)
    ensures NonWs(s) == Concat(Words(s))
  {
    NonWsWordsFrom(s, 0);
    assert s[0..] == s;
  }

  lemma {:induction false} NonWsWordsFrom(s: string, i: nat)
    requires i <= |s|
    ensures NonWs(s[i..]) == Concat(WordsFrom(s, i))
    decreases |s| - i
  {
    var a, b := WordsFromStep(s, i);
    ScannedRuns(s, i, a, b);
    if a < |s| {
      NonWsWordsFrom(s, b);
      NonWsWordStep(s, i, a, b, WordsFrom(s, b));
    } else {
      NonWsAllSpace(s[i..]);
    }
  }

  /** What the word scan skips is whitespace, and a word has none. */
  lemma ScannedRuns(s: string, i: nat, a: nat, b: nat)
    requires i <= a <= b <= |s| && a == SkipWhile(s, i, c => IsSpace(c))
    requires a < |s| ==> b == SkipWhile(s, a, c => !IsSpace(c))
    ensures AllSpace(s[i..a]) && NoSpace(s[a..b])
  {
  }

  /** The step of `NonWsWordsFrom` over one word `s[a..b]`. */
  lemma NonWsWordStep(s: string, i: nat, a: nat, b: nat, ws: seq<string>)
    requires i <= a <= b <= |s| && AllSpace(s[i..a]) && NoSpace(s[a..b])
    requires NonWs(s[b..]) == Concat(ws)
    ensures NonWs(s[i..]) == Concat([s[a..b]] + ws)
  {
    NonWsSuffixSplit(s, i, a);
    NonWsAllSpace(s[i..a]);
    NonWsSuffixSplit(s, a, b);
    NonWsNoSpace(s[a..b]);
    ConcatCons(s[a..b], ws);
  }

  /** Scanning a prefix stops where scanning the whole text does, or at the
      prefix's end. */
  lemma {:induction false} SkipWhilePrefix(s: string, i: nat, k: nat, p: char -> bool)
    requires i <= k <= |s|
    ensures SkipWhile(s[..k], i, p) == if SkipWhile(s, i, p) < k then SkipWhile(s, i, p) else k
    decreases k - i
  {
    if i < k {
      assert s[..k][i] == s[i];
      SkipWhilePrefix(s, i + 1, k, p);
    }
  }

  /** Resuming a scan from inside the run it skips ends at the same place. */
  lemma {:induction false} SkipWhileMid(s: string, i: nat, k: nat, p: char -> bool)
    requires i <= |s| && i <= k <= SkipWhile(s, i, p)
    ensures SkipWhile(s, k, p) == SkipWhile(s, i, p)
    decreases k - i
  {
    if i < k {
      SkipWhileMid(s, i + 1, k, p);
    }
  }

  /** One step of the word scan from `i`: whitespace up to `a`, then the
      word up to `b` when `a` is not the end. */
  lemma WordsFromStep(s: string, i: nat) returns (a: nat, b: nat)
    requires i <= |s|
    ensures a == SkipWhile(s, i, c => IsSpace(c)) && a <= b <= |s|
    ensures a < |s| ==> a < b && b == SkipWhile(s, a, c => !IsSpace(c)) && WordsFrom(s, i) == [s[a..b]] + WordsFrom(s, b)
    ensures a == |s| ==> WordsFrom(s, i) == []
  {
    a := SkipWhile(s, i, c => IsSpace(c));
    b := if a < |s| then SkipWhile(s, a, c => !IsSpace(c)) else a;
  }

  /** One word found at `a..b`, scanning from `i`. */
  lemma WordsFromWord(s: string, i: nat, a: nat, b: nat, w: string)
    requires i <= a < b <= |s|
    requires a == SkipWhile(s, i, c => IsSpace(c)) && b == SkipWhile(s, a, c => !IsSpace(c))
    requires s[a..b] == w
    ensures WordsFrom(s, i) == [w] + WordsFrom(s, b)
  {
  }

  /** A word boundary at `k` (a whitespace character or the end) splits the
      words found from `i` into those before `k` and those from `k`. */
  lemma {:induction false} WordsFromCut(s: string, i: nat, k: nat)
    requires i <= k <= |s| && (k == |s| || IsSpace(s[k]))
    ensures WordsFrom(s, i) == WordsFrom(s[..k], i) + WordsFrom(s, k)
    decreases k - i
  {
    var a, b := WordsFromStep(s, i);
    SkipWhilePrefix(s, i, k, c => IsSpace(c));
    if a >= k {
      SkipWhileMid(s, i, k, c => IsSpace(c));
      CutInSpace(s, i, k);
    } else {
      CutAfterWord(s, i, k, a, b);
      WordsFromCut(s, b, k);
      AppendAssoc([s[a..b]], WordsFrom(s[..k], b), WordsFrom(s, k));
    }
  }

  /** Only whitespace lies between `i` and the boundary `k`. */
  lemma CutInSpace(s: string, i: nat, k: nat)
    requires i <= k <= |s|
    requires SkipWhile(s[..k], i, c => IsSpace(c)) == k
    requires SkipWhile(s, k, c => IsSpace(c)) == SkipWhile(s, i, c => IsSpace(c))
    ensures WordsFrom(s, i) == WordsFrom(s[..k], i) + WordsFrom(s, k)
  {
    assert WordsFrom(s[..k], i) == [];
  }

  /** The first word found from `i` ends before the boundary `k`. */
  lemma CutAfterWord(s: string, i: nat, k: nat, a: nat, b: nat)
    requires i <= a < k <= |s| && (k == |s| || IsSpace(s[k]))
    requires a == SkipWhile(s, i, c => IsSpace(c)) && b == SkipWhile(s, a, c => !IsSpace(c))
    requires SkipWhile(s[..k], i, c => IsSpace(c)) == a
    ensures b <= k
    ensures WordsFrom(s, i) == [s[a..b]] + WordsFrom(s, b)
    ensures WordsFrom(s[..k], i) == [s[a..b]] + WordsFrom(s[..k], b)
  {
    SkipWhilePrefix(s, a, k, c => !IsSpace(c));
    assert s[..k][a..b] == s[a..b];
    WordsFromWord(s[..k], i, a, b, s[a..b]);
  }

  /** A whitespace character separates the words on its two sides. */
  lemma {:induction false} WordsAtSpace(a: string, c: char, b: string)
    requires IsSpace(c)
    ensures Words(a + [c] + b) == Words(a) + Words(b)
    decreases |b|
  {
    var k := SkipWhile(b, 0, x => !IsSpace(x));
    if k == |b| {
      assert NoSpace(b);
      WordsBeforeWord(a, c, b);
    } else {
      var b1, d, b2 := b[..k], b[k], b[k + 1..];
      assert NoSpace(b1);
      assert b == b1 + [d] + b2;
      assert a + [c] + b == (a + [c] + b1) + [d] + b2;
      WordsAtSpace(a + [c] + b1, d, b2);
      WordsBeforeWord(a, c, b1);
      WordsAtSpace(b1, d, b2);
      AppendAssoc(Words(a), Words(b1), Words(b2));
    }
  }

  /** The base case of `WordsAtSpace`: no whitespace after `c`. */
  lemma WordsBeforeWord(a: string, c: char, w: string)
    requires IsSpace(c) && NoSpace(w)
    ensures Words(a + [c] + w) == Words(a) + Words(w)
  {
    var s := a + [c] + w;
    var n := |a|;
    WordsFromCut(s, 0, n);
    assert s[..n] == a;
    if w == [] {
      SkipWhileAll(s, n, x => IsSpace(x));
    } else {
      SkipWhileAll(s, n + 1, x => !IsSpace(x));
      assert s[n + 1..|s|] == w;
      WordsFromWord(s, n, n + 1, |s|, w);
      WordsOfWord(w);
    }
  }

  /** A non-empty text without whitespace is one word. */
  lemma WordsOfWord(w: string)
    requires w != [] && NoSpace(w)
    ensures Words(w) == [w]
  {
    SkipWhileAll(w, 0, c => !IsSpace(c));
    assert w[0..|w|] == w;
    assert WordsFrom(w, |w|) == [];
  }

  /** Whitespace alone has no words. */
  lemma WordsOfSpace(s: string)
    requires AllSpace(s)
    ensures Words(s) == []
  {
    SkipWhileAll(s, 0, c => IsSpace(c));
  }

  lemma {:induction false} SkipWhileAll(s: string, i: nat, p: char -> bool)
    requires i <= |s| && forall k :: i <= k < |s| ==> p(s[k])
    ensures SkipWhile(s, i, p) == |s|
    decreases |s| - i
  {
    if i < |s| {
      SkipWhileAll(s, i + 1, p);
    }
  }

  /** Joining words with single spaces and splitting again gives the same
      words: `' '.join(ws).split() == ws`. */
  lemma {:induction false} WordsJoin(ws: seq<string>)
    requires forall i :: 0 <= i < |ws| ==> ws[i] != [] && NoSpace(ws[i])
    ensures Words(Join(ws, " ")) == ws
  {
    if |ws| == 0 {
    } else if |ws| == 1 {
      WordsOfWord(ws[0]);
    } else {
      WordsJoin(ws[1..]);
      WordsAtSpace(ws[0], ' ', Join(ws[1..], " "));
      assert Join(ws, " ") == ws[0] + [' '] + Join(ws[1..], " ");
      WordsOfWord(ws[0]);
      assert ws == [ws[0]] + ws[1..];
    }
  }

  /** Leading whitespace adds no words. */
  lemma {:induction false} WordsSpaceFirst(p: string, x: string)
    requires AllSpace(p)
    ensures Words(p + x) == Words(x)
    decreases |p|
  {
    if p != [] {
      assert p + x == [] + [p[0]] + (p[1..] + x);
      WordsAtSpace([], p[0], p[1..] + x);
      assert Words([]) == [];
      WordsSpaceFirst(p[1..], x);
    } else {
      assert p + x == x;
    }
  }

  /** Trailing whitespace adds no words. */
  lemma WordsSpaceLast(x: string, p: string)
    requires AllSpace(p)
    ensures Words(x + p) == Words(x)
  {
    if p == [] {
      assert x + p == x;
    } else {
      assert x + p == x + [p[0]] + p[1..];
      WordsAtSpace(x, p[0], p[1..]);
      WordsOfSpace(p[1..]);
    }
  }

  /** `str.lstrip()` keeps the words. */
  lemma WordsTrimLeft(s: string)
    ensures Words(TrimLeft(s)) == Words(s)
  {
    TrimLeftDropsSpace(s);
    assert s == s[..|s| - |TrimLeft(s)|] + TrimLeft(s);
    WordsSpaceFirst(s[..|s| - |TrimLeft(s)|], TrimLeft(s));
  }

  /** `str.strip()` keeps the words. */
  lemma WordsStrip(s: string)
    ensures Words(Strip(s)) == Words(s)
  {
    StripIsSlice(s);
    var a, e := StripStart(s), StripStart(s) + |Strip(s)|;
    assert s == s[..a] + (Strip(s) + s[e..]);
    WordsSpaceFirst(s[..a], Strip(s) + s[e..]);
    WordsSpaceLast(Strip(s), s[e..]);
  }

  /** The words of `[c] + x` for a character `c` that is not whitespace: `c`
      starts a word of its own when `x` is empty or starts with whitespace,
      and joins the first word of `x` otherwise. */
  lemma WordsCons(c: char, x: string)
    requires !IsSpace(c)
    ensures Words([c] + x) ==
      if x == [] || IsSpace(x[0]) then [[c]] + Words(x)
      else [[c] + Words(x)[0]] + Words(x)[1..]
  {
    if x == [] {
      WordsOfWord([c]);
      assert [c] + x == [c];
    } else if IsSpace(x[0]) {
      WordsConsSpace(c, x);
    } else {
      var k := SkipWhile(x, 0, y => !IsSpace(y));
      if k == |x| {
        assert NoSpace(x) && NoSpace([c] + x);
        WordsOfWord(x);
        WordsOfWord([c] + x);
      } else {
        WordsConsWord(c, x, k);
      }
    }
  }

  lemma WordsConsSpace(c: char, x: string)
    requires !IsSpace(c) && x != [] && IsSpace(x[0])
    ensures Words([c] + x) == [[c]] + Words(x)
  {
    assert [c] + x == [c] + [x[0]] + x[1..];
    WordsAtSpace([c], x[0], x[1..]);
    assert x == [] + [x[0]] + x[1..];
    WordsAtSpace([], x[0], x[1..]);
    assert Words([]) == [];
    WordsOfWord([c]);
  }

  lemma WordsConsWord(c: char, x: string, k: nat)
    requires !IsSpace(c) && 0 < k < |x| && IsSpace(x[k]) && NoSpace(x[..k])
    ensures Words([c] + x) == [[c] + Words(x)[0]] + Words(x)[1..]
  {
    var w, d, r := x[..k], x[k], x[k + 1..];
    assert NoSpace([c] + w);
    assert x == w + [d] + r;
    assert [c] + x == ([c] + w) + [d] + r;
    WordsAtSpace([c] + w, d, r);
    WordsAtSpace(w, d, r);
    WordsOfWord([c] + w);
    WordsOfWord(w);
  }

  /** A single-spaced text is the single-space join of its words, so it is
      what `' '.join(s.split())` makes of it. */
  lemma {:induction false} SingleSpacedJoin(y: string)
    requires SingleSpaced(y)
    ensures y == Join(Words(y), " ")
    decreases |y|
  {
    if y != [] {
      var k := SkipWhile(y, 0, x => !IsSpace(x));
      if k == |y| {
        assert NoSpace(y);
        WordsOfWord(y);
      } else {
        var w, r := y[..k], y[k + 1..];
        assert NoSpace(w) && w != [];
        assert y == w + [' '] + r;
        assert SingleSpaced(r) by {
          forall i | 0 <= i < |r| && IsSpace(r[i])
            ensures r[i] == ' ' && 0 < i < |r| - 1 && !IsSpace(r[i - 1]) && !IsSpace(r[i + 1])
          {
            assert r[i] == y[k + 1 + i];
          }
        }
        SingleSpacedJoin(r);
        WordsAtSpace(w, ' ', r);
        WordsOfWord(w);
        assert r != [] && Words(r) != [];
        assert Words(y) == [w] + Words(r);
      }
    }
  }

  lemma NonWsSplitAt(s: string, i: nat)
    requires i <= |s|
    ensures NonWs(s) == NonWs(s[..i]) + NonWs(s[i..])
  {
    assert s[0..] == s && s[0..i] == s[..i];
    NonWsSuffixSplit(s, 0, i);
  }

  lemma NonWsSuffixSplit(s: string, a: nat, b: nat)
    requires a <= b <= |s|
    ensures NonWs(s[a..]) == NonWs(s[a..b]) + NonWs(s[b..])
  {
    assert s[a..] == s[a..b] + s[b..];
    NonWsConcat(s[a..b], s[b..]);
  }

  /** `''.join(parts)` */
  function Concat(parts: seq<string>): string {
    if parts == [] then "" else parts[0] + Concat(parts[1..])
  }

  lemma ConcatCons(x: string, parts: seq<string>)
    ensures Concat([x] + parts) == x + Concat(parts)
  {
    assert ([x] + parts)[1..] == parts;
  }

  lemma {:induction false} ConcatAppend(parts: seq<string>, x: string)
    ensures Concat(parts + [x]) == Concat(parts) + x
  {
    if parts != [] {
      assert (parts + [x])[1..] == parts[1..] + [x];
      ConcatAppend(parts[1..], x);
    }
  }

  /** `sep.join(parts)` */
  function Join(parts: seq<string>, sep: string): string {
    if |parts| == 0 then ""
    else if |parts| == 1 then parts[0]
    else parts[0] + sep + Join(parts[1..], sep)
  }

  lemma {:induction false} JoinAppend(parts: seq<string>, x: string, sep: string)
    requires parts != []
    ensures Join(parts + [x], sep) == Join(parts, sep) + sep + x
  {
    if |parts| > 1 {
      assert (parts + [x])[1..] == parts[1..] + [x];
      JoinAppend(parts[1..], x, sep);
    }
  }

  /** Every whitespace character of `s` is a single space with a
      non-whitespace character on both sides: words separated by one space,
      nothing at either end. */
  predicate SingleSpaced(s: string) {
    forall i :: 0 <= i < |s| && IsSpace(s[i]) ==>
      s[i] == ' ' && 0 < i < |s| - 1 && !IsSpace(s[i - 1]) && !IsSpace(s[i + 1])
  }

  /** `' '.join(s.split())`: whitespace runs collapsed to one space, ends trimmed. */
  function CollapseSpaces(s: string): (r: string)
    ensures SingleSpaced(r) && IsStripped(r)
    ensures NonWs(r) == NonWs(s)
  {
    var ws := Words(s);
    JoinWordsSingleSpaced(ws);
    NonWsWords(s);
    Join(ws, " ")
  }

  /** Collapsing keeps the words: `' '.join(s.split()).split() == s.split()`. */
  lemma CollapseSpacesWords(s: string)
    ensures Words(CollapseSpaces(s)) == Words(s)
  {
    WordsJoin(Words(s));
  }

  lemma {:induction false} JoinWordsSingleSpaced(ws: seq<string>)
    requires forall i :: 0 <= i < |ws| ==> ws[i] != [] && NoSpace(ws[i])
    ensures var r := Join(ws, " ");
      SingleSpaced(r) && NonWs(r) == Concat(ws) && (ws != [] ==> r != [] && r[0] == ws[0][0])
  {
    if |ws| == 1 {
      NonWsNoSpace(ws[0]);
      assert Concat(ws) == ws[0] + Concat([]);
    } else if |ws| > 1 {
      JoinWordsSingleSpaced(ws[1..]);
      var w, rest := ws[0], Join(ws[1..], " ");
      var r := Join(ws, " ");
      assert r == w + " " + rest;
      NonWsConcat(w + " ", rest);
      NonWsConcat(w, " ");
      NonWsNoSpace(w);
      assert NonWs(" ") == [];
      forall i | 0 <= i < |r| && IsSpace(r[i])
        ensures r[i] == ' ' && 0 < i < |r| - 1 && !IsSpace(r[i - 1]) && !IsSpace(r[i + 1])
      {
        if i == |w| {
          assert r[i + 1] == rest[0];
        } else if i > |w| {
          assert r[i] == rest[i - |w| - 1];
          if i - 1 > |w| { assert r[i - 1] == rest[i - |w| - 2]; }
          assert rest[i - |w|] == r[i + 1];
        }
      }
    }
  }

  lemma NonWsTrimLeft(s: string)
    ensures NonWs(TrimLeft(s)) == NonWs(s)
  {
    var t := TrimLeft(s);
    var k := |s| - |t|;
    assert s == s[..k] + t;
    TrimLeftDropsSpace(s);
    NonWsConcat(s[..k], t);
    NonWsAllSpace(s[..k]);
  }

  /** `c * n` for a one-character string `c`. */
  function Repeat(c: char, n: nat): (r: string)
    ensures |r| == n && forall i :: 0 <= i < n ==> r[i] == c
  {
    if n == 0 then "" else [c] + Repeat(c, n - 1)
  }

  /** `str.lower()` on ASCII letters; other characters are left as they are. */
  function LowerChar(c: char): char {
    if 'A' <= c <= 'Z' then (c as int + 32) as char else c
  }

  function Lower(s: string): (r: string)
    ensures |r| == |s| && forall i :: 0 <= i < |s| ==> r[i] == LowerChar(s[i])
  {
    seq(|s|, i requires 0 <= i < |s| => LowerChar(s[i]))
  }

  /** The prefix test of `str.startswith` after lower-casing both sides. */
  predicate StartsWithIgnoreCase(s: string, lowerPrefix: string) {
    |lowerPrefix| <= |s| && Lower(s[..|lowerPrefix|]) == lowerPrefix
  }

  function DigitChar(d: nat): (c: char)
    requires d < 10
    ensures IsDigit(c) && c as int - '0' as int == d
  {
    ('0' as int + d) as char
  }

  /** `str(n)` for a natural number: its decimal digits. */
  function NatToDecimal(n: nat): (r: string)
    ensures r != [] && AllDigits(r)
  {
    if n < 10 then [DigitChar(n)] else NatToDecimal(n / 10) + [DigitChar(n % 10)]
  }

  /** `int(s)` for a string of ASCII digits. */
  function DecimalValue(s: string): nat
    requires AllDigits(s)
  {
    if s == [] then 0 else 10 * DecimalValue(s[..|s| - 1]) + (s[|s| - 1] as int - '0' as int)
  }

  /** `int(str(n)) == n` */
  lemma {:induction false} DecimalRoundTrip(n: nat)
    ensures DecimalValue(NatToDecimal(n)) == n
  {
    if n >= 10 {
      var r := NatToDecimal(n);
      assert r[..|r| - 1] == NatToDecimal(n / 10);
      DecimalRoundTrip(n / 10);
    }
  }

  lemma InfixOfConcat(pre: string, x: string, post: string)
    ensures IsInfix(x, pre + x + post)
  {
    var s := pre + x + post;
    assert s[|pre|..][..|x|] == x;
    assert IsPrefix(x, s[|pre|..]);
  }

  lemma InfixTransitive(a: string, b: string, c: string)
    requires IsInfix(a, b) && IsInfix(b, c)
    ensures IsInfix(a, c)
  {
    var i :| 0 <= i <= |b| && IsPrefix(a, b[i..]);
    var j :| 0 <= j <= |c| && IsPrefix(b, c[j..]);
    var k := j + i;
    assert k + |a| <= |c|;
    forall t | 0 <= t < |a| ensures c[k..][t] == a[t] {
      assert a[t] == b[i..][t] == b[i + t];
      assert b[i + t] == c[j..][i + t] == c[k + t];
    }
    assert c[k..][..|a|] == a;
    assert IsPrefix(a, c[k..]);
  }

  /** Each part occurs in the joined string. */
  lemma {:induction false} InfixOfJoin(parts: seq<string>, sep: string, i: nat)
    requires i < |parts|
    ensures IsInfix(parts[i], Join(parts, sep))
  {
    if |parts| == 1 {
      InfixOfConcat("", parts[0], "");
      assert "" + parts[0] + "" == Join(parts, sep);
    } else {
      var rest := Join(parts[1..], sep);
      if i == 0 {
        InfixOfConcat("", parts[0], sep + rest);
        assert "" + parts[0] + (sep + rest) == Join(parts, sep);
      } else {
        InfixOfJoin(parts[1..], sep, i - 1);
        InfixOfConcat(parts[0] + sep, rest, "");
        assert parts[0] + sep + rest + "" == Join(parts, sep);
        InfixTransitive(parts[i], rest, Join(parts, sep));
      }
    }
  }

  /** `a` is `b` with some elements deleted: the elements of `a` occur in
      `b`, in the same order. */
  predicate Subsequence<T(==)>(a: seq<T>, b: seq<T>)
    decreases |b|
  {
    if a == [] then true
    else if b == [] then false
    else (a[0] == b[0] && Subsequence(a[1..], b[1..])) || Subsequence(a, b[1..])
  }

  lemma {:induction false} SubsequenceRefl<T>(a: seq<T>)
    ensures Subsequence(a, a)
  {
    if a != [] { SubsequenceRefl(a[1..]); }
  }

  /** Keeping a common prefix preserves the relation. */
  lemma {:induction false} SubsequencePrefix<T>(p: seq<T>, a: seq<T>, b: seq<T>)
    requires Subsequence(a, b)
    ensures Subsequence(p + a, p + b)
  {
    if p != [] {
      SubsequencePrefix(p[1..], a, b);
      assert (p + a)[1..] == p[1..] + a;
      assert (p + b)[1..] == p[1..] + b;
      assert (p + a)[0] == (p + b)[0];
    } else {
      assert p + a == a && p + b == b;
    }
  }

  /** Deleting a prefix of the longer sequence preserves the relation. */
  lemma {:induction false} SubsequenceDrop<T>(p: seq<T>, a: seq<T>, b: seq<T>)
    requires Subsequence(a, b)
    ensures Subsequence(a, p + b)
  {
    if p != [] {
      SubsequenceDrop(p[1..], a, b);
      assert (p + b)[1..] == p[1..] + b;
      assert a == [] || Subsequence(a, (p + b)[1..]);
    } else {
      assert p + b == b;
    }
  }

  /** Skipping the slice `s[i..e]` keeps a subsequence of `s[e..]` one of `s[i..]`. */
  lemma SubsequenceSkipSlice<T>(a: seq<T>, s: seq<T>, i: nat, e: nat)
    requires i <= e <= |s| && Subsequence(a, s[e..])
    ensures Subsequence(a, s[i..])
  {
    SubsequenceDrop(s[i..e], a, s[e..]);
    assert s[i..e] + s[e..] == s[i..];
  }

  /** Keeping `s[i]` in front extends a subsequence of `s[i + 1..]` to one of `s[i..]`. */
  lemma SubsequenceKeepAt<T>(a: seq<T>, s: seq<T>, i: nat)
    requires i < |s| && Subsequence(a, s[i + 1..])
    ensures Subsequence([s[i]] + a, s[i..])
  {
    SubsequencePrefix([s[i]], a, s[i + 1..]);
    assert [s[i]] + s[i + 1..] == s[i..];
  }

  /** Everything in a subsequence occurs in the sequence. */
  lemma {:induction false} SubsequenceIn<T>(a: seq<T>, b: seq<T>, x: T)
    requires Subsequence(a, b) && x in a
    ensures x in b
    decreases |b|
  {
    if a[0] == b[0] && Subsequence(a[1..], b[1..]) {
      if x != a[0] { SubsequenceIn(a[1..], b[1..], x); }
    } else {
      SubsequenceIn(a, b[1..], x);
    }
  }

  /** `[x for x in xs if keep(x)]` */
  function Filter<T(==,!new)>(xs: seq<T>, keep: T -> bool): (r: seq<T>)
    ensures forall i :: 0 <= i < |r| ==> keep(r[i])
    ensures Subsequence(r, xs)
    ensures forall i :: 0 <= i < |xs| && keep(xs[i]) ==> xs[i] in r
  {
    if xs == [] then []
    else
      var rest := Filter(xs[1..], keep);
      assert forall i :: 1 <= i < |xs| ==> xs[i] == xs[1..][i - 1];
      assert [xs[0]] + xs[1..] == xs;
      if keep(xs[0]) then
        SubsequencePrefix([xs[0]], rest, xs[1..]);
        [xs[0]] + rest
      else
        SubsequenceDrop([xs[0]], rest, xs[1..]);
        rest
  }

  /** The comprehension keeps every passing element as often as it occurs,
      and no other element. */
  lemma {:induction false} FilterCounts<T(!new)>(xs: seq<T>, keep: T -> bool)
    ensures forall x :: multiset(Filter(xs, keep))[x] == if keep(x) then multiset(xs)[x] else 0
  {
    if xs != [] {
      FilterCounts(xs[1..], keep);
      assert [xs[0]] + xs[1..] == xs;
      assert multiset(xs) == multiset([xs[0]]) + multiset(xs[1..]);
    }
  }

  /** Filtering one more element at the end appends it when it is kept. */
  lemma {:induction false} FilterSnoc<T(!new)>(xs: seq<T>, x: T, keep: T -> bool)
    ensures Filter(xs + [x], keep) == Filter(xs, keep) + (if keep(x) then [x] else [])
  {
    if xs != [] {
      assert (xs + [x])[1..] == xs[1..] + [x];
      FilterSnoc(xs[1..], x, keep);
    } else {
      assert xs + [x] == [x];
    }
  }

  /** The images under `f` of the elements `keep` selects, in order: the
      shape of a loop that appends `f(x)` for each kept `x`. */
  function Pick<T(!new), U>(xs: seq<T>, keep: T -> bool, f: T --> U): (r: seq<U>)
    requires forall x :: keep(x) ==> f.requires(x)
  {
    if xs == [] then []
    else
      var last := xs[|xs| - 1];
      Pick(xs[..|xs| - 1], keep, f) + (if keep(last) then [f(last)] else [])
  }

  /** `Pick` maps `f` over exactly the kept elements. */
  lemma {:induction false} PickSpec<T(!new), U>(xs: seq<T>, keep: T -> bool, f: T --> U)
    requires forall x :: keep(x) ==> f.requires(x)
    ensures |Pick(xs, keep, f)| == |Filter(xs, keep)|
    ensures forall n :: 0 <= n < |Pick(xs, keep, f)| ==> Pick(xs, keep, f)[n] == f(Filter(xs, keep)[n])
  {
    if xs != [] {
      var init, last := xs[..|xs| - 1], xs[|xs| - 1];
      PickSpec(init, keep, f);
      assert xs == init + [last];
      FilterSnoc(init, last, keep);
    }
  }

  /** An element of a subsequence of `Pick(xs, keep, f)` is `f` of a kept
      element of `xs`. */
  lemma PickedFrom<T(!new), U>(ys: seq<U>, xs: seq<T>, keep: T -> bool, f: T --> U, y: U)
    requires forall x :: keep(x) ==> f.requires(x)
    requires Subsequence(ys, Pick(xs, keep, f)) && y in ys
    ensures exists x :: x in xs && keep(x) && f(x) == y
  {
    SubsequenceIn(ys, Pick(xs, keep, f), y);
    PickSpec(xs, keep, f);
    var m :| 0 <= m < |Pick(xs, keep, f)| && Pick(xs, keep, f)[m] == y;
    var x := Filter(xs, keep)[m];
    SubsequenceIn(Filter(xs, keep), xs, x);
  }

  lemma PickSnoc<T(!new), U>(xs: seq<T>, x: T, keep: T -> bool, f: T --> U)
    requires forall x :: keep(x) ==> f.requires(x)
    ensures Pick(xs + [x], keep, f) == Pick(xs, keep, f) + (if keep(x) then [f(x)] else [])
  {
    assert (xs + [x])[..|xs|] == xs;
  }

  /** `Pick` of a concatenation is the concatenation of the `Pick`s. */
  lemma {:induction false} PickAppend<T(!new), U>(xs: seq<T>, ys: seq<T>, keep: T -> bool, f: T --> U)
    requires forall x :: keep(x) ==> f.requires(x)
    ensures Pick(xs + ys, keep, f) == Pick(xs, keep, f) + Pick(ys, keep, f)
  {
    if ys == [] {
      assert xs + ys == xs;
    } else {
      var init, last := ys[..|ys| - 1], ys[|ys| - 1];
      PickAppend(xs, init, keep, f);
      assert xs + ys == (xs + init) + [last];
      PickSnoc(xs + init, last, keep, f);
      assert ys == init + [last];
      PickSnoc(init, last, keep, f);
    }
  }

  /** Subsequences of two parts make a subsequence of the whole. */
  /** A list that extends `acc` by a subsequence of `d` is a subsequence of
      `b + d` when `acc` is one of `b`. */
  lemma SubsequenceExtend<T>(acc: seq<T>, r: seq<T>, b: seq<T>, d: seq<T>)
    requires |acc| <= |r| && r[..|acc|] == acc
    requires Subsequence(acc, b) && Subsequence(r[|acc|..], d)
    ensures Subsequence(r, b + d)
  {
    assert r == acc + r[|acc|..];
    SubsequenceConcat(acc, b, r[|acc|..], d);
  }

  lemma {:induction false} SubsequenceConcat<T>(a: seq<T>, b: seq<T>, c: seq<T>, d: seq<T>)
    requires Subsequence(a, b) && Subsequence(c, d)
    ensures Subsequence(a + c, b + d)
    decreases |b|
  {
    if a == [] {
      SubsequenceDrop(b, c, d);
      assert a + c == c;
    } else if a[0] == b[0] && Subsequence(a[1..], b[1..]) {
      SubsequenceConcat(a[1..], b[1..], c, d);
      assert (a + c)[1..] == a[1..] + c;
      assert (b + d)[1..] == b[1..] + d;
    } else {
      SubsequenceConcat(a, b[1..], c, d);
      assert (b + d)[1..] == b[1..] + d;
    }
  }
}

