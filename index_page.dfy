// The index page generator: it reads summary file names of the form
// "Author (Year) Title.html" back into their three parts and builds one
// list item per file name it can read.

module IndexPage {
  import opened Text
  import opened Sorting
  import PaperBot

  /** The directory the summaries live in, relative to the index page. */
  const SummaryDir: string := "summary_htmls"
  const HtmlExt: string := ".html"

  /** Some character of `s[lo..hi]` is not a dot. */
  predicate HasNonDot(s: string, lo: nat, hi: nat)
    requires lo <= hi <= |s|
  {
    exists k :: lo <= k < hi && s[k] != '.'
  }

  /** `os.path.splitext(p)` on POSIX: the extension starts at the last dot of
      the last path component, unless that component is only dots before it. */
  function SplitExt(p: string): (r: (string, string))
    ensures r.0 + r.1 == p
    ensures r.1 == [] || (r.1[0] == '.' && '/' !in r.1 && '.' !in r.1[1..])
  {
    var sep := RFind(p, '/');
    var dot := RFind(p, '.');
    if dot > sep && HasNonDot(p, sep + 1, dot) then
      assert forall k :: 0 <= k < |p[dot..]| ==> p[dot..][k] == p[dot + k];
      (p[..dot], p[dot..])
    else (p, [])
  }

  /** `(dddd)` starts at index `k`. */
  predicate YearAt(s: string, k: nat) {
    k + 6 <= |s| && s[k] == '(' && AllDigits(s[k + 1..k + 5]) && s[k + 5] == ')'
  }

  /** Everything `LeftEnd` skips (`\s*`) is whitespace. */
  lemma {:induction false} LeftEndSkipsSpace(s: string, j: nat)
    requires j <= |s|
    ensures forall k :: j <= k < LeftEnd(s, j) ==> IsSpace(s[k])
    decreases |s| - j
  {
    if j < |s| && IsSpace(s[j]) {
      LeftEndSkipsSpace(s, j + 1);
    }
  }

  /** The end of the line containing index `i` (`.` does not match `\n`). */
  function LineEnd(s: string, i: nat): (r: nat)
    requires i <= |s|
    ensures i <= r <= |s| && (r == |s| || s[r] == '\n')
    decreases |s| - i
  {
    if i < |s| && s[i] != '\n' then LineEnd(s, i + 1) else i
  }

  /** No line break before `LineEnd`. */
  lemma {:induction false} LineEndClear(s: string, i: nat, j: nat)
    requires i <= |s| && i <= j <= LineEnd(s, i)
    ensures '\n' !in s[i..j]
    decreases |s| - i
  {
    if i < j {
      LineEndClear(s, i + 1, j);
      assert s[i..j] == [s[i]] + s[i + 1..j];
    }
  }

  /** A whole line without a break runs to the end. */
  lemma OneLineEnd(s: string, i: nat)
    requires i <= |s| && '\n' !in s[i..]
    ensures LineEnd(s, i) == |s|
  {
  }

  /** The pattern `\s*\((\d{4})\)` matches at `j`. */
  predicate MatchFrom(s: string, j: nat)
    requires j <= |s|
  {
    YearAt(s, LeftEnd(s, j))
  }

  /** The lazy `(.*?)`: the least author length from `j` up to `limit`, the
      end of the first line, at which the year group matches. */
  function FindMatch(s: string, j: nat, limit: nat): (r: Option<nat>)
    requires limit <= |s|
    ensures r.Some? ==> j <= r.value <= limit && MatchFrom(s, r.value)
    decreases limit + 1 - j
  {
    if j > limit then None
    else if MatchFrom(s, j) then Some(j)
    else FindMatch(s, j + 1, limit)
  }

  /** `FindMatch` returns the least matching position, and `None` only when
      nothing up to `limit` matches. */
  lemma {:induction false} FindMatchLeast(s: string, j: nat, limit: nat)
    requires limit <= |s|
    ensures FindMatch(s, j, limit).Some? ==> forall m :: j <= m < FindMatch(s, j, limit).value ==> !MatchFrom(s, m)
    ensures FindMatch(s, j, limit).None? ==> forall m :: j <= m <= limit ==> !MatchFrom(s, m)
    decreases limit + 1 - j
  {
    if j <= limit && !MatchFrom(s, j) {
      FindMatchLeast(s, j + 1, limit);
    }
  }

  datatype Parsed = Parsed(author: string, year: string, title: string)

  /** The three groups once the author group ends at `j`, each stripped. */
  function Groups(base: string, j: nat): (r: Parsed)
    requires j <= |base| && MatchFrom(base, j)
    ensures IsStripped(r.author) && IsStripped(r.title)
    ensures |r.year| == 4 && AllDigits(r.year)
  {
    var k := LeftEnd(base, j);
    // Stripping the year group is the identity: it is four digits.
    Parsed(Strip(base[..j]), base[k + 1..k + 5], TitleAfter(base, k + 6))
  }

  /** `re.match(r'(.*?)\s*\((\d{4})\)\s*(.*)', base)` with each group stripped. */
  function ParseBase(base: string): (r: Option<Parsed>)
    ensures r.Some? ==> IsStripped(r.value.author) && IsStripped(r.value.title)
    ensures r.Some? ==> |r.value.year| == 4 && AllDigits(r.value.year)
  {
    var found := FindMatch(base, 0, LineEnd(base, 0));
    if found.None? then None else Some(Groups(base, found.value))
  }

  /** `.` stops at a line break: neither the author nor the title of a match
      holds one. */
  lemma ParseBaseOneLine(base: string)
    requires ParseBase(base).Some?
    ensures '\n' !in ParseBase(base).value.author && '\n' !in ParseBase(base).value.title
  {
    var j := FindMatch(base, 0, LineEnd(base, 0)).value;
    AuthorOneLine(base, j);
    TitleOneLine(base, LeftEnd(base, j) + 6);
  }

  lemma AuthorOneLine(s: string, j: nat)
    requires j <= LineEnd(s, 0)
    ensures '\n' !in Strip(s[..j])
  {
    OneLineStrip(s, 0, j);
    assert s[0..j] == s[..j];
  }

  lemma TitleOneLine(s: string, i: nat)
    requires i <= |s|
    ensures '\n' !in TitleAfter(s, i)
  {
    var m := LeftEnd(s, i);
    OneLineStrip(s, m, LineEnd(s, m));
  }

  lemma OneLineStrip(s: string, i: nat, j: nat)
    requires i <= |s| && i <= j <= LineEnd(s, i)
    ensures '\n' !in Strip(s[i..j])
  {
    LineEndClear(s, i, j);
    StripKeepsOut(s[i..j], '\n');
  }


  /** The extension-less name `parse_filename` matches against. */
  function Root(filename: string): string {
    SplitExt(filename).0
  }

  /** `parse_filename` */
  function ParseFilename(filename: string): Option<Parsed> {
    ParseBase(Root(filename))
  }

  /** `str.strip()` adds no character. */
  lemma StripKeepsOut(s: string, c: char)
    requires c !in s
    ensures c !in Strip(s)
  {
    StripIsSlice(s);
    var a := StripStart(s);
    var t := Strip(s);
    forall i | 0 <= i < |t| ensures t[i] != c {
      assert t[i] == s[a + i];
    }
  }

  // ---- An independent description of the match: the leftmost `(dddd)` ----

  /** The first `k >= i` at which `(dddd)` starts. */
  function FirstYear(s: string, i: nat): (r: Option<nat>)
    ensures r.Some? ==> i <= r.value && YearAt(s, r.value)
    decreases |s| - i
  {
    if i + 6 > |s| then None
    else if YearAt(s, i) then Some(i)
    else FirstYear(s, i + 1)
  }

  /** Nothing before the first `(dddd)` is one, and `None` means none at all. */
  lemma {:induction false} FirstYearLeast(s: string, i: nat)
    ensures FirstYear(s, i).Some? ==> forall k :: i <= k < FirstYear(s, i).value ==> !YearAt(s, k)
    ensures FirstYear(s, i).None? ==> forall k :: i <= k ==> !YearAt(s, k)
    decreases |s| - i
  {
    if i + 6 <= |s| && !YearAt(s, i) {
      FirstYearLeast(s, i + 1);
    }
  }

  /** A name matches iff a `(dddd)`, possibly after whitespace, begins at or
      before the end of its first line. */
  lemma ParseBaseSome(base: string)
    ensures ParseBase(base).Some? <==>
      exists j :: 0 <= j <= LineEnd(base, 0) && MatchFrom(base, j)
  {
    FindMatchLeast(base, 0, LineEnd(base, 0));
  }

  /** On a one-line name `parse_filename` fails exactly when the name holds
      no `(dddd)`. */
  lemma ParseFilenameNone(filename: string)
    requires '\n' !in Root(filename)
    ensures ParseFilename(filename).None? <==> FirstYear(Root(filename), 0).None?
  {
    var base := Root(filename);
    var limit := LineEnd(base, 0);
    assert base[0..] == base;
    OneLineEnd(base, 0);
    FindMatchLeast(base, 0, limit);
    FirstYearLeast(base, 0);
    if FirstYear(base, 0).Some? {
      var k := FirstYear(base, 0).value;
      assert LeftEnd(base, k) == k;
      assert MatchFrom(base, k);
    }
  }

  /** The year is the leftmost `(dddd)` of the name, and the author is the
      stripped text before it. */
  lemma ParseBaseLeftmost(base: string)
    requires ParseBase(base).Some?
    ensures FirstYear(base, 0).Some?
    ensures ParseBase(base).value.year == base[FirstYear(base, 0).value + 1..FirstYear(base, 0).value + 5]
    ensures ParseBase(base).value.author == Strip(base[..FirstYear(base, 0).value])
    ensures ParseBase(base).value.title == TitleAfter(base, FirstYear(base, 0).value + 6)
  {
    var j := FindMatch(base, 0, LineEnd(base, 0)).value;
    var k := LeftEnd(base, j);
    LeftmostMatch(base, j, k);
    assert FirstYear(base, 0).value == k;
    assert ParseBase(base).value == Groups(base, j);
    StripBeforeSpace(base, j, k);
  }

  /** The stripped rest of the line once whitespace after `i` is skipped
      (`\s*(.*)`). */
  function TitleAfter(s: string, i: nat): string
    requires i <= |s|
  {
    var m := LeftEnd(s, i);
    Strip(s[m..LineEnd(s, m)])
  }

  lemma StripBeforeSpace(s: string, j: nat, k: nat)
    requires j <= k <= |s| && AllSpace(s[j..k])
    ensures Strip(s[..j]) == Strip(s[..k])
  {
    assert s[..k] == s[..j] + s[j..k];
    StripAppendSpace(s[..j], s[j..k]);
  }

  /** The first match position skips to the leftmost `(dddd)`. */
  lemma LeftmostMatch(base: string, j: nat, k: nat)
    requires FindMatch(base, 0, LineEnd(base, 0)) == Some(j)
    requires k == LeftEnd(base, j)
    ensures FirstYear(base, 0) == Some(k)
    ensures AllSpace(base[j..k])
  {
    FindMatchLeast(base, 0, LineEnd(base, 0));
    LeftEndSkipsSpace(base, j);
    forall k' | 0 <= k' < k ensures !YearAt(base, k') {
      if k' < j {
        assert !MatchFrom(base, k');
      } else {
        assert IsSpace(base[k']);
        assert base[k'] != '(';
      }
    }
    FirstYearUnique(base, 0, k);
  }

  lemma {:induction false} FirstYearUnique(s: string, i: nat, k: nat)
    requires i <= k && YearAt(s, k) && forall k' :: i <= k' < k ==> !YearAt(s, k')
    ensures FirstYear(s, i) == Some(k)
    decreases k - i
  {
    if i < k {
      FirstYearUnique(s, i + 1, k);
    }
  }

  // ---- Round trip with the names the PDF pipeline saves ----

  /** No `(dddd)` anywhere in `s`. */
  ghost predicate NoYear(s: string) {
    forall k: nat :: !YearAt(s, k)
  }

  /** `(dddd)` inside `u` and starting before `|u|` in `u + v` lies wholly in
      `u` unless it reaches into `v`. */
  lemma YearInPrefix(u: string, v: string, k: nat)
    requires YearAt(u + v, k) && k + 6 <= |u|
    ensures YearAt(u, k)
  {
    assert (u + v)[k + 1..k + 5] == u[k + 1..k + 5];
  }

  lemma YearInSuffix(u: string, v: string, k: nat)
    requires YearAt(u + v, k) && |u| <= k
    ensures YearAt(v, k - |u|)
  {
    assert (u + v)[k + 1..k + 5] == v[k - |u| + 1..k - |u| + 5];
  }

  /** The saved name `a (y) t` has its year group right after `a `. */
  lemma ComposedNameYear(a: string, y: string, t: string)
    requires NoYear(a) && |y| == 4 && AllDigits(y)
    ensures FirstYear(PaperBot.ComposedName(a, y, t), 0) == Some(|a| + 1)
  {
    var s := PaperBot.ComposedName(a, y, t);
    var sep := " (" + y + ") ";
    assert s == a + (sep + t);
    assert s[|a| + 2..|a| + 6] == y;
    forall k: nat | k < |a| + 1 ensures !YearAt(s, k) {
      if k + 6 <= |a| {
        NoYearInPrefix(a, sep + t, k);
      } else {
        DigitGap(s, a, y, t, k);
      }
    }
    FirstYearUnique(s, 0, |a| + 1);
  }

  lemma NoYearInPrefix(u: string, v: string, k: nat)
    requires NoYear(u) && k + 6 <= |u|
    ensures !YearAt(u + v, k)
  {
    assert (u + v)[k + 1..k + 5] == u[k + 1..k + 5];
    assert !YearAt(u, k);
  }

  /** A `(dddd)` starting in the last five characters of `a`, or right
      after it, would need the space after `a` as `(`, a digit or `)`. */
  lemma DigitGap(s: string, a: string, y: string, t: string, k: nat)
    requires s == PaperBot.ComposedName(a, y, t) && |a| < k + 6 && k <= |a|
    ensures !YearAt(s, k)
  {
    assert s[|a|] == ' ';
  }

  /** Reading back a saved name: for an author without `(dddd)` or line
      break, a four-digit year and a one-line title without `/`, the name
      `a (y) t.html` parses to `(a, y, t)`. */
  lemma ParseComposedName(a: string, y: string, t: string)
    requires IsStripped(a) && '\n' !in a && NoYear(a)
    requires |y| == 4 && AllDigits(y)
    requires IsStripped(t) && '\n' !in t && '/' !in t
    ensures ParseFilename(PaperBot.ComposedName(a, y, t) + HtmlExt) == Some(Parsed(a, y, t))
  {
    var s := PaperBot.ComposedName(a, y, t);
    ComposedNameSplit(a, y, t);
    assert ParseFilename(s + HtmlExt) == ParseBase(s);
    ParseComposedBase(a, y, t);
  }

  lemma ParseComposedBase(a: string, y: string, t: string)
    requires IsStripped(a) && '\n' !in a && NoYear(a)
    requires |y| == 4 && AllDigits(y)
    requires IsStripped(t) && '\n' !in t
    ensures ParseBase(PaperBot.ComposedName(a, y, t)) == Some(Parsed(a, y, t))
  {
    var s := PaperBot.ComposedName(a, y, t);
    ComposedNameYear(a, y, t);
    ComposedNameOneLine(a, y, t);
    assert s[0..] == s;
    OneLineEnd(s, 0);
    assert LeftEnd(s, |a| + 1) == |a| + 1;
    assert MatchFrom(s, |a| + 1);
    ParseBaseSome(s);
    ParseBaseLeftmost(s);
    var p := ParseBase(s).value;
    ComposedNameSlices(a, y, t);
    StripAppendSpace(a, " ");
    StripStripped(a);
    assert p.author == a;
    assert p.year == y;
    ComposedNameTitle(a, y, t);
    assert p.title == t;
  }

  lemma ComposedNameSlices(a: string, y: string, t: string)
    requires |y| == 4
    ensures PaperBot.ComposedName(a, y, t)[..|a| + 1] == a + " "
    ensures PaperBot.ComposedName(a, y, t)[|a| + 2..|a| + 6] == y
  {
    var s := PaperBot.ComposedName(a, y, t);
    assert s == (a + " ") + ("(" + y + ") " + t);
    assert s == (a + " (") + y + (") " + t);
  }

  /** `os.path.splitext` removes exactly the `.html` of a saved name. */
  lemma ComposedNameSplit(a: string, y: string, t: string)
    requires AllDigits(y) && '/' !in t
    ensures Root(PaperBot.ComposedName(a, y, t) + HtmlExt) == PaperBot.ComposedName(a, y, t)
  {
    var s := PaperBot.ComposedName(a, y, t);
    var p := s + HtmlExt;
    assert p[|s|] == '.';
    var dot := RFind(p, '.');
    assert dot == |s|;
    var sep := RFind(p, '/');
    var tail := "(" + y + ") " + t;
    assert s == a + " " + tail;
    assert '/' !in tail;
    assert sep < |a| + 1;
    assert p[|a| + 1] == '(';
    assert HasNonDot(p, sep + 1, dot);
  }

  lemma ComposedNameOneLine(a: string, y: string, t: string)
    requires '\n' !in a && '\n' !in t && AllDigits(y)
    ensures '\n' !in PaperBot.ComposedName(a, y, t)
  {
  }

  /** The title group of a saved name is its title. */
  lemma ComposedNameTitle(a: string, y: string, t: string)
    requires |y| == 4 && IsStripped(t) && '\n' !in t
    ensures TitleAfter(PaperBot.ComposedName(a, y, t), |a| + 7) == t
  {
    var s := PaperBot.ComposedName(a, y, t);
    var i := |a| + 7;
    assert s == (a + " (" + y + ")") + (" " + t);
    assert s[i..] == " " + t;
    TitleAfterSpace(s, i, t);
    OneLineEnd(s, i + 1);
    StripStripped(t);
  }

  lemma TitleAfterSpace(s: string, i: nat, t: string)
    requires i < |s| && s[i..] == " " + t && IsStripped(t)
    ensures LeftEnd(s, i) == i + 1 && s[i + 1..] == t
  {
    assert s[i] == ' ';
    if t != [] {
      assert s[i + 1] == t[0];
    }
    assert s[i + 1..] == s[i..][1..];
  }

  /** A name saved without a year, `a (__) t.html`, is never listed, unless
      the author or the title itself holds a `(dddd)`. */
  lemma UndatedNeverListed(a: string, t: string)
    requires NoYear(a) && NoYear(t)
    ensures ParseFilename(PaperBot.ComposedName(a, "__", t) + HtmlExt).None?
  {
    var s := PaperBot.ComposedName(a, "__", t) + HtmlExt;
    var base := Root(s);
    assert NoYear(s) by {
      forall k: nat ensures !YearAt(s, k) {
        UndatedWindow(a, t, k);
      }
    }
    assert s == base + SplitExt(s).1;
    forall k: nat ensures !YearAt(base, k) {
      if YearAt(base, k) {
        assert base[k + 1..k + 5] == s[k + 1..k + 5];
        assert YearAt(s, k);
      }
    }
  }

  lemma UndatedWindow(a: string, t: string, k: nat)
    requires NoYear(a) && NoYear(t)
    ensures !YearAt(PaperBot.ComposedName(a, "__", t) + HtmlExt, k)
  {
    var sep := " (__) ";
    var s := PaperBot.ComposedName(a, "__", t) + HtmlExt;
    assert s == a + (sep + t + HtmlExt);
    assert s == (a + sep) + (t + HtmlExt);
    if YearAt(s, k) {
      if k + 6 <= |a| {
        YearInPrefix(a, sep + t + HtmlExt, k);
      } else if k < |a| + 6 {
        UndatedSeparator(s, a, t, k);
      } else {
        YearInSuffix(a + sep, t + HtmlExt, k);
        var k2: nat := k - |a + sep|;
        if k2 + 6 <= |t| {
          YearInPrefix(t, HtmlExt, k2);
        }
      }
    }
  }

  /** No `(dddd)` can use a character of ` (__) `. */
  lemma UndatedSeparator(s: string, a: string, t: string, k: nat)
    requires s == PaperBot.ComposedName(a, "__", t) + HtmlExt
    requires |a| < k + 6 && k < |a| + 6
    ensures !YearAt(s, k)
  {
    assert s == a + " (__) " + (t + HtmlExt);
    assert s[|a|] == ' ' && s[|a| + 1] == '(' && s[|a| + 2] == '_';
    assert s[|a| + 3] == '_' && s[|a| + 4] == ')' && s[|a| + 5] == ' ';
  }

  // ---- The list of the index page ----

  /** `os.path.join(a, b)` on POSIX for two components. */
  function PathJoin(a: string, b: string): (r: string)
    ensures IsSuffix(b, r)
  {
    if b != [] && b[0] == '/' then b
    else if a == [] || a[|a| - 1] == '/' then a + b
    else a + "/" + b
  }

  predicate IsHtml(name: string) {
    IsSuffix(HtmlExt, name)
  }

  /** `sorted(f for f in listing if f.endswith('.html'))` */
  function HtmlFiles(listing: seq<string>): (r: seq<string>)
  {
    SortStrings(Filter(listing, (f: string) => IsHtml(f)))
  }

  predicate Parses(name: string) {
    ParseFilename(name).Some?
  }

  /** The files that get a list item, in listing order. */
  function Listed(files: seq<string>): (r: seq<string>)
    ensures forall i :: 0 <= i < |r| ==> Parses(r[i])
    ensures Subsequence(r, files)
    ensures forall i :: 0 <= i < |files| && Parses(files[i]) ==> files[i] in r
    ensures forall f :: multiset(r)[f] == if Parses(f) then multiset(files)[f] else 0
  {
    FilterCounts(files, ListsName);
    Filter(files, ListsName)
  }

  /** `<li><a href="summary_htmls/F">A (Y) T</a></li>` */
  function ItemHtml(filename: string, p: Parsed): string {
    "<li><a href=\"" + PathJoin(SummaryDir, filename) + "\">" +
    PaperBot.ComposedName(p.author, p.year, p.title) + "</a></li>"
  }

  function ItemOf(filename: string): string
    requires Parses(filename)
  {
    ItemHtml(filename, ParseFilename(filename).value)
  }

  /** The filter condition and the item of the list loop, as named values. */
  const ListsName: string -> bool := (f: string) => Parses(f)
  const ItemFor: string --> string := (f: string) requires Parses(f) => ItemOf(f)

  /** The items for `files`, built in file order. */
  function Items(files: seq<string>): seq<string>
  {
    Pick(files, ListsName, ItemFor)
  }

  /** The loop step: a parsed name adds its item, any other adds nothing. */
  lemma ItemsSnoc(files: seq<string>, i: nat)
    requires i < |files|
    ensures Items(files[..i + 1]) ==
      Items(files[..i]) + if ParseFilename(files[i]).Some? then [ItemHtml(files[i], ParseFilename(files[i]).value)] else []
  {
    assert files[..i + 1] == files[..i] + [files[i]];
    PickSnoc(files[..i], files[i], ListsName, ItemFor);
  }

  /** One item per listed file, in the same order. */
  lemma ItemsSpec(files: seq<string>)
    ensures |Items(files)| == |Listed(files)|
    ensures forall n :: 0 <= n < |Items(files)| ==> Items(files)[n] == ItemOf(Listed(files)[n])
  {
    PickSpec(files, ListsName, ItemFor);
  }

  /** The list of `generate_index_page`: sorted `.html` names, unparsed
      names skipped, one item per remaining name. */
  method IndexItems(listing: seq<string>) returns (items: seq<string>)
    ensures |items| == |Listed(HtmlFiles(listing))|
    ensures forall i :: 0 <= i < |items| ==> items[i] == ItemOf(Listed(HtmlFiles(listing))[i])
  {
    var files := HtmlFiles(listing);
    items := [];
    for i := 0 to |files|
      invariant items == Items(files[..i])
    {
      var parsed := ParseFilename(files[i]);
      ItemsSnoc(files, i);
      if parsed.Some? {
        items := items + [ItemHtml(files[i], parsed.value)];
      }
    }
    assert files[..|files|] == files;
    ItemsSpec(files);
  }

  /** The listed names are `.html` names of the listing, in ascending order,
      and every parseable `.html` name of the listing is among them. */
  lemma ListedSpec(listing: seq<string>)
    ensures forall i, j :: 0 <= i < j < |Listed(HtmlFiles(listing))| ==>
      StrLe(Listed(HtmlFiles(listing))[i], Listed(HtmlFiles(listing))[j])
    ensures forall f :: f in Listed(HtmlFiles(listing)) ==> f in listing && IsHtml(f) && Parses(f)
    ensures forall f :: f in listing && IsHtml(f) && Parses(f) ==> f in Listed(HtmlFiles(listing))
  {
    var html := Filter(listing, (f: string) => IsHtml(f));
    var files := HtmlFiles(listing);
    var l := Listed(files);
    SortStringsSpec(html);
    SubsequenceSorted(l, files);
    forall f | f in l ensures f in listing && IsHtml(f) && Parses(f) {
      SubsequenceIn(l, files, f);
      assert f in multiset(files);
      assert f in html;
      SubsequenceIn(html, listing, f);
    }
    forall f | f in listing && IsHtml(f) && Parses(f) ensures f in l {
      var i :| 0 <= i < |listing| && listing[i] == f;
      assert f in html;
      assert f in multiset(files);
      var n :| 0 <= n < |files| && files[n] == f;
    }
  }

  /** A subsequence of an ascending list is ascending. */
  lemma {:induction false} SubsequenceSorted(a: seq<string>, b: seq<string>)
    requires Subsequence(a, b)
    requires forall i, j :: 0 <= i < j < |b| ==> StrLe(b[i], b[j])
    ensures forall i, j :: 0 <= i < j < |a| ==> StrLe(a[i], a[j])
  {
    if a != [] && b != [] {
      var b' := b[1..];
      assert forall i, j :: 0 <= i < j < |b'| ==> StrLe(b'[i], b'[j]) by {
        forall i, j | 0 <= i < j < |b'| ensures StrLe(b'[i], b'[j]) {
          assert b'[i] == b[i + 1] && b'[j] == b[j + 1];
        }
      }
      if a[0] == b[0] && Subsequence(a[1..], b') {
        SubsequenceSorted(a[1..], b');
        forall j | 0 < j < |a| ensures StrLe(a[0], a[j]) {
          SubsequenceIn(a[1..], b', a[j]);
          assert a[1..][j - 1] == a[j];
          var n :| 0 <= n < |b'| && b'[n] == a[j];
          assert b[n + 1] == a[j];
        }
        forall i, j | 0 < i < j < |a| ensures StrLe(a[i], a[j]) {
          assert a[1..][i - 1] == a[i] && a[1..][j - 1] == a[j];
        }
      } else {
        SubsequenceSorted(a, b');
      }
    }
  }
}
