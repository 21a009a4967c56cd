// The daily digest script: summaries are cleaned of markup and cut short,
// feed entries are filtered by keyword and de-duplicated by link, and the
// found items are sorted and grouped by the feed they came from. Fetching
// the feeds, formatting dates and writing the Markdown file are outside
// the model: a fetched feed is a list of entries, a date is given already
// formatted.

module Digest {
  import opened Text
  import opened Sorting

  // ---- clean_summary ----

  const NoSummary := "No summary available."
  const SummaryLimit := 350
  const Ellipsis := "..."

  /** The first index at or after `i` holding `>` or a line break, or `|s|`:
      where the lazy `.*?` of `<.*?>` stops. */
  function TagStop(s: string, i: nat): (r: nat)
    requires i <= |s|
    ensures i <= r <= |s| && (r == |s| || s[r] == '>' || s[r] == '\n')
    decreases |s| - i
  {
    if i == |s| || s[i] == '>' || s[i] == '\n' then i else TagStop(s, i + 1)
  }

  lemma {:induction false} TagStopClear(s: string, i: nat, j: nat)
    requires i <= j < |s| && j < TagStop(s, i)
    ensures s[j] != '>' && s[j] != '\n'
    decreases |s| - i
  {
    if i < j {
      TagStopClear(s, i + 1, j);
    }
  }

  /** Every start between `i` and the stop stops at the same place. */
  lemma {:induction false} TagStopSame(s: string, i: nat, j: nat)
    requires i <= j <= |s| && j <= TagStop(s, i)
    ensures TagStop(s, j) == TagStop(s, i)
    decreases j - i
  {
    if i < j {
      TagStopSame(s, i + 1, j);
    }
  }

  /** `<.*?>` matches at `i`: a `<`, then a `>` before any line break. */
  predicate TagAt(s: string, i: nat) {
    i < |s| && s[i] == '<' && TagStop(s, i + 1) < |s| && s[TagStop(s, i + 1)] == '>'
  }

  ghost predicate NoTag(s: string) {
    forall k: nat :: !TagAt(s, k)
  }

  /** `re.sub('<.*?>', '', s[i..])`, scanning left to right. */
  function StripTagsFrom(s: string, i: nat): (r: string)
    requires i <= |s|
    decreases |s| - i
  {
    if i == |s| then []
    else if TagAt(s, i) then StripTagsFrom(s, TagStop(s, i + 1) + 1)
    else [s[i]] + StripTagsFrom(s, i + 1)
  }

  function StripTags(s: string): (r: string) {
    StripTagsFrom(s, 0)
  }

  /** Tag removal only deletes characters. */
  lemma {:induction false} StripTagsFromSubsequence(s: string, i: nat)
    requires i <= |s|
    ensures Subsequence(StripTagsFrom(s, i), s[i..])
    decreases |s| - i
  {
    if i < |s| {
      if TagAt(s, i) {
        var e := TagStop(s, i + 1) + 1;
        StripTagsFromSubsequence(s, e);
        SubsequenceSkipSlice(StripTagsFrom(s, e), s, i, e);
      } else {
        StripTagsFromSubsequence(s, i + 1);
        SubsequenceKeepAt(StripTagsFrom(s, i + 1), s, i);
      }
    }
  }

  /** Text without a complete tag passes unchanged. */
  lemma {:induction false} StripTagsFromNoTag(s: string, i: nat)
    requires i <= |s| && NoTag(s)
    ensures StripTagsFrom(s, i) == s[i..]
    decreases |s| - i
  {
    if i < |s| {
      assert !TagAt(s, i);
      StripTagsFromNoTag(s, i + 1);
      assert [s[i]] + s[i + 1..] == s[i..];
    }
  }

  /** Characters that open no tag are kept as they are. */
  lemma {:induction false} KeptRun(s: string, j: nat, e: nat)
    requires j <= e <= |s|
    requires forall n :: j <= n < e ==> !TagAt(s, n)
    ensures StripTagsFrom(s, j) == s[j..e] + StripTagsFrom(s, e)
    decreases e - j
  {
    if j < e {
      assert !TagAt(s, j);
      KeptRun(s, j + 1, e);
      var rest := StripTagsFrom(s, e);
      assert [s[j]] + (s[j + 1..e] + rest) == ([s[j]] + s[j + 1..e]) + rest;
      assert [s[j]] + s[j + 1..e] == s[j..e];
    }
  }

  /** A `<` that opens no tag is kept together with the rest of its line:
      no tag can end before the line break either. */
  lemma RunOpensNoTag(s: string, i: nat, n: nat)
    requires i < |s| && s[i] == '<' && !TagAt(s, i)
    requires i <= n < TagStop(s, i + 1)
    ensures !TagAt(s, n)
  {
    if i < n {
      TagStopSame(s, i + 1, n + 1);
    }
  }

  lemma TagStopShift(w: string, u: string, k: nat)
    requires k <= |u|
    ensures TagStop(w + u, |w| + k) == |w| + TagStop(u, k)
    decreases |u| - k
  {
    if k < |u| && u[k] != '>' && u[k] != '\n' {
      TagStopShift(w, u, k + 1);
    }
  }

  /** Prepending text moves the tags of `u` along with it. */
  lemma TagAtShift(w: string, u: string, k: nat)
    ensures TagAt(w + u, |w| + k) == TagAt(u, k)
  {
    if k < |u| {
      TagStopShift(w, u, k + 1);
    }
  }

  /** A stop inside `w` that finds no `>` or line break runs on into `u`. */
  lemma {:induction false} TagStopIntoSuffix(w: string, u: string, k: nat)
    requires k <= |w| && forall n :: k <= n < |w| ==> w[n] != '>' && w[n] != '\n'
    ensures TagStop(w + u, k) == |w| + TagStop(u, 0)
    decreases |w| - k
  {
    if k < |w| {
      TagStopIntoSuffix(w, u, k + 1);
    } else {
      TagStopShift(w, u, 0);
    }
  }

  /** `w` has no `>` and no line break after its first character. */
  predicate RunClear(w: string) {
    forall n :: 0 < n < |w| ==> w[n] != '>' && w[n] != '\n'
  }

  /** No `<` of `w` opens a tag in `w + u` when `w` has no `>` or line
      break after its first character and `u` is empty or opens a line. */
  lemma NoTagInRun(w: string, u: string, k: nat)
    requires RunClear(w)
    requires u == [] || u[0] == '\n'
    requires k < |w|
    ensures !TagAt(w + u, k)
  {
    TagStopIntoSuffix(w, u, k + 1);
  }

  lemma NoTagCons(c: char, u: string)
    requires c != '<' && NoTag(u)
    ensures NoTag([c] + u)
  {
    forall k: nat ensures !TagAt([c] + u, k) {
      if k > 0 {
        TagAtShift([c], u, k - 1);
      }
    }
  }

  /** After `re.sub('<.*?>', ...)` no complete tag is left. */
  lemma {:induction false} StripTagsFromNoTagLeft(s: string, i: nat)
    requires i <= |s|
    ensures NoTag(StripTagsFrom(s, i))
    decreases |s| - i
  {
    if i < |s| {
      if TagAt(s, i) {
        StripTagsFromNoTagLeft(s, TagStop(s, i + 1) + 1);
      } else if s[i] != '<' {
        StripTagsFromNoTagLeft(s, i + 1);
        NoTagCons(s[i], StripTagsFrom(s, i + 1));
      } else {
        StripTagsFromNoTagLeft(s, TagStop(s, i + 1));
        OpenRunNoTag(s, i);
      }
    }
  }

  /** The text kept from a `<` that opens no tag: its run up to the next line
      break or the end, then what is kept after that. */
  lemma OpenRunNoTag(s: string, i: nat)
    requires i < |s| && s[i] == '<' && !TagAt(s, i)
    requires NoTag(StripTagsFrom(s, TagStop(s, i + 1)))
    ensures NoTag(StripTagsFrom(s, i))
  {
    var e := TagStop(s, i + 1);
    forall n | i <= n < e ensures !TagAt(s, n) {
      RunOpensNoTag(s, i, n);
    }
    KeptRun(s, i, e);
    OpenRunEnd(s, i);
    OpenRunClear(s, i);
    RunThenNoTag(s[i..e], StripTagsFrom(s, e));
  }

  /** A run with no `>` or line break after its first character, followed
      by tag-free text that is empty or opens a line, holds no tag. */
  lemma RunThenNoTag(w: string, u: string)
    requires RunClear(w)
    requires u == [] || u[0] == '\n'
    requires NoTag(u)
    ensures NoTag(w + u)
  {
    forall k: nat ensures !TagAt(w + u, k) {
      if k < |w| {
        NoTagInRun(w, u, k);
      } else {
        TagAtShift(w, u, k - |w|);
      }
    }
  }

  /** What follows that run starts with the line break that ended it. */
  lemma OpenRunEnd(s: string, i: nat)
    requires i < |s| && s[i] == '<' && !TagAt(s, i)
    ensures StripTagsFrom(s, TagStop(s, i + 1)) == [] || StripTagsFrom(s, TagStop(s, i + 1))[0] == '\n'
  {
    var e := TagStop(s, i + 1);
    if e < |s| {
      assert s[e] == '\n';
      assert !TagAt(s, e);
    }
  }

  /** Inside that run, after the `<`, there is no `>` and no line break. */
  lemma OpenRunClear(s: string, i: nat)
    requires i < |s|
    ensures RunClear(s[i..TagStop(s, i + 1)])
  {
    var e := TagStop(s, i + 1);
    var w := s[i..e];
    forall n | 0 < n < |w| ensures w[n] != '>' && w[n] != '\n' {
      TagStopClear(s, i + 1, i + n);
    }
  }

  /** Tag removal keeps no tag, deletes only, and is idempotent. */
  lemma StripTagsSpec(s: string)
    ensures NoTag(StripTags(s))
    ensures Subsequence(StripTags(s), s)
    ensures StripTags(StripTags(s)) == StripTags(s)
  {
    StripTagsFromNoTagLeft(s, 0);
    StripTagsFromSubsequence(s, 0);
    assert s[0..] == s;
    StripTagsFromNoTag(StripTags(s), 0);
    assert StripTags(s)[0..] == StripTags(s);
  }

  /** The pattern has no DOTALL flag: a tag spread over two lines survives
      the removal, and the whitespace collapse then makes it a tag again. */
  lemma TagOverLineBreak()
    ensures CleanSummary("<p\n>") == "<p >"
    ensures TagAt("<p >", 0)
  {
    ExampleCollapsed();
    ExampleTag();
  }

  lemma ExampleTag()
    ensures TagAt("<p >", 0)
  {
    var t := "<p >";
    assert TagStop(t, 3) == 3;
    assert TagStop(t, 1) == 3;
  }

  lemma ExampleCollapsed()
    ensures Collapsed("<p\n>") == "<p >"
  {
    var s := "<p\n>";
    ExampleNoTag();
    StripTagsFromNoTag(s, 0);
    assert s[0..] == s;
    ExampleWords();
    var ws: seq<string> := ["<p", ">"];
    assert ws[1..] == [">"];
    assert Join(ws, " ") == "<p" + " " + ">";
  }

  lemma ExampleNoTag()
    ensures NoTag("<p\n>")
  {
    var s := "<p\n>";
    assert TagStop(s, 1) == 2;
    forall k: nat ensures !TagAt(s, k) {
      if 0 < k < |s| {
        assert s[k] != '<';
      }
    }
  }

  lemma ExampleWords()
    ensures Words("<p\n>") == ["<p", ">"]
  {
    var s := "<p\n>";
    assert IsSpace(s[2]) && !IsSpace(s[0]) && !IsSpace(s[1]) && !IsSpace(s[3]);
    assert s[0..2] == "<p" && s[3..4] == ">";
    assert WordsFrom(s, 4) == [];
    assert WordsFrom(s, 2) == [">"];
  }

  /** `' '.join(t.split())` cut to 350 characters plus `...` when longer. */
  function Truncate(t: string): (r: string)
    ensures |r| <= SummaryLimit + |Ellipsis|
    ensures |t| <= SummaryLimit ==> r == t
    ensures |t| > SummaryLimit ==>
      |r| == SummaryLimit + |Ellipsis| && IsPrefix(r[..SummaryLimit], t) && r[SummaryLimit..] == Ellipsis
  {
    if |t| > SummaryLimit then t[..SummaryLimit] + Ellipsis else t
  }

  /** `clean_summary`: markup removed, whitespace collapsed, cut short. */
  function CleanSummary(summary: string): (r: string)
  {
    if summary == [] then NoSummary else Truncate(Collapsed(summary))
  }

  /** `' '.join(re.sub('<.*?>', '', summary).split())` */
  function Collapsed(summary: string): string {
    CollapseSpaces(StripTags(summary))
  }

  /** The summary lemma: an empty summary gets the placeholder; otherwise
      the text is the tag-free summary with whitespace collapsed, cut to
      350 characters plus `...` when longer. */
  lemma CleanSummarySpec(summary: string)
    ensures summary == [] ==> CleanSummary(summary) == NoSummary
    ensures |CleanSummary(summary)| <= SummaryLimit + |Ellipsis|
    ensures summary != [] ==>
      SingleSpaced(Collapsed(summary)) && IsStripped(Collapsed(summary)) &&
      NoTag(StripTags(summary)) && NonWs(Collapsed(summary)) == NonWs(StripTags(summary))
    ensures Words(Collapsed(summary)) == Words(StripTags(summary))
    ensures summary != [] && |Collapsed(summary)| <= SummaryLimit ==> CleanSummary(summary) == Collapsed(summary)
    ensures summary != [] && |Collapsed(summary)| > SummaryLimit ==>
      IsPrefix(CleanSummary(summary)[..SummaryLimit], Collapsed(summary)) &&
      CleanSummary(summary)[SummaryLimit..] == Ellipsis
  {
    StripTagsSpec(summary);
    CollapseSpacesWords(StripTags(summary));
  }

  // ---- The keyword filter of fetch_and_filter ----

  const Keywords: seq<string> := [
    "rural sociology", "agroecology", "actor-network theory", "ANT",
    "new materialism", "assemblage theory", "relational sociology",
    "food sovereignty", "agrifood", "peasant"
  ]

  /** Some lower-cased keyword occurs in the already lower-cased `content`. */
  predicate Mentions(content: string) {
    exists i :: 0 <= i < |Keywords| && IsInfix(Lower(Keywords[i]), content)
  }

  function Content(title: string, summary: string): string {
    Lower(title + " " + summary)
  }

  predicate Relevant(title: string, summary: string) {
    Mentions(Content(title, summary))
  }

  lemma LowerAppend(a: string, b: string)
    ensures Lower(a + b) == Lower(a) + Lower(b)
  {
  }

  /** A keyword in the title, in any letter case, makes the entry relevant. */
  lemma KeywordInTitle(title: string, summary: string, i: nat)
    requires i < |Keywords| && IsInfix(Lower(Keywords[i]), Lower(title))
    ensures Relevant(title, summary)
  {
    LowerAppend(title, " " + summary);
    assert title + " " + summary == title + (" " + summary);
    InfixOfConcat("", Lower(title), Lower(" " + summary));
    assert "" + Lower(title) + Lower(" " + summary) == Content(title, summary);
    InfixTransitive(Lower(Keywords[i]), Lower(title), Content(title, summary));
  }

  /** So does a keyword in the summary. */
  lemma KeywordInSummary(title: string, summary: string, i: nat)
    requires i < |Keywords| && IsInfix(Lower(Keywords[i]), Lower(summary))
    ensures Relevant(title, summary)
  {
    LowerAppend(title + " ", summary);
    InfixOfConcat(Lower(title + " "), Lower(summary), "");
    assert Lower(title + " ") + Lower(summary) + "" == Content(title, summary);
    InfixTransitive(Lower(Keywords[i]), Lower(summary), Content(title, summary));
  }

  lemma LowerIdempotent(s: string)
    ensures Lower(Lower(s)) == Lower(s)
  {
  }

  /** The test ignores letter case. */
  lemma RelevantIgnoresCase(title: string, summary: string)
    ensures Relevant(Lower(title), Lower(summary)) == Relevant(title, summary)
  {
    LowerAppend(title, " " + summary);
    LowerAppend(Lower(title), " " + Lower(summary));
    LowerAppend(" ", summary);
    LowerAppend(" ", Lower(summary));
    LowerIdempotent(summary);
    LowerIdempotent(title);
    assert title + " " + summary == title + (" " + summary);
    assert Lower(title) + " " + Lower(summary) == Lower(title) + (" " + Lower(summary));
  }

  /** `ANT` is matched as a substring: any title with "plant" is relevant. */
  lemma PlantMatchesAnt()
    ensures Relevant("Plant", "")
  {
    var c := Content("Plant", "");
    assert c == "plant ";
    assert Lower(Keywords[3]) == "ant";
    assert c[2..][..3] == "ant";
    assert IsPrefix("ant", c[2..]);
  }

  /** The keyword is looked for in the title and summary joined by a space,
      so it may straddle the two: "food sovereignty" is in neither field of
      this entry, yet the entry is relevant. */
  lemma KeywordAcrossJoin()
    ensures !IsInfix(Lower(Keywords[7]), Lower("Food")) && !IsInfix(Lower(Keywords[7]), Lower("sovereignty"))
    ensures Relevant("Food", "sovereignty")
  {
    var k := Lower(Keywords[7]);
    assert k == "food sovereignty";
    var c := Content("Food", "sovereignty");
    assert c == k;
    assert IsPrefix(k, c[0..]);
  }

  // ---- fetch_and_filter ----

  /** An entry's date once formatted as `%Y-%m-%d`, or a date that the
      `datetime` constructor rejects (it raises). */
  datatype Stamp = Day(text: string) | Unreadable

  /** A feed entry: each field is absent or present. */
  datatype Entry = Entry(
    title: Option<string>, link: Option<string>, summary: Option<string>,
    published: Option<Stamp>, updated: Option<Stamp>)

  /** What parsing a feed gave: its entries, or an exception. */
  datatype Fetch = Fetched(entries: seq<Entry>) | Failed

  datatype Feed = Feed(name: string, fetch: Fetch)

  datatype Item = Item(title: string, link: string, summary: string, published: string, source: string)

  function GetOr(field: Option<string>, default: string): string {
    if field.Some? then field.value else default
  }

  function TitleOf(e: Entry): string { GetOr(e.title, "No Title") }
  function LinkOf(e: Entry): string { GetOr(e.link, "") }
  function SummaryOf(e: Entry): string { GetOr(e.summary, "") }

  function StampText(st: Stamp): Option<string> {
    if st.Day? then Some(st.text) else None
  }

  /** The published date, else the updated date, else `""`; `None` when the
      date chosen cannot be built and the feed's loop is left. */
  function DateOf(e: Entry): Option<string> {
    if e.published.Some? then StampText(e.published.value)
    else if e.updated.Some? then StampText(e.updated.value)
    else Some("")
  }

  /** The set of links of `items`: `seen_links` after adding each of them. */
  function Links(items: seq<Item>): set<string> {
    if items == [] then {}
    else Links(items[..|items| - 1]) + {items[|items| - 1].link}
  }

  lemma {:induction false} LinksSpec(items: seq<Item>)
    ensures forall l :: l in Links(items) <==> exists i :: 0 <= i < |items| && items[i].link == l
  {
    if items != [] {
      var init := items[..|items| - 1];
      LinksSpec(init);
      forall l ensures l in Links(items) <==> exists i :: 0 <= i < |items| && items[i].link == l {
        if l in Links(init) {
          var i :| 0 <= i < |init| && init[i].link == l;
          assert items[i].link == l;
        }
        if exists i :: 0 <= i < |items| && items[i].link == l {
          var i :| 0 <= i < |items| && items[i].link == l;
          if i < |init| {
            assert init[i].link == l;
          }
        }
      }
    }
  }

  lemma LinksSnoc(items: seq<Item>, x: Item)
    ensures Links(items + [x]) == Links(items) + {x.link}
  {
    assert (items + [x])[..|items|] == items;
  }

  /** The state of the loop over one feed's entries: the items found so far
      and whether an exception has left the loop. */
  datatype Scan = Scan(found: seq<Item>, stopped: bool)

  /** The item built for an accepted entry. */
  function MakeItem(e: Entry, date: string, source: string): Item {
    Item(TitleOf(e), LinkOf(e), CleanSummary(SummaryOf(e)), date, source)
  }

  /** One pass of the entry loop: skip a missing or seen link, skip an
      irrelevant entry, leave the loop on an unreadable date, else take it. */
  function Visit(st: Scan, source: string, e: Entry): Scan {
    if st.stopped then st
    else if LinkOf(e) == "" || LinkOf(e) in Links(st.found) then st
    else if !Relevant(TitleOf(e), SummaryOf(e)) then st
    else if DateOf(e).None? then Scan(st.found, true)
    else Scan(st.found + [MakeItem(e, DateOf(e).value, source)], false)
  }

  function VisitAll(st: Scan, source: string, es: seq<Entry>): Scan {
    if es == [] then st
    else Visit(VisitAll(st, source, es[..|es| - 1]), source, es[|es| - 1])
  }

  lemma VisitAllSnoc(st: Scan, source: string, es: seq<Entry>, e: Entry)
    ensures VisitAll(st, source, es + [e]) == Visit(VisitAll(st, source, es), source, e)
  {
    assert (es + [e])[..|es|] == es;
  }

  /** Once the loop is left, the remaining entries change nothing. */
  lemma {:induction false} VisitAllStopped(st: Scan, source: string, es: seq<Entry>)
    requires st.stopped
    ensures VisitAll(st, source, es) == st
  {
    if es != [] {
      VisitAllStopped(st, source, es[..|es| - 1]);
    }
  }

  lemma {:induction false} VisitAllAppend(st: Scan, source: string, xs: seq<Entry>, ys: seq<Entry>)
    ensures VisitAll(st, source, xs + ys) == VisitAll(VisitAll(st, source, xs), source, ys)
  {
    if ys == [] {
      assert xs + ys == xs;
    } else {
      var init, last := ys[..|ys| - 1], ys[|ys| - 1];
      SplitLast(ys);
      AppendAssoc(xs, init, [last]);
      VisitAllAppend(st, source, xs, init);
      VisitAllLast(st, source, xs + init, last, xs + ys);
      VisitAllLast(VisitAll(st, source, xs), source, init, last, ys);
    }
  }

  /** `VisitAllSnoc` for a sequence `zs` equal to `es + [e]`. */
  lemma VisitAllLast(st: Scan, source: string, es: seq<Entry>, e: Entry, zs: seq<Entry>)
    requires zs == es + [e]
    ensures VisitAll(st, source, zs) == Visit(VisitAll(st, source, es), source, e)
  {
    VisitAllSnoc(st, source, es, e);
  }

  /** The found items after one feed: a failed fetch adds nothing. */
  function AfterFeed(found: seq<Item>, feed: Feed): seq<Item> {
    if feed.fetch.Failed? then found
    else VisitAll(Scan(found, false), feed.name, feed.fetch.entries).found
  }

  /** The found items after the feeds, in order. */
  function FetchAll(feeds: seq<Feed>): seq<Item> {
    if feeds == [] then []
    else AfterFeed(FetchAll(feeds[..|feeds| - 1]), feeds[|feeds| - 1])
  }

  /** `fetch_and_filter` over the outcome of parsing each feed. */
  method FetchAndFilter(feeds: seq<Feed>) returns (found: seq<Item>)
    ensures found == FetchAll(feeds)
  {
    found := [];
    var seen: set<string> := {};
    for f := 0 to |feeds|
      invariant found == FetchAll(feeds[..f])
      invariant seen == Links(found)
    {
      var feed := feeds[f];
      assert feeds[..f + 1][..f] == feeds[..f];
      if feed.fetch.Fetched? {
        found, seen := ScanEntries(feed.name, feed.fetch.entries, found, seen);
      }
    }
    assert feeds[..|feeds|] == feeds;
  }

  /** The entry loop of `fetch_and_filter` over one fetched feed, adding to
      the items found so far and the set of their links. */
  method ScanEntries(source: string, es: seq<Entry>, found0: seq<Item>, seen0: set<string>)
    returns (found: seq<Item>, seen: set<string>)
    requires seen0 == Links(found0)
    ensures found == VisitAll(Scan(found0, false), source, es).found
    ensures seen == Links(found)
  {
    found, seen := found0, seen0;
    var j := 0;
    var stopped := false;
    while j < |es| && !stopped
      invariant 0 <= j <= |es|
      invariant Scan(found, stopped) == VisitAll(Scan(found0, false), source, es[..j])
      invariant seen == Links(found)
    {
      var e := es[j];
      var title := TitleOf(e);
      var link := LinkOf(e);
      var summary := SummaryOf(e);
      TakeOneMore(es, j);
      VisitAllLast(Scan(found0, false), source, es[..j], e, es[..j + 1]);
      if link != "" && link !in seen {
        var content := Content(title, summary);
        if Mentions(content) {
          var date := DateOf(e);
          if date.None? {
            stopped := true;
          } else {
            var item := Item(title, link, CleanSummary(summary), date.value, source);
            LinksSnoc(found, item);
            found := found + [item];
            seen := seen + {link};
          }
        }
      }
      j := j + 1;
    }
    if stopped {
      VisitAllStopped(Scan(found, stopped), source, es[j..]);
      VisitAllAppend(Scan(found0, false), source, es[..j], es[j..]);
      TakeDrop(es, j);
    } else {
      assert es[..j] == es;
    }
  }

  // ---- What fetch_and_filter finds ----

  /** An entry offered by a fetched feed, with the feed's name. */
  datatype Offer = Offer(source: string, entry: Entry)

  function Tag(source: string, es: seq<Entry>): (r: seq<Offer>)
    ensures |r| == |es| && forall k :: 0 <= k < |es| ==> r[k] == Offer(source, es[k])
  {
    seq(|es|, k requires 0 <= k < |es| => Offer(source, es[k]))
  }

  /** Every entry of every fetched feed, in feed order, then entry order. */
  function Offers(feeds: seq<Feed>): seq<Offer> {
    if feeds == [] then []
    else
      var last := feeds[|feeds| - 1];
      Offers(feeds[..|feeds| - 1]) + FeedOffers(last)
  }

  /** The entries of a fetched feed tagged with its name; none for a failed one. */
  function FeedOffers(feed: Feed): seq<Offer> {
    if feed.fetch.Fetched? then Tag(feed.name, feed.fetch.entries) else []
  }

  /** An entry that is taken unless its link was already taken. */
  predicate Eligible(o: Offer) {
    LinkOf(o.entry) != "" && Relevant(TitleOf(o.entry), SummaryOf(o.entry)) && DateOf(o.entry).Some?
  }

  function OfferItem(o: Offer): Item
    requires Eligible(o)
  {
    MakeItem(o.entry, DateOf(o.entry).value, o.source)
  }

  const IsEligible: Offer -> bool := (o: Offer) => Eligible(o)
  const ItemOf: Offer --> Item := (o: Offer) requires Eligible(o) => OfferItem(o)

  /** The items of the eligible entries, in order: what the loop would find
      if no link were ever repeated. */
  function Offered(feeds: seq<Feed>): seq<Item> {
    Pick(Offers(feeds), IsEligible, ItemOf)
  }

  lemma TagSnoc(source: string, es: seq<Entry>, e: Entry)
    ensures Tag(source, es + [e]) == Tag(source, es) + [Offer(source, e)]
  {
  }

  /** The items one feed adds are a subsequence of its eligible items. */
  lemma {:induction false} VisitAllOrder(acc: seq<Item>, source: string, es: seq<Entry>)
    ensures |acc| <= |VisitAll(Scan(acc, false), source, es).found|
    ensures VisitAll(Scan(acc, false), source, es).found[..|acc|] == acc
    ensures Subsequence(VisitAll(Scan(acc, false), source, es).found[|acc|..], Pick(Tag(source, es), IsEligible, ItemOf))
  {
    if es == [] {
      assert acc[|acc|..] == [];
    } else {
      var init, e := es[..|es| - 1], es[|es| - 1];
      VisitAllOrder(acc, source, init);
      assert es == init + [e];
      TagSnoc(source, init, e);
      PickSnoc(Tag(source, init), Offer(source, e), IsEligible, ItemOf);
      VisitOrderStep(acc, VisitAll(Scan(acc, false), source, init), source, e, Pick(Tag(source, init), IsEligible, ItemOf));
    }
  }

  /** One entry adds at most its own item, and only when it is eligible. */
  lemma VisitOrderStep(acc: seq<Item>, st: Scan, source: string, e: Entry, p: seq<Item>)
    requires |acc| <= |st.found| && st.found[..|acc|] == acc && Subsequence(st.found[|acc|..], p)
    ensures |acc| <= |Visit(st, source, e).found| && Visit(st, source, e).found[..|acc|] == acc
    ensures Subsequence(Visit(st, source, e).found[|acc|..],
      p + if Eligible(Offer(source, e)) then [OfferItem(Offer(source, e))] else [])
  {
    var d := st.found[|acc|..];
    var extra := if Eligible(Offer(source, e)) then [OfferItem(Offer(source, e))] else [];
    var st2 := Visit(st, source, e);
    if st2.found == st.found {
      SubsequenceConcat(d, p, [], extra);
      assert d + [] == d;
    } else {
      var item := MakeItem(e, DateOf(e).value, source);
      assert st2.found == st.found + [item];
      assert extra == [item];
      SubsequenceRefl(extra);
      SubsequenceConcat(d, p, extra, extra);
      assert st2.found[|acc|..] == d + extra;
    }
  }

  /** One feed's loop keeps the items found before and adds a subsequence
      of the feed's eligible items. */
  lemma AfterFeedOrder(acc: seq<Item>, feed: Feed)
    ensures |acc| <= |AfterFeed(acc, feed)| && AfterFeed(acc, feed)[..|acc|] == acc
    ensures Subsequence(AfterFeed(acc, feed)[|acc|..], Pick(FeedOffers(feed), IsEligible, ItemOf))
  {
    if feed.fetch.Fetched? {
      VisitAllOrder(acc, feed.name, feed.fetch.entries);
    } else {
      assert acc[|acc|..] == [];
    }
  }

  lemma OfferedSnoc(feeds: seq<Feed>)
    requires feeds != []
    ensures Offered(feeds) == Offered(feeds[..|feeds| - 1]) + Pick(FeedOffers(feeds[|feeds| - 1]), IsEligible, ItemOf)
  {
    PickAppend(Offers(feeds[..|feeds| - 1]), FeedOffers(feeds[|feeds| - 1]), IsEligible, ItemOf);
  }

  /** Found items keep feed order, then entry order, and each is the item
      of an entry with a link, a keyword and a readable date. */
  lemma {:induction false} FetchAllOrder(feeds: seq<Feed>)
    ensures Subsequence(FetchAll(feeds), Offered(feeds))
  {
    if feeds != [] {
      var init, last := feeds[..|feeds| - 1], feeds[|feeds| - 1];
      FetchAllOrder(init);
      var acc := FetchAll(init);
      var r := AfterFeed(acc, last);
      AfterFeedOrder(acc, last);
      OfferedSnoc(feeds);
      SubsequenceExtend(acc, r, Offered(init), Pick(FeedOffers(last), IsEligible, ItemOf));
    }
  }

  /** Every found item is the item of an offered entry that has a link, a
      lower-cased keyword inside the lower-cased `title + " " + summary` and a
      readable date. */
  lemma FetchAllEligible(feeds: seq<Feed>)
    ensures forall n :: 0 <= n < |FetchAll(feeds)| ==>
      exists o :: o in Offers(feeds) && Eligible(o) && OfferItem(o) == FetchAll(feeds)[n]
  {
    FetchAllOrder(feeds);
    var found := FetchAll(feeds);
    forall n | 0 <= n < |found|
      ensures exists o :: o in Offers(feeds) && Eligible(o) && OfferItem(o) == found[n]
    {
      PickedFrom(found, Offers(feeds), IsEligible, ItemOf, found[n]);
    }
  }

  /** Every item has a link, and no link occurs twice. */
  predicate GoodLinks(items: seq<Item>) {
    (forall i :: 0 <= i < |items| ==> items[i].link != "") &&
    (forall i, j :: 0 <= i < j < |items| ==> items[i].link != items[j].link)
  }

  lemma VisitGood(st: Scan, source: string, e: Entry)
    requires GoodLinks(st.found)
    ensures GoodLinks(Visit(st, source, e).found)
  {
    var r := Visit(st, source, e).found;
    if r != st.found {
      LinksSpec(st.found);
      assert r == st.found + [r[|r| - 1]];
      assert r[|r| - 1].link == LinkOf(e) && LinkOf(e) !in Links(st.found);
      forall i | 0 <= i < |st.found| ensures r[i].link != r[|r| - 1].link {
        assert r[i] == st.found[i];
      }
    }
  }

  lemma {:induction false} VisitAllGood(st: Scan, source: string, es: seq<Entry>)
    requires GoodLinks(st.found)
    ensures GoodLinks(VisitAll(st, source, es).found)
  {
    if es != [] {
      VisitAllGood(st, source, es[..|es| - 1]);
      VisitGood(VisitAll(st, source, es[..|es| - 1]), source, es[|es| - 1]);
    }
  }

  /** `seen_links` guards the list: every found item has a non-empty link
      and the links are pairwise distinct. */
  lemma {:induction false} FetchAllGood(feeds: seq<Feed>)
    ensures GoodLinks(FetchAll(feeds))
  {
    if feeds != [] {
      var init, last := feeds[..|feeds| - 1], feeds[|feeds| - 1];
      FetchAllGood(init);
      if last.fetch.Fetched? {
        VisitAllGood(Scan(FetchAll(init), false), last.name, last.fetch.entries);
      }
    }
  }

  // ---- The same list, as "first item per link" ----

  function AddNew(r: seq<Item>, x: Item): seq<Item> {
    if x.link in Links(r) then r else r + [x]
  }

  /** `acc` followed by each item of `xs` whose link is not yet present. */
  function Dedupe(acc: seq<Item>, xs: seq<Item>): seq<Item> {
    if xs == [] then acc
    else AddNew(Dedupe(acc, xs[..|xs| - 1]), xs[|xs| - 1])
  }

  /** The first item of each link, in order. */
  function FirstPerLink(xs: seq<Item>): seq<Item> {
    Dedupe([], xs)
  }

  lemma DedupeSnoc(acc: seq<Item>, xs: seq<Item>, x: Item)
    ensures Dedupe(acc, xs + [x]) == AddNew(Dedupe(acc, xs), x)
  {
    assert (xs + [x])[..|xs|] == xs;
  }

  lemma {:induction false} DedupeAppend(acc: seq<Item>, xs: seq<Item>, ys: seq<Item>)
    ensures Dedupe(acc, xs + ys) == Dedupe(Dedupe(acc, xs), ys)
  {
    if ys == [] {
      assert xs + ys == xs;
    } else {
      var init, last := ys[..|ys| - 1], ys[|ys| - 1];
      DedupeAppend(acc, xs, init);
      assert xs + ys == (xs + init) + [last];
      DedupeSnoc(acc, xs + init, last);
    }
  }

  /** Every date can be built: no exception leaves an entry loop. */
  ghost predicate Readable(feeds: seq<Feed>) {
    forall f, k :: 0 <= f < |feeds| && feeds[f].fetch.Fetched? && 0 <= k < |feeds[f].fetch.entries| ==>
      DateOf(feeds[f].fetch.entries[k]).Some?
  }

  /** Without exceptions a feed's loop adds the first item per new link. */
  lemma {:induction false} VisitAllDedupe(acc: seq<Item>, source: string, es: seq<Entry>)
    requires forall k :: 0 <= k < |es| ==> DateOf(es[k]).Some?
    ensures VisitAll(Scan(acc, false), source, es) == Scan(Dedupe(acc, Pick(Tag(source, es), IsEligible, ItemOf)), false)
  {
    if es != [] {
      var init, e := es[..|es| - 1], es[|es| - 1];
      VisitAllDedupe(acc, source, init);
      assert es == init + [e];
      TagSnoc(source, init, e);
      PickSnoc(Tag(source, init), Offer(source, e), IsEligible, ItemOf);
      var p := Pick(Tag(source, init), IsEligible, ItemOf);
      if Eligible(Offer(source, e)) {
        DedupeSnoc(acc, p, OfferItem(Offer(source, e)));
      } else {
        assert Pick(Tag(source, es), IsEligible, ItemOf) == p + [];
        assert p + [] == p;
      }
    }
  }

  lemma OffersSnoc(feeds: seq<Feed>, feed: Feed)
    ensures Offers(feeds + [feed]) == Offers(feeds) + FeedOffers(feed)
  {
    assert (feeds + [feed])[..|feeds|] == feeds;
  }

  /** With every date readable, the found items are exactly the first item
      of each link among the eligible entries: an entry rejected for its
      content never blocks a later entry with the same link. */
  lemma {:induction false} FetchAllFirstPerLink(feeds: seq<Feed>)
    requires Readable(feeds)
    ensures FetchAll(feeds) == FirstPerLink(Offered(feeds))
  {
    if feeds != [] {
      var init, last := feeds[..|feeds| - 1], feeds[|feeds| - 1];
      assert Readable(init) by {
        forall f, k | 0 <= f < |init| && init[f].fetch.Fetched? && 0 <= k < |init[f].fetch.entries|
          ensures DateOf(init[f].fetch.entries[k]).Some?
        {
          assert init[f] == feeds[f];
        }
      }
      FetchAllFirstPerLink(init);
      assert feeds == init + [last];
      OffersSnoc(init, last);
      var tail := FeedOffers(last);
      PickAppend(Offers(init), tail, IsEligible, ItemOf);
      DedupeAppend([], Offered(init), Pick(tail, IsEligible, ItemOf));
      if last.fetch.Fetched? {
        var es := last.fetch.entries;
        assert forall k :: 0 <= k < |es| ==> DateOf(es[k]).Some? by {
          forall k | 0 <= k < |es| ensures DateOf(es[k]).Some? {
            assert feeds[|feeds| - 1] == last;
          }
        }
        VisitAllDedupe(FetchAll(init), last.name, es);
      } else {
        assert Pick(tail, IsEligible, ItemOf) == [];
      }
    }
  }

  /** No earlier item has the link of `xs[n]`. */
  ghost predicate FirstOfLink(xs: seq<Item>, n: nat)
    requires n < |xs|
  {
    forall m :: 0 <= m < n ==> xs[m].link != xs[n].link
  }

  lemma {:induction false} FirstPerLinkSubsequence(xs: seq<Item>)
    ensures Subsequence(FirstPerLink(xs), xs)
  {
    if xs != [] {
      var init, x := xs[..|xs| - 1], xs[|xs| - 1];
      FirstPerLinkSubsequence(init);
      var r := FirstPerLink(init);
      assert xs == init + [x];
      if x.link in Links(r) {
        SubsequenceConcat(r, init, [], [x]);
        assert r + [] == r;
      } else {
        SubsequenceRefl([x]);
        SubsequenceConcat(r, init, [x], [x]);
      }
    }
  }

  lemma {:induction false} FirstPerLinkDistinct(xs: seq<Item>)
    ensures forall i, j :: 0 <= i < j < |FirstPerLink(xs)| ==> FirstPerLink(xs)[i].link != FirstPerLink(xs)[j].link
  {
    if xs != [] {
      var init, x := xs[..|xs| - 1], xs[|xs| - 1];
      FirstPerLinkDistinct(init);
      var r := FirstPerLink(init);
      if x.link !in Links(r) {
        LinksSpec(r);
        var r2 := r + [x];
        forall i, j | 0 <= i < j < |r2| ensures r2[i].link != r2[j].link {
          if j == |r| {
            assert r2[i] == r[i];
          } else {
            assert r2[i] == r[i] && r2[j] == r[j];
          }
        }
      }
    }
  }

  /** Keeping the first item per link loses no link. */
  lemma {:induction false} FirstPerLinkCovers(xs: seq<Item>)
    ensures forall n :: 0 <= n < |xs| ==> xs[n].link in Links(FirstPerLink(xs))
  {
    if xs != [] {
      var init, x := xs[..|xs| - 1], xs[|xs| - 1];
      FirstPerLinkCovers(init);
      var r := FirstPerLink(init);
      if x.link !in Links(r) {
        LinksSnoc(r, x);
      }
      forall n | 0 <= n < |xs| ensures xs[n].link in Links(FirstPerLink(xs)) {
        if n < |init| {
          assert xs[n] == init[n];
        }
      }
    }
  }

  /** The first item of each link is kept. */
  lemma {:induction false} FirstPerLinkKeepsFirst(xs: seq<Item>)
    ensures forall n :: 0 <= n < |xs| && FirstOfLink(xs, n) ==> xs[n] in FirstPerLink(xs)
  {
    if xs != [] {
      var init, x := xs[..|xs| - 1], xs[|xs| - 1];
      FirstPerLinkKeepsFirst(init);
      var r := FirstPerLink(init);
      assert r == FirstPerLink(xs)[..|r|];
      forall n | 0 <= n < |xs| && FirstOfLink(xs, n) ensures xs[n] in FirstPerLink(xs) {
        if n < |init| {
          assert xs[n] == init[n];
          assert FirstOfLink(init, n) by {
            forall m | 0 <= m < n ensures init[m].link != init[n].link {
              assert init[m] == xs[m];
            }
          }
          assert init[n] in r;
        } else {
          LinkOfKept(init, x);
        }
      }
    }
  }

  /** A link that no item of `init` has is not in their first-per-link list. */
  lemma LinkOfKept(init: seq<Item>, x: Item)
    requires forall m :: 0 <= m < |init| ==> init[m].link != x.link
    ensures x in FirstPerLink(init + [x])
  {
    var r := FirstPerLink(init);
    LinksSpec(r);
    FirstPerLinkSubsequence(init);
    if x.link in Links(r) {
      var i :| 0 <= i < |r| && r[i].link == x.link;
      SubsequenceIn(r, init, r[i]);
      assert false;
    }
    DedupeSnoc([], init, x);
  }

  // ---- write_to_markdown: sort, then group by source ----

  /** The tuple order `(p1, s1) <= (p2, s2)` on `(published, source)`. */
  predicate KeyLe(p1: string, s1: string, p2: string, s2: string) {
    (p1 != p2 && StrLe(p1, p2)) || (p1 == p2 && StrLe(s1, s2))
  }

  /** With `reverse=True`, `a` may precede `b` when its key is not smaller. */
  predicate Later(a: Item, b: Item) {
    KeyLe(b.published, b.source, a.published, a.source)
  }

  const LaterFirst: (Item, Item) -> bool := (a: Item, b: Item) => Later(a, b)

  /** `items.sort(key=lambda x: (x['published'], x['source']), reverse=True)` */
  function SortItems(items: seq<Item>): seq<Item> {
    Sort(items, LaterFirst)
  }

  lemma KeyLeTotal(p1: string, s1: string, p2: string, s2: string)
    ensures KeyLe(p1, s1, p2, s2) || KeyLe(p2, s2, p1, s1)
  {
    StrLeTotal(p1, p2);
    StrLeTotal(s1, s2);
  }

  lemma KeyLeTrans(p1: string, s1: string, p2: string, s2: string, p3: string, s3: string)
    requires KeyLe(p1, s1, p2, s2) && KeyLe(p2, s2, p3, s3)
    ensures KeyLe(p1, s1, p3, s3)
  {
    if p1 == p2 && p2 == p3 {
      StrLeTrans(s1, s2, s3);
    } else if p1 != p2 && p2 != p3 {
      StrLeTrans(p1, p2, p3);
      if p1 == p3 {
        StrLeAntisymmetric(p1, p2);
      }
    }
  }

  lemma LaterPreorder()
    ensures TotalPreorder(LaterFirst)
  {
    forall a: Item, b: Item ensures LaterFirst(a, b) || LaterFirst(b, a) {
      KeyLeTotal(a.published, a.source, b.published, b.source);
    }
    forall a: Item, b: Item, c: Item | LaterFirst(a, b) && LaterFirst(b, c) ensures LaterFirst(a, c) {
      KeyLeTrans(c.published, c.source, b.published, b.source, a.published, a.source);
    }
  }

  /** The sorted items are the same items, newest `(published, source)`
      first. */
  lemma SortItemsSpec(items: seq<Item>)
    ensures multiset(SortItems(items)) == multiset(items)
    ensures forall i, j :: 0 <= i < j < |SortItems(items)| ==> Later(SortItems(items)[i], SortItems(items)[j])
  {
    LaterPreorder();
    SortSorted(items, LaterFirst);
  }

  function HasKey(published: string, source: string): Item -> bool {
    (it: Item) => it.published == published && it.source == source
  }

  /** The sort is stable: items with equal keys keep their order. */
  lemma SortItemsStable(items: seq<Item>, published: string, source: string)
    ensures Filter(SortItems(items), HasKey(published, source)) == Filter(items, HasKey(published, source))
  {
    StrLeTotal(source, source);
    SortStable(items, LaterFirst, HasKey(published, source));
  }

  /** The sources in order of first occurrence: the key order of
      `papers_by_source`. */
  function Sources(items: seq<Item>): seq<string> {
    if items == [] then []
    else
      var r := Sources(items[..|items| - 1]);
      var s := items[|items| - 1].source;
      if s in r then r else r + [s]
  }

  function FromSource(source: string): Item -> bool {
    (it: Item) => it.source == source
  }

  /** `papers_by_source[source]` */
  function Group(items: seq<Item>, source: string): seq<Item> {
    Filter(items, FromSource(source))
  }

  lemma SourcesSnoc(items: seq<Item>, x: Item)
    ensures Sources(items + [x]) == if x.source in Sources(items) then Sources(items) else Sources(items) + [x.source]
  {
    assert (items + [x])[..|items|] == items;
  }

  /** Each source is listed once, and exactly the sources of the items are. */
  lemma {:induction false} SourcesSpec(items: seq<Item>)
    ensures forall s :: s in Sources(items) <==> exists i :: 0 <= i < |items| && items[i].source == s
    ensures forall a, b :: 0 <= a < b < |Sources(items)| ==> Sources(items)[a] != Sources(items)[b]
  {
    if items != [] {
      var init, x := items[..|items| - 1], items[|items| - 1];
      SourcesSpec(init);
      forall s ensures s in Sources(items) <==> exists i :: 0 <= i < |items| && items[i].source == s {
        if s in Sources(init) {
          var i :| 0 <= i < |init| && init[i].source == s;
          assert items[i].source == s;
        }
        if exists i :: 0 <= i < |items| && items[i].source == s {
          var i :| 0 <= i < |items| && items[i].source == s;
          if i < |init| {
            assert init[i].source == s;
          }
        }
      }
    }
  }

  /** Some item before position `n` comes from `source`. */
  predicate SeenBefore(items: seq<Item>, n: int, source: string) {
    exists m :: 0 <= m < n && m < |items| && items[m].source == source
  }

  /** Groups appear in order of first occurrence: each item of a later
      group comes after some item of every earlier group. */
  lemma {:induction false} SourcesOrder(items: seq<Item>)
    ensures forall a, b, n :: 0 <= a < b < |Sources(items)| && 0 <= n < |items| && items[n].source == Sources(items)[b] ==>
      SeenBefore(items, n, Sources(items)[a])
  {
    if items != [] {
      var init, x := items[..|items| - 1], items[|items| - 1];
      SourcesOrder(init);
      SourcesSpec(init);
      SourcesSpec(items);
      var r, r0 := Sources(items), Sources(init);
      assert r0 == r[..|r0|];
      forall a, b, n | 0 <= a < b < |r| && 0 <= n < |items| && items[n].source == r[b]
        ensures SeenBefore(items, n, r[a])
      {
        if b < |r0| {
          assert r[a] == r0[a] && r[b] == r0[b];
          var n0 := n;
          if n == |init| {
            assert r0[b] in r0;
            n0 :| 0 <= n0 < |init| && init[n0].source == r0[b];
          } else {
            assert init[n].source == items[n].source;
          }
          var m :| 0 <= m < n0 && init[m].source == r0[a];
          assert items[m] == init[m];
        } else {
          assert r[b] == x.source && x.source !in r0;
          assert r0[a] == r[a] && r0[a] in r0;
          var m :| 0 <= m < |init| && init[m].source == r0[a];
          assert items[m] == init[m];
        }
      }
    }
  }

  /** Every item sits in the group of its source, each group holds only
      items of its source, in the order of `items`. */
  lemma GroupSpec(items: seq<Item>, source: string)
    ensures forall i :: 0 <= i < |items| && items[i].source == source ==> items[i] in Group(items, source)
    ensures forall i :: 0 <= i < |Group(items, source)| ==> Group(items, source)[i].source == source
    ensures Subsequence(Group(items, source), items)
    ensures source !in Sources(items) ==> Group(items, source) == []
    ensures forall it :: multiset(Group(items, source))[it] == if it.source == source then multiset(items)[it] else 0
  {
    FilterCounts(items, FromSource(source));
    if source !in Sources(items) {
      SourcesSpec(items);
      var g := Group(items, source);
      if g != [] {
        SubsequenceIn(g, items, g[0]);
        assert false;
      }
    }
  }

  lemma GroupSnoc(items: seq<Item>, x: Item, source: string)
    ensures Group(items + [x], source) == Group(items, source) + (if x.source == source then [x] else [])
  {
    FilterSnoc(items, x, FromSource(source));
  }

  /** The grouping loop of `write_to_markdown`: `sources` is the key order
      of the dictionary, `groups` its contents. */
  method GroupBySource(items: seq<Item>) returns (sources: seq<string>, groups: map<string, seq<Item>>)
    ensures sources == Sources(items)
    ensures forall s :: s in groups <==> s in sources
    ensures forall s :: s in groups ==> groups[s] == Group(items, s)
  {
    sources := [];
    groups := map[];
    for i := 0 to |items|
      invariant sources == Sources(items[..i])
      invariant forall s :: s in groups <==> s in sources
      invariant forall s :: s in groups ==> groups[s] == Group(items[..i], s)
    {
      var item := items[i];
      var source := item.source;
      assert items[..i + 1] == items[..i] + [item];
      SourcesSnoc(items[..i], item);
      if source !in groups {
        GroupSpec(items[..i], source);
        groups := groups[source := []];
        sources := sources + [source];
      }
      groups := groups[source := groups[source] + [item]];
      forall s | s in groups ensures groups[s] == Group(items[..i + 1], s) {
        GroupSnoc(items[..i], item, s);
      }
    }
    assert items[..|items|] == items;
  }

  /** `write_to_markdown` up to the text it writes: nothing for no items,
      else the items sorted and grouped by source. */
  method WriteToMarkdown(items: seq<Item>) returns (written: bool, sorted: seq<Item>, sources: seq<string>, groups: map<string, seq<Item>>)
    ensures written <==> items != []
    ensures !written ==> sorted == [] && sources == [] && groups == map[]
    ensures written ==> sorted == SortItems(items) && sources == Sources(sorted)
    ensures written ==> (forall s :: s in groups <==> s in sources) && (forall s :: s in groups ==> groups[s] == Group(sorted, s))
  {
    if items == [] {
      return false, [], [], map[];
    }
    written := true;
    sorted := SortItems(items);
    sources, groups := GroupBySource(sorted);
  }
}

