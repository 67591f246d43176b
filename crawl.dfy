/**
 * Discovery of the conversations listed in the sidebar: scroll the list
 * until its height has stopped changing (at most 100 scrolls), then turn
 * the rendered links into conversation references and drop repeated ids.
 * The sidebar is an input: the height read after each scroll, and the
 * links rendered once scrolling stops.
 */
module Crawl {
  import opened Wrappers
  import opened Text

  /** A conversation found in the sidebar; `id` is the dedup key. */
  datatype ConversationRef = ConversationRef(title: string, url: string, id: string)

  /** A rendered sidebar link: its visible text and its target. */
  datatype Anchor = Anchor(innerText: string, href: string)

  /** The sidebar container, when one is found: `scrollHeight(i)` is the height read after scroll number `i`. */
  datatype Sidebar = Sidebar(scrollHeight: nat -> nat, anchors: seq<Anchor>)

  const MaxScrolls: nat := 100
  const StableReadings: nat := 2
  const SidebarNotFound := "Sidebar not found"

  // ---- Scrolling until the list height is stable ----

  /** The height the reading of scroll `i` is compared with: 0 before the first reading. */
  function PreviousHeight(scrollHeight: nat -> nat, i: nat): nat {
    if i == 0 then 0 else scrollHeight(i - 1)
  }

  predicate Unchanged(scrollHeight: nat -> nat, i: nat) {
    scrollHeight(i) == PreviousHeight(scrollHeight, i)
  }

  /** Scroll `i` is the second reading in a row that did not change the height. */
  predicate StopsAt(scrollHeight: nat -> nat, i: nat) {
    i >= 1 && Unchanged(scrollHeight, i) && Unchanged(scrollHeight, i - 1)
  }

  /** The number of scrolls performed when scrolling reaches scroll `i`. */
  function ScrollsFrom(scrollHeight: nat -> nat, i: nat): nat
    requires i < MaxScrolls
    decreases MaxScrolls - i
  {
    if StopsAt(scrollHeight, i) || i + 1 == MaxScrolls then i + 1 else ScrollsFrom(scrollHeight, i + 1)
  }

  function ScrollCount(scrollHeight: nat -> nat): nat {
    ScrollsFrom(scrollHeight, 0)
  }

  lemma {:induction false} ScrollsFromBounds(scrollHeight: nat -> nat, i: nat)
    requires i < MaxScrolls
    ensures var n := ScrollsFrom(scrollHeight, i);
      i < n <= MaxScrolls
      && (forall j :: i <= j < n - 1 ==> !StopsAt(scrollHeight, j))
      && (n == MaxScrolls || StopsAt(scrollHeight, n - 1))
    decreases MaxScrolls - i
  {
    if !StopsAt(scrollHeight, i) && i + 1 < MaxScrolls {
      ScrollsFromBounds(scrollHeight, i + 1);
    }
  }

  /**
   * Scrolling stops after at most 100 scrolls, at the first scroll that is
   * the second unchanged reading in a row, or after the 100th.
   */
  lemma ScrollCountSpec(scrollHeight: nat -> nat)
    ensures var n := ScrollCount(scrollHeight);
      1 <= n <= MaxScrolls
      && (forall j :: 0 <= j < n - 1 ==> !StopsAt(scrollHeight, j))
      && (n == MaxScrolls || StopsAt(scrollHeight, n - 1))
  {
    ScrollsFromBounds(scrollHeight, 0);
  }

  /** The three properties of `ScrollCountSpec` single out one count. */
  lemma ScrollCountUnique(scrollHeight: nat -> nat, n: nat)
    requires 1 <= n <= MaxScrolls
    requires forall j :: 0 <= j < n - 1 ==> !StopsAt(scrollHeight, j)
    requires n == MaxScrolls || StopsAt(scrollHeight, n - 1)
    ensures n == ScrollCount(scrollHeight)
  {
    ScrollCountSpec(scrollHeight);
  }

  /** Heights 100, 150, 150, 150, ...: the fourth reading is the second unchanged one, so four scrolls are made. */
  lemma ScrollCountExample()
    ensures ScrollCount(i => if i == 0 then 100 else 150) == 4
  {
    var h: nat -> nat := i => if i == 0 then 100 else 150;
    ScrollCountSpec(h);
    assert StopsAt(h, 3);
    assert !StopsAt(h, 0) && !StopsAt(h, 1) && !StopsAt(h, 2);
  }

  /** An empty list that never grows: the readings 0, 0 equal the initial 0 twice, so two scrolls are made. */
  lemma ScrollCountEmptyList()
    ensures ScrollCount(i => 0) == 2
  {
    var h: nat -> nat := i => 0;
    ScrollCountSpec(h);
    assert StopsAt(h, 1) && !StopsAt(h, 0);
  }

  /** The scrolling loop of the crawl, counting the scrolls it makes. */
  method ScrollUntilStable(scrollHeight: nat -> nat) returns (scrolls: nat)
    ensures scrolls == ScrollCount(scrollHeight)
    ensures 1 <= scrolls <= MaxScrolls
    ensures forall j :: 0 <= j < scrolls - 1 ==> !StopsAt(scrollHeight, j)
    ensures scrolls == MaxScrolls || StopsAt(scrollHeight, scrolls - 1)
  {
    var previousHeight: nat := 0;
    var noChangeCount: nat := 0;
    scrolls := 0;
    var i: nat := 0;
    while i < MaxScrolls
      invariant i <= MaxScrolls && scrolls == i
      invariant previousHeight == PreviousHeight(scrollHeight, i)
      invariant noChangeCount == if i > 0 && Unchanged(scrollHeight, i - 1) then 1 else 0
      invariant forall j :: 0 <= j < i ==> !StopsAt(scrollHeight, j)
    {
      scrolls := scrolls + 1;
      var height := scrollHeight(i);
      if height == previousHeight {
        noChangeCount := noChangeCount + 1;
        if noChangeCount >= StableReadings {
          break;
        }
      } else {
        noChangeCount := 0;
      }
      previousHeight := height;
      i := i + 1;
    }
    ScrollCountUnique(scrollHeight, scrolls);
  }

  // ---- Links and duplicate removal ----

  /** A link's title: the first line of its text, trimmed, or "Untitled" when that is empty. */
  function LinkTitle(innerText: string): (title: string)
    ensures title != [] && '\n' !in title
    ensures !IsSpace(title[0]) && !IsSpace(title[|title| - 1])
    ensures title == Trim(FirstLine(innerText)) || (title == "Untitled" && Trim(FirstLine(innerText)) == [])
  {
    var line := FirstLine(innerText);
    var t := Trim(line);
    if t != [] then
      TrimKeepsAbsent(line, '\n');
      t
    else
      "Untitled"
  }

  lemma TrimKeepsAbsent(s: string, c: char)
    requires c !in s
    ensures c !in Trim(s)
  {
    var a := SkipSpace(s, 0);
    var t := Trim(s);
    forall k | 0 <= k < |t|
      ensures t[k] != c
    {
      assert t[k] == s[a + k];
    }
  }

  function ToRef(a: Anchor): ConversationRef {
    ConversationRef(LinkTitle(a.innerText), a.href, LastSegment(a.href))
  }

  /** The links' `.map(...)` into conversation references. */
  function Links(anchors: seq<Anchor>): (links: seq<ConversationRef>)
    ensures |links| == |anchors|
    ensures forall i :: 0 <= i < |anchors| ==> links[i] == ToRef(anchors[i])
  {
    seq(|anchors|, i requires 0 <= i < |anchors| => ToRef(anchors[i]))
  }

  function Ids(links: seq<ConversationRef>): set<string> {
    set l | l in links :: l.id
  }

  /** No earlier link has the same id as link `k`. */
  predicate FirstOccurrence(links: seq<ConversationRef>, k: nat)
    requires k < |links|
  {
    forall j :: 0 <= j < k ==> links[j].id != links[k].id
  }

  /** The links with repeated ids removed, keeping the first of each id, in order. */
  function Dedup(links: seq<ConversationRef>): seq<ConversationRef> {
    if links == [] then []
    else
      var init := links[..|links| - 1];
      var last := links[|links| - 1];
      Dedup(init) + (if last.id in Ids(init) then [] else [last])
  }

  lemma IdsSnoc(links: seq<ConversationRef>, l: ConversationRef)
    ensures Ids(links + [l]) == Ids(links) + {l.id}
  {
    assert forall x :: x in links + [l] <==> x in links || x == l;
  }

  /** Every id of the input is kept. */
  lemma {:induction false} DedupIds(links: seq<ConversationRef>)
    ensures Ids(Dedup(links)) == Ids(links)
  {
    if links != [] {
      var init := links[..|links| - 1];
      var last := links[|links| - 1];
      DedupIds(init);
      assert links == init + [last];
      IdsSnoc(init, last);
      IdsSnoc(Dedup(init), last);
      assert Dedup(init) + [] == Dedup(init);
    }
  }

  /** Each id appears once in the output. */
  lemma {:induction false} DedupDistinct(links: seq<ConversationRef>)
    ensures forall i, j :: 0 <= i < j < |Dedup(links)| ==> Dedup(links)[i].id != Dedup(links)[j].id
  {
    if links != [] {
      var init := links[..|links| - 1];
      var last := links[|links| - 1];
      DedupDistinct(init);
      DedupIds(init);
      var d := Dedup(init);
      if last.id !in Ids(init) {
        forall i | 0 <= i < |d|
          ensures d[i].id != last.id
        {
          assert d[i] in d;
        }
      }
    }
  }

  /**
   * The output is a subsequence of the input made of first occurrences:
   * `idx` gives, in increasing order, the input position of each kept link.
   */
  lemma {:induction false} DedupFirstOccurrences(links: seq<ConversationRef>) returns (idx: seq<nat>)
    ensures |idx| == |Dedup(links)|
    ensures forall k :: 0 <= k < |idx| ==>
      idx[k] < |links| && links[idx[k]] == Dedup(links)[k] && FirstOccurrence(links, idx[k])
    ensures forall k, m :: 0 <= k < m < |idx| ==> idx[k] < idx[m]
  {
    if links == [] {
      return [];
    }
    var init := links[..|links| - 1];
    var last := links[|links| - 1];
    var prev := DedupFirstOccurrences(init);
    if last.id in Ids(init) {
      idx := prev;
      assert Dedup(links) == Dedup(init);
    } else {
      idx := prev + [|links| - 1];
      forall j | 0 <= j < |links| - 1
        ensures links[j].id != last.id
      {
        assert links[j] in init;
      }
    }
  }

  /** The duplicate filter (`unique` and the `ids` set). */
  method Deduplicate(links: seq<ConversationRef>) returns (unique: seq<ConversationRef>)
    ensures unique == Dedup(links)
    ensures Ids(unique) == Ids(links)
    ensures forall i, j :: 0 <= i < j < |unique| ==> unique[i].id != unique[j].id
  {
    unique := [];
    var ids: set<string> := {};
    var i := 0;
    while i < |links|
      invariant 0 <= i <= |links|
      invariant unique == Dedup(links[..i])
      invariant ids == Ids(links[..i])
    {
      var l := links[i];
      assert links[..i + 1] == links[..i] + [l];
      IdsSnoc(links[..i], l);
      if l.id !in ids {
        ids := ids + {l.id};
        unique := unique + [l];
      }
      i := i + 1;
    }
    assert links[..i] == links;
    DedupIds(links);
    DedupDistinct(links);
  }

  /** `crawlSidebar`: fails without a sidebar, else scrolls, then returns the deduplicated links. */
  method CrawlSidebar(sidebar: Option<Sidebar>) returns (r: Result<seq<ConversationRef>, string>)
    ensures sidebar.None? ==> r == Failure(SidebarNotFound)
    ensures sidebar.Some? ==> r == Success(Dedup(Links(sidebar.value.anchors)))
  {
    if sidebar.None? {
      return Failure(SidebarNotFound);
    }
    var scrolls := ScrollUntilStable(sidebar.value.scrollHeight);
    var links := Links(sidebar.value.anchors);
    var unique := Deduplicate(links);
    r := Success(unique);
  }
}
