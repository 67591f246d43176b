/**
 * The batch export job. Its whole state lives in the userscript's
 * persistent key-value store, which survives page reloads: the queue of
 * conversations still to visit, the export items produced so far, and the
 * running flag. The page shown after opening a conversation, and the clock
 * reading written into its export, are inputs (`Visit`).
 */
module BatchJob {
  import opened Wrappers
  import opened Text
  import opened Extraction
  import opened Crawl

  /** One file of the archive: an exported conversation or an error placeholder. */
  datatype ExportItem = ExportItem(filename: string, content: string)

  const FailureContent := "Failed to extract or empty."

  /** What the page shows once a conversation has been opened, and the time written into its export. */
  datatype Visit = Visit(page: Page, exportedAt: string)

  /** The conversation id, then `_`, the sanitised title and the `.md` extension. */
  function SuccessFilename(ref: ConversationRef): string {
    ref.id + TitleSuffix(ref.title)
  }

  /** The part of a success filename that follows the conversation id. */
  function TitleSuffix(title: string): string {
    "_" + Sanitize(title) + ".md"
  }

  function ErrorFilename(id: string): string {
    "ERROR_" + id + ".txt"
  }

  /** Extraction yielded at least one message (`messages && messages.length > 0`). */
  predicate Extracted(page: Page) {
    Extract(page).Some? && |Extract(page).value| > 0
  }

  /** The item one processed conversation adds to the results. */
  function ItemFor(ref: ConversationRef, visit: Visit): ExportItem {
    if Extracted(visit.page) then
      ExportItem(SuccessFilename(ref), Markdown(Extract(visit.page).value, ref.title, visit.exportedAt))
    else
      ExportItem(ErrorFilename(ref.id), FailureContent)
  }

  predicate EndsWith(s: string, suffix: string) {
    |suffix| <= |s| && s[|s| - |suffix|..] == suffix
  }

  /** A success file name: the id, an underscore, the sanitised title, `.md`. */
  lemma SuccessFilenameShape(ref: ConversationRef)
    ensures var f := SuccessFilename(ref);
      EndsWith(f, ".md") && !EndsWith(f, ".txt")
      && f[..|ref.id| + 1] == ref.id + "_"
      && |f| == |ref.id| + 4 + |Sanitize(ref.title)| <= |ref.id| + 54
  {
    var f := SuccessFilename(ref);
    assert f[|f| - 3..] == ".md";
    assert f[|f| - 1] == 'd';
    assert f[..|ref.id| + 1] == ref.id + "_";
  }

  /** An error file name: `ERROR_`, the id, `.txt`. */
  lemma ErrorFilenameShape(id: string)
    ensures var f := ErrorFilename(id);
      EndsWith(f, ".txt") && !EndsWith(f, ".md") && f[..6] == "ERROR_" && f[6..|f| - 4] == id
  {
    var f := ErrorFilename(id);
    assert f[|f| - 4..] == ".txt";
    assert f[|f| - 1] == 't';
    assert f[..6] == "ERROR_";
    assert f[6..|f| - 4] == id;
  }

  /**
   * A successful export is a `.md` file named after the id and the sanitised
   * title holding the Markdown document; anything else is a `.txt` placeholder
   * named after the id with the failure text.
   */
  lemma ItemForKinds(ref: ConversationRef, visit: Visit)
    ensures var item := ItemFor(ref, visit);
      (EndsWith(item.filename, ".md") <==> Extracted(visit.page))
      && (EndsWith(item.filename, ".txt") <==> !Extracted(visit.page))
      && (Extracted(visit.page) ==>
            item.filename == SuccessFilename(ref)
            && item.content == Markdown(Extract(visit.page).value, ref.title, visit.exportedAt))
      && (!Extracted(visit.page) ==> item.filename == ErrorFilename(ref.id) && item.content == FailureContent)
  {
    SuccessFilenameShape(ref);
    ErrorFilenameShape(ref.id);
  }

  lemma SamePrefixBeforeSameSuffix(a: string, b: string, x: string)
    requires a + x == b + x
    ensures a == b
  {
    assert |a| == |b|;
    assert a == (a + x)[..|a|] && b == (b + x)[..|b|];
  }

  /** Success file names of conversations with the same title and different ids differ. */
  lemma SuccessFilenamesDistinct(r1: ConversationRef, r2: ConversationRef)
    requires r1.id != r2.id && r1.title == r2.title
    ensures SuccessFilename(r1) != SuccessFilename(r2)
  {
    if SuccessFilename(r1) == SuccessFilename(r2) {
      SamePrefixBeforeSameSuffix(r1.id, r2.id, TitleSuffix(r1.title));
    }
  }

  lemma ErrorFilenamesDistinct(id1: string, id2: string)
    requires id1 != id2
    ensures ErrorFilename(id1) != ErrorFilename(id2)
  {
    ErrorFilenameShape(id1);
    ErrorFilenameShape(id2);
  }

  /** Two conversations with the same title and different ids get different file names, whatever their outcome. */
  lemma FilenamesDistinctForSameTitle(r1: ConversationRef, r2: ConversationRef, v1: Visit, v2: Visit)
    requires r1.id != r2.id && r1.title == r2.title
    ensures ItemFor(r1, v1).filename != ItemFor(r2, v2).filename
  {
    SuccessFilenamesDistinct(r1, r2);
    ErrorFilenamesDistinct(r1.id, r2.id);
    SuccessFilenameShape(r1);
    SuccessFilenameShape(r2);
    ErrorFilenameShape(r1.id);
    ErrorFilenameShape(r2.id);
  }

  /** Success names of different ids differ when neither id contains `_`, whatever the titles. */
  lemma SuccessFilenamesDistinctWithoutUnderscore(r1: ConversationRef, r2: ConversationRef)
    requires r1.id != r2.id && '_' !in r1.id && '_' !in r2.id
    ensures SuccessFilename(r1) != SuccessFilename(r2)
  {
    var f1, f2 := SuccessFilename(r1), SuccessFilename(r2);
    SuccessFilenameShape(r1);
    SuccessFilenameShape(r2);
    var n1, n2 := |r1.id|, |r2.id|;
    if n1 == n2 {
      assert f1[..n1] == r1.id && f2[..n2] == r2.id;
    } else if n1 < n2 {
      assert f1[n1] == '_' && f2[n1] == r2.id[n1] != '_';
    } else {
      assert f2[n2] == '_' && f1[n2] == r1.id[n2] != '_';
    }
  }

  /** Different ids without `_` give different file names, whatever the titles and outcomes. */
  lemma FilenamesDistinctWithoutUnderscore(r1: ConversationRef, r2: ConversationRef, v1: Visit, v2: Visit)
    requires r1.id != r2.id && '_' !in r1.id && '_' !in r2.id
    ensures ItemFor(r1, v1).filename != ItemFor(r2, v2).filename
  {
    SuccessFilenamesDistinctWithoutUnderscore(r1, r2);
    ErrorFilenamesDistinct(r1.id, r2.id);
    SuccessFilenameShape(r1);
    SuccessFilenameShape(r2);
    ErrorFilenameShape(r1.id);
    ErrorFilenameShape(r2.id);
  }

  /**
   * An id may contain `_`, and then two conversations with different ids and
   * titles can get the same success name: "a" with "b c" and "a_b" with "c"
   * are both exported as `a_b_c.md`.
   */
  lemma SuccessFilenamesCanCollide()
    ensures SuccessFilename(ConversationRef("b c", "/app/a", "a"))
         == SuccessFilename(ConversationRef("c", "/app/a_b", "a_b"))
         == "a_b_c.md"
  {
    assert Sanitize("b c") == "b_c";
    assert Sanitize("c") == "c";
  }

  /** The items of a queue processed in order, one per conversation. */
  function Processed(queue: seq<ConversationRef>, visit: ConversationRef -> Visit): seq<ExportItem> {
    if queue == [] then [] else [ItemFor(queue[0], visit(queue[0]))] + Processed(queue[1..], visit)
  }

  /**
   * Every queued conversation yields exactly one item, at its own position:
   * a failed extraction becomes a placeholder and never ends the batch.
   */
  lemma {:induction false} ProcessedItems(queue: seq<ConversationRef>, visit: ConversationRef -> Visit)
    ensures |Processed(queue, visit)| == |queue|
    ensures forall k :: 0 <= k < |queue| ==> Processed(queue, visit)[k] == ItemFor(queue[k], visit(queue[k]))
  {
    if queue != [] {
      ProcessedItems(queue[1..], visit);
    }
  }

  /** One step moves the head's item from the rest of the queue onto the results, keeping their total. */
  lemma ProcessedHead(done: seq<ExportItem>, queue: seq<ConversationRef>, visit: ConversationRef -> Visit)
    requires queue != []
    ensures (done + [ItemFor(queue[0], visit(queue[0]))]) + Processed(queue[1..], visit) == done + Processed(queue, visit)
  {
  }

  /**
   * Processing a queue in two runs, the second starting from what the first
   * left in the store, gives the same items as one run.
   */
  lemma {:induction false} ProcessedSplit(queue: seq<ConversationRef>, k: nat, visit: ConversationRef -> Visit)
    requires k <= |queue|
    ensures Processed(queue, visit) == Processed(queue[..k], visit) + Processed(queue[k..], visit)
  {
    if k > 0 {
      ProcessedSplit(queue[1..], k - 1, visit);
      assert queue[1..][..k - 1] == queue[..k][1..];
      assert queue[1..][k - 1..] == queue[k..];
      AppendAssoc([ItemFor(queue[0], visit(queue[0]))], Processed(queue[1..k], visit), Processed(queue[k..], visit));
    } else {
      assert queue[..0] == [];
    }
  }

  /** Title of the displayed conversation: the active sidebar entry's text, trimmed, else a dated fallback. */
  function CurrentTitle(activeTitle: Option<string>, today: string): (title: string)
    ensures activeTitle.Some? ==>
      |title| <= |activeTitle.value| && (title == [] || (!IsSpace(title[0]) && !IsSpace(title[|title| - 1])))
    ensures activeTitle.None? ==> |title| == 12 + |today| && title[..12] == "Gemini_Chat_" && title[12..] == today
  {
    if activeTitle.Some? then Trim(activeTitle.value) else "Gemini_Chat_" + today
  }

  /** "Export Current": the Markdown file of the displayed conversation, or nothing when no message was found. */
  function ExportCurrent(activeTitle: Option<string>, today: string, visit: Visit): (r: Option<ExportItem>)
    ensures r.Some? <==> Extracted(visit.page)
    ensures r.Some? ==>
      var title := CurrentTitle(activeTitle, today);
      r.value.filename == Sanitize(title) + ".md"
      && |r.value.filename| <= MaxTitleLength + 3
      && r.value.content == Markdown(Extract(visit.page).value, title, visit.exportedAt)
  {
    var title := CurrentTitle(activeTitle, today);
    if Extracted(visit.page) then
      Some(ExportItem(Sanitize(title) + ".md", Markdown(Extract(visit.page).value, title, visit.exportedAt)))
    else
      None
  }

  /**
   * The persistent store of the job. A field is `None` while its key is
   * absent (never written, or deleted); reading it then yields the default
   * the script passes to `GM_getValue`.
   */
  class ExportStore {
    var queue: Option<seq<ConversationRef>>
    var results: Option<seq<ExportItem>>
    var running: Option<bool>

    function Queue(): seq<ConversationRef>
      reads this
    {
      queue.GetOr([])
    }

    function Results(): seq<ExportItem>
      reads this
    {
      results.GetOr([])
    }

    predicate IsRunning()
      reads this
    {
      running.GetOr(false)
    }

    /** A store in which none of the keys has been written. */
    constructor ()
      ensures queue == None && results == None && running == None
    {
      queue, results, running := None, None, None;
    }

    /** Start of "Batch Export All": raise the flag and empty the results. */
    method BeginBatch()
      modifies this
      ensures running == Some(true) && results == Some([]) && queue == old(queue)
    {
      running := Some(true);
      results := Some([]);
    }

    /** Store the crawled conversations as the queue. */
    method SaveQueue(links: seq<ConversationRef>)
      modifies this
      ensures queue == Some(links) && results == old(results) && running == old(running)
    {
      queue := Some(links);
    }

    /** Lower the running flag and nothing else (the crawl failed, or the user pressed Stop). */
    method ClearRunning()
      modifies this
      ensures running == Some(false) && queue == old(queue) && results == old(results)
    {
      running := Some(false);
    }

    /**
     * One pass of `processQueue` on a non-empty queue: export the head,
     * append exactly one item, drop the head, and write both keys back.
     */
    method Step(visit: Visit)
      requires Queue() != []
      modifies this
      ensures Queue() == old(Queue())[1..] && queue.Some?
      ensures Results() == old(Results()) + [ItemFor(old(Queue())[0], visit)] && results.Some?
      ensures |Queue()| + |Results()| == old(|Queue()| + |Results()|)
      ensures running == old(running)
    {
      var q := Queue();
      var rs := Results();
      var current := q[0];
      var messages := ExtractConversation(visit.page);
      if messages.Some? && |messages.value| > 0 {
        var md := GenerateMarkdown(messages.value, current.title, visit.exportedAt);
        rs := rs + [ExportItem(SuccessFilename(current), md)];
      } else {
        rs := rs + [ExportItem(ErrorFilename(current.id), FailureContent)];
      }
      q := q[1..];
      queue := Some(q);
      results := Some(rs);
    }

    /** Hand the results to the archive, then lower the flag and delete queue and results. */
    method FinalizeExport() returns (archive: seq<ExportItem>)
      modifies this
      ensures archive == old(Results())
      ensures running == Some(false) && queue == None && results == None
    {
      archive := Results();
      running := Some(false);
      queue := None;
      results := None;
    }

    /** `processQueue` with its self-call as a loop: step until the queue is empty, then finalize. */
    method ProcessQueue(visit: ConversationRef -> Visit) returns (archive: seq<ExportItem>)
      modifies this
      ensures archive == old(Results()) + Processed(old(Queue()), visit)
      ensures |archive| == |old(Results())| + |old(Queue())|
      ensures running == Some(false) && queue == None && results == None
    {
      ProcessedItems(Queue(), visit);
      while Queue() != []
        invariant old(Results()) + Processed(old(Queue()), visit) == Results() + Processed(Queue(), visit)
        decreases |Queue()|
      {
        var q := Queue();
        ghost var r := Results();
        Step(visit(q[0]));
        ProcessedHead(r, q, visit);
      }
      archive := FinalizeExport();
    }

    /** Page initialisation: a raised flag resumes the job from the stored queue; otherwise nothing happens. */
    method Resume(visit: ConversationRef -> Visit) returns (archive: Option<seq<ExportItem>>)
      modifies this
      ensures !old(IsRunning()) ==>
        archive == None && queue == old(queue) && results == old(results) && running == old(running)
      ensures old(IsRunning()) ==>
        archive == Some(old(Results()) + Processed(old(Queue()), visit))
        && running == Some(false) && queue == None && results == None
    {
      if IsRunning() {
        var files := ProcessQueue(visit);
        archive := Some(files);
      } else {
        archive := None;
      }
    }

    /**
     * A run cut short by a full page load after `k` steps: the store is all
     * that survives, and the resumed run ends with the same archive as an
     * uninterrupted one.
     */
    method ProcessAcrossReload(k: nat, visit: ConversationRef -> Visit) returns (archive: Option<seq<ExportItem>>)
      requires IsRunning() && k <= |Queue()|
      modifies this
      ensures archive == Some(old(Results()) + Processed(old(Queue()), visit))
      ensures running == Some(false) && queue == None && results == None
    {
      ghost var total := Results() + Processed(Queue(), visit);
      var i := 0;
      while i < k
        invariant i <= k && |Queue()| == |old(Queue())| - i
        invariant Results() + Processed(Queue(), visit) == total
        invariant IsRunning()
      {
        var q := Queue();
        ghost var r := Results();
        Step(visit(q[0]));
        ProcessedHead(r, q, visit);
        i := i + 1;
      }
      archive := Resume(visit);
    }

    /**
     * "Batch Export All": raise the flag and clear the results, crawl the
     * sidebar, then queue and process the conversations found; a failed
     * crawl lowers the flag again and leaves the queue as it was.
     */
    method BatchExportAll(sidebar: Option<Sidebar>, visit: ConversationRef -> Visit)
      returns (archive: Option<seq<ExportItem>>)
      modifies this
      ensures sidebar.None? ==>
        archive == None && running == Some(false) && results == Some([]) && queue == old(queue)
      ensures sidebar.Some? ==>
        archive == Some(Processed(Dedup(Links(sidebar.value.anchors)), visit))
        && running == Some(false) && queue == None && results == None
    {
      BeginBatch();
      var crawled := CrawlSidebar(sidebar);
      if crawled.Failure? {
        ClearRunning();
        return None;
      }
      var links := crawled.value;
      SaveQueue(links);
      var files := ProcessQueue(visit);
      assert files == Processed(links, visit) by {
        assert [] + Processed(links, visit) == Processed(links, visit);
      }
      archive := Some(files);
    }
  }
}
