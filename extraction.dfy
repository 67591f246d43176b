/**
 * Turning the rendered chat history into messages, and messages into the
 * exported Markdown document. The page is an input: either no chat-history
 * container was found, or the container's user-query and model-response
 * rows in document order. A model row carries the text the HTML-to-Markdown
 * converter produced for it.
 */
module Extraction {
  import opened Wrappers
  import opened Text

  datatype Role = User | Gemini

  function RoleName(role: Role): string {
    match role
    case User => "User"
    case Gemini => "Gemini"
  }

  datatype Message = Message(role: Role, content: string)

  datatype Row =
    | UserQuery(innerText: string, textContent: string)
    | ModelResponse(converted: string)

  datatype Page = NoChatContainer | ChatContainer(rows: seq<Row>)

  /** A user row's text: `innerText || textContent`, then the cleanup. */
  function UserText(innerText: string, textContent: string): (text: string)
    ensures text == [] || (!IsSpace(text[0]) && !IsSpace(text[|text| - 1]))
  {
    CleanUserText(if innerText != [] then innerText else textContent)
  }

  /** The text one row contributes: cleaned user text, or the converted model reply. */
  function RowText(row: Row): (text: string)
    ensures row.UserQuery? ==> text == [] || (!IsSpace(text[0]) && !IsSpace(text[|text| - 1]))
  {
    match row
    case UserQuery(innerText, textContent) => UserText(innerText, textContent)
    case ModelResponse(converted) => converted
  }

  function RoleOf(row: Row): Role {
    if row.UserQuery? then User else Gemini
  }

  /** The messages the rows yield: rows whose text is empty are dropped, the others kept in order. */
  function KeptMessages(rows: seq<Row>): seq<Message> {
    if rows == [] then []
    else
      var last := rows[|rows| - 1];
      KeptMessages(rows[..|rows| - 1])
      + (if RowText(last) != [] then [Message(RoleOf(last), RowText(last))] else [])
  }

  /** What extraction of a page returns: `null` without a container, else the kept messages. */
  function Extract(page: Page): Option<seq<Message>> {
    match page
    case NoChatContainer => None
    case ChatContainer(rows) => Some(KeptMessages(rows))
  }

  /** Kept messages of a concatenation are the kept messages of each part. */
  lemma {:induction false} KeptMessagesAppend(a: seq<Row>, b: seq<Row>)
    ensures KeptMessages(a + b) == KeptMessages(a) + KeptMessages(b)
    decreases |b|
  {
    if b != [] {
      var ab := a + b;
      assert ab[..|ab| - 1] == a + b[..|b| - 1];
      KeptMessagesAppend(a, b[..|b| - 1]);
    } else {
      assert a + b == a;
    }
  }

  /** No more messages than rows. */
  lemma {:induction false} KeptMessagesLength(rows: seq<Row>)
    ensures |KeptMessages(rows)| <= |rows|
  {
    if rows != [] {
      KeptMessagesLength(rows[..|rows| - 1]);
    }
  }

  /** A row whose text is empty yields no message, so every kept message has content. */
  lemma {:induction false} KeptMessagesNonEmpty(rows: seq<Row>)
    ensures forall m :: m in KeptMessages(rows) ==> m.content != []
  {
    if rows != [] {
      var init, last := rows[..|rows| - 1], rows[|rows| - 1];
      KeptMessagesNonEmpty(init);
      assert KeptMessages(rows) == KeptMessages(init)
        + (if RowText(last) != [] then [Message(RoleOf(last), RowText(last))] else []);
    }
  }

  /** A user message is the cleaned query text, so it has no white space at either end. */
  lemma {:induction false} KeptMessagesUserTrimmed(rows: seq<Row>)
    ensures forall m :: m in KeptMessages(rows) && m.role == User ==>
      m.content != [] && !IsSpace(m.content[0]) && !IsSpace(m.content[|m.content| - 1])
  {
    if rows != [] {
      var init, last := rows[..|rows| - 1], rows[|rows| - 1];
      KeptMessagesUserTrimmed(init);
      assert KeptMessages(rows) == KeptMessages(init)
        + (if RowText(last) != [] then [Message(RoleOf(last), RowText(last))] else []);
    }
  }

  /** Every kept message has non-empty content; a user message has no surrounding white space; no more messages than rows. */
  lemma KeptMessagesWellFormed(rows: seq<Row>)
    ensures |KeptMessages(rows)| <= |rows|
    ensures forall m :: m in KeptMessages(rows) ==> m.content != []
    ensures forall m :: m in KeptMessages(rows) && m.role == User ==>
      !IsSpace(m.content[0]) && !IsSpace(m.content[|m.content| - 1])
  {
    KeptMessagesLength(rows);
    KeptMessagesNonEmpty(rows);
    KeptMessagesUserTrimmed(rows);
  }

  /** A single row yields a message exactly when its text is non-empty, with the row's role. */
  lemma KeptMessagesSingle(row: Row)
    ensures KeptMessages([row]) == if RowText(row) != [] then [Message(RoleOf(row), RowText(row))] else []
  {
    assert [row][..0] == [];
  }

  /** The message loop over the container's rows (`allMessages.forEach`, pushing into `output`). */
  method ExtractConversation(page: Page) returns (output: Option<seq<Message>>)
    ensures output == Extract(page)
    ensures page.NoChatContainer? <==> output.None?
    ensures output.Some? ==> forall m :: m in output.value ==> m.content != []
  {
    if page.NoChatContainer? {
      return None;
    }
    var rows := page.rows;
    var kept: seq<Message> := [];
    var i := 0;
    while i < |rows|
      invariant 0 <= i <= |rows|
      invariant kept == KeptMessages(rows[..i])
    {
      var row := rows[i];
      var text := RowText(row);
      if text != [] {
        kept := kept + [Message(RoleOf(row), text)];
      }
      assert rows[..i + 1][..i] == rows[..i];
      i := i + 1;
    }
    assert rows[..i] == rows;
    KeptMessagesWellFormed(rows);
    output := Some(kept);
  }

  /** The document header: title heading and the export-time quote line. */
  function Header(title: string, exportedAt: string): string {
    ("# " + title + "\n\n") + ("> Exported at: " + exportedAt + "\n\n")
  }

  /** The block written for one message, ending in a horizontal rule. */
  function Section(m: Message): string {
    ("## " + RoleName(m.role) + "\n\n") + (m.content + "\n\n") + "---\n\n"
  }

  function Sections(ms: seq<Message>): string {
    if ms == [] then [] else Section(ms[0]) + Sections(ms[1..])
  }

  /** The whole exported document. */
  function Markdown(ms: seq<Message>, title: string, exportedAt: string): string {
    Header(title, exportedAt) + Sections(ms)
  }

  lemma {:induction false} SectionsAppend(a: seq<Message>, b: seq<Message>)
    ensures Sections(a + b) == Sections(a) + Sections(b)
  {
    if a == [] {
      assert a + b == b;
    } else {
      assert (a + b)[1..] == a[1..] + b;
      SectionsAppend(a[1..], b);
    }
  }

  /** Adding a message to the list adds exactly its section at the end of the document. */
  lemma MarkdownExtend(ms: seq<Message>, m: Message, title: string, exportedAt: string)
    ensures Markdown(ms + [m], title, exportedAt) == Markdown(ms, title, exportedAt) + Section(m)
  {
    SectionsAppend(ms, [m]);
    assert Sections([m]) == Section(m);
    AppendAssoc(Header(title, exportedAt), Sections(ms), Section(m));
  }

  lemma AppendAssoc<T>(a: seq<T>, b: seq<T>, c: seq<T>)
    ensures (a + b) + c == a + (b + c)
  {
  }

  /** The document starts with its header and the first message's section follows it. */
  lemma MarkdownLayout(ms: seq<Message>, title: string, exportedAt: string)
    ensures var md := Markdown(ms, title, exportedAt); var h := Header(title, exportedAt);
      |h| <= |md| && md[..|h|] == h
      && (ms != [] ==> md[|h|..|h| + |Section(ms[0])|] == Section(ms[0]))
  {
  }

  /** `generateMarkdown(messages, title)`, accumulating with `md +=`; the timestamp is an input. */
  method GenerateMarkdown(messages: seq<Message>, title: string, exportedAt: string) returns (md: string)
    ensures md == Markdown(messages, title, exportedAt)
  {
    md := "# " + title + "\n\n";
    md := md + ("> Exported at: " + exportedAt + "\n\n");
    assert md == Markdown([], title, exportedAt);
    var i := 0;
    while i < |messages|
      invariant 0 <= i <= |messages|
      invariant md == Markdown(messages[..i], title, exportedAt)
    {
      var msg := messages[i];
      ghost var before := md;
      md := md + ("## " + RoleName(msg.role) + "\n\n");
      md := md + (msg.content + "\n\n");
      md := md + "---\n\n";
      assert md == before + Section(msg);
      MarkdownExtend(messages[..i], msg, title, exportedAt);
      assert messages[..i + 1] == messages[..i] + [msg];
      i := i + 1;
    }
    assert messages[..i] == messages;
  }
}
