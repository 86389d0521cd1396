/**
 * The export side of the PHP server's content controller: the published-only HTML view,
 * and the export of one content as HTML, Markdown or JSON with a download file name.
 * Rows are what the `Contents JOIN Users` queries fetch; `strip_tags`, `json_encode`
 * and the database's rendering of a DATETIME are parameters.
 */
module PhpExport {
  import opened Common
  import opened Seqs
  import opened Contents
  import Auth

  /** The columns the queries select; dates as the database renders them, `Author` from the join. */
  datatype ContentRow = ContentRow(
    id: Guid,
    title: string,
    body: string,
    status: string,
    createdAt: string,
    updatedAt: string,
    publishedAt: Option<string>,
    author: string)

  /** The PHP built-ins the controller calls, which this model does not define. */
  datatype Runtime = Runtime(
    stripTags: string -> string,
    encodeRow: ContentRow -> string,
    encodeError: string -> string,
    formatDate: Time -> string)

  datatype PhpResponse = PhpResponse(status: nat, contentType: string, body: string, disposition: Option<string>)

  const NotFoundMessage: string := "Content not found"
  const DefaultFormat: string := "json"

  /** String interpolation of a nullable column: NULL prints as nothing. */
  function Interpolate(s: Option<string>): string {
    s.GetOr("")
  }

  /** The fixed header of `convertToMarkdown`: title heading, author, date, a rule. */
  function MarkdownHeader(row: ContentRow): string {
    "# " + row.title + "\n\n" + "**Author:** " + row.author + "\n" + "**Published:** "
      + Interpolate(row.publishedAt) + "\n\n" + "---\n\n"
  }

  /** `convertToMarkdown`: the header followed by the tag-stripped body. */
  function ConvertToMarkdown(row: ContentRow, rt: Runtime): (md: string)
    ensures md == MarkdownHeader(row) + rt.stripTags(row.body)
  {
    var markdown := "# " + row.title + "\n\n";
    var markdown := markdown + "**Author:** " + row.author + "\n";
    var markdown := markdown + "**Published:** " + Interpolate(row.publishedAt) + "\n\n";
    var markdown := markdown + "---\n\n";
    markdown + rt.stripTags(row.body)
  }

  /** The text before the first line break. */
  function FirstLine(s: string): (r: string)
    ensures '\n' !in r && r <= s
  {
    if s == [] || s[0] == '\n' then [] else [s[0]] + FirstLine(s[1..])
  }

  lemma {:induction false} FirstLineOf(line: string, rest: string)
    requires '\n' !in line
    ensures FirstLine(line + "\n" + rest) == line
  {
    if line == [] {
      assert line + "\n" + rest == "\n" + rest;
    } else {
      assert line[0] != '\n';
      assert (line + "\n" + rest)[1..] == line[1..] + "\n" + rest;
      FirstLineOf(line[1..], rest);
    }
  }

  /** A title without a line break can be read back from the first line of the Markdown. */
  lemma MarkdownTitleLine(row: ContentRow, rt: Runtime)
    requires '\n' !in row.title
    ensures FirstLine(ConvertToMarkdown(row, rt)) == "# " + row.title
  {
    var md := ConvertToMarkdown(row, rt);
    var line := "# " + row.title;
    assert '\n' !in line by {
      forall j | 0 <= j < |line| ensures line[j] != '\n' {
        if j >= 2 {
          assert line[j] == row.title[j - 2];
          assert row.title[j - 2] in row.title;
        }
      }
    }
    var rest := "\n" + "**Author:** " + row.author + "\n" + "**Published:** " + Interpolate(row.publishedAt)
                + "\n\n" + "---\n\n" + rt.stripTags(row.body);
    assert md == line + "\n" + rest;
    FirstLineOf(line, rest);
  }

  /** The Markdown ends with exactly the stripped body. */
  lemma MarkdownEndsWithBody(row: ContentRow, rt: Runtime)
    ensures var md := ConvertToMarkdown(row, rt);
            |md| >= |rt.stripTags(row.body)| && md[|md| - |rt.stripTags(row.body)|..] == rt.stripTags(row.body)
  {
    var md := ConvertToMarkdown(row, rt);
    assert md[|MarkdownHeader(row)|..] == rt.stripTags(row.body);
  }

  datatype ExportFormat = Html | Markdown | Json

  /** The `switch`: "html" and "markdown" by name, every other value (and "json") as JSON. */
  function FormatOf(format: string): (f: ExportFormat)
    ensures f == Html <==> format == "html"
    ensures f == Markdown <==> format == "markdown"
  {
    if format == "html" then Html else if format == "markdown" then Markdown else Json
  }

  /** The content type of each format; only JSON is served as "application/json". */
  function MediaType(f: ExportFormat): (t: string)
    ensures t == "application/json" <==> f == Json
  {
    match f
    case Html => "text/html"
    case Markdown => "text/markdown"
    case Json => "application/json"
  }

  /** The three formats are served under three different content types. */
  lemma MediaTypesDistinct(f: ExportFormat, g: ExportFormat)
    requires f != g
    ensures MediaType(f) != MediaType(g)
  {
    assert "text/html"[5] == 'h' && "text/markdown"[5] == 'm';
    assert "application/json"[0] == 'a' && "text/html"[0] == 't' && "text/markdown"[0] == 't';
  }

  const AttachmentPrefix: string := "attachment; filename=\""

  /**
   * `attachment; filename="{Title}.{format}"`, with the format as requested: the quoted
   * file name is the title, a dot and the format, with nothing escaped.
   */
  function Disposition(title: string, format: string): (d: string)
    ensures StartsWith(d, AttachmentPrefix) && |d| == |AttachmentPrefix| + |title| + |format| + 2
    ensures d[|AttachmentPrefix|..|d| - 1] == title + "." + format && d[|d| - 1] == '"'
  {
    var d := AttachmentPrefix + (title + "." + format) + "\"";
    assert d[..|AttachmentPrefix|] == AttachmentPrefix;
    assert d[|AttachmentPrefix|..|d| - 1] == title + "." + format;
    d
  }

  /** The heredoc of `generateHtml`, cut at its four interpolations. */
  const HtmlHead: string :=
    "<!DOCTYPE html>\n"
    + "<html lang=\"en\">\n"
    + "<head>\n"
    + "    <meta charset=\"UTF-8\">\n"
    + "    <meta name=\"viewport\" content=\"wi"
    + "dth=device-width, initial-scale=1.0\">\n"
    + "    <title>"
  const HtmlToHeading: string :=
    "</title>\n"
    + "    <style>\n"
    + "        body {\n"
    + "            font-family: -apple-system, "
    + "BlinkMacSystemFont, 'Segoe UI', Roboto, "
    + "Oxygen, Ubuntu, Cantarell, sans-serif;\n"
    + "            max-width: 800px;\n"
    + "            margin: 0 auto;\n"
    + "            padding: 2rem;\n"
    + "            line-height: 1.6;\n"
    + "        }\n"
    + "        h1 {\n"
    + "            color: #333;\n"
    + "            margin-bottom: 0.5rem;\n"
    + "        }\n"
    + "        .meta {\n"
    + "            color: #666;\n"
    + "            font-size: 0.9rem;\n"
    + "            margin-bottom: 2rem;\n"
    + "        }\n"
    + "        .content {\n"
    + "            color: #444;\n"
    + "        }\n"
    + "    </style>\n"
    + "</head>\n"
    + "<body>\n"
    + "    <h1>"
  const HtmlToAuthor: string :=
    "</h1>\n"
    + "    <div class=\"meta\">\n"
    + "        By "
  const HtmlToPublished: string :=
    " | Published: "
  const HtmlToBody: string :=
    "\n"
    + "    </div>\n"
    + "    <div class=\"content\">\n"
    + "        "
  const HtmlTail: string :=
    "\n"
    + "    </div>\n"
    + "</body>\n"
    + "</html>"

  /**
   * The controller over its database connection (the Contents and Users tables), the
   * PHP built-ins it calls, and the page template of `generateHtml`, held as the six
   * fixed pieces around the four interpolated columns.
   */
  class ContentController {
    var contents: seq<Content>
    var users: seq<Auth.User>
    const rt: Runtime
    const head: string
    const toHeading: string
    const toAuthor: string
    const toPublished: string
    const toBody: string
    const tail: string

    /** The template pieces are the text of the heredoc, character for character. */
    constructor (contents: seq<Content>, users: seq<Auth.User>, rt: Runtime)
      ensures this.contents == contents && this.users == users && this.rt == rt
      ensures head == HtmlHead
      ensures toHeading == HtmlToHeading
      ensures toAuthor == HtmlToAuthor
      ensures toPublished == HtmlToPublished
      ensures toBody == HtmlToBody
      ensures tail == HtmlTail
    {
      this.contents := contents;
      this.users := users;
      this.rt := rt;
      head := HtmlHead;
      toHeading := HtmlToHeading;
      toAuthor := HtmlToAuthor;
      toPublished := HtmlToPublished;
      toBody := HtmlToBody;
      tail := HtmlTail;
    }

    /**
     * `SELECT ... FROM Contents c JOIN Users u ON c.AuthorId = u.Id WHERE c.Id = :id`:
     * the content with that id, provided its author exists (the inner join drops it otherwise).
     */
    function Fetch(id: Guid): (r: Option<ContentRow>)
      reads this
      ensures r.Some? <==>
                exists i :: 0 <= i < |contents| && FindKey(contents, ContentId, id) == Some(i)
                            && contents[i].authorId in Keys(users, Auth.UserId)
      ensures r.Some? ==>
                var c := contents[FindKey(contents, ContentId, id).value];
                && r.value.id == id && r.value.title == c.title && r.value.body == c.body && r.value.status == c.status
                && r.value.createdAt == rt.formatDate(c.createdAt) && r.value.updatedAt == rt.formatDate(c.updatedAt)
                && r.value.publishedAt == (if c.publishedAt.Some? then Some(rt.formatDate(c.publishedAt.value)) else None)
                && exists u :: u in users && u.id == c.authorId && u.username == r.value.author
    {
      match FindKey(contents, ContentId, id)
      case None => None
      case Some(i) =>
        var c := contents[i];
        if c.authorId in Keys(users, Auth.UserId) then
          Some(ContentRow(c.id, c.title, c.body, c.status, rt.formatDate(c.createdAt), rt.formatDate(c.updatedAt),
                          if c.publishedAt.Some? then Some(rt.formatDate(c.publishedAt.value)) else None,
                          Auth.UsernameOf(users, c.authorId)))
        else None
    }

    /** The same query with `AND c.Status = 'published'`. */
    function FetchPublished(id: Guid): (r: Option<ContentRow>)
      reads this
      ensures r.Some? <==> Fetch(id).Some? && Fetch(id).value.status == Published
      ensures r.Some? ==> r == Fetch(id)
    {
      var row := Fetch(id);
      if row.Some? && row.value.status == Published then row else None
    }

    /**
     * `generateHtml`: the page with Title (twice), Author, PublishedAt and Body put in as
     * they are.  Nothing is escaped: the title sits unchanged right after the page head,
     * and the body just before the closing tags, so markup in either reaches the browser.
     */
    function GenerateHtml(row: ContentRow): (html: string)
      ensures OccursAt(html, head, 0) && OccursAt(html, row.title, |head|)
      ensures OccursAt(html, row.body, |html| - |tail| - |row.body|)
      ensures OccursAt(html, tail, |html| - |tail|)
    {
      var middle := toHeading + row.title + toAuthor + row.author + toPublished + Interpolate(row.publishedAt) + toBody;
      var html := head + row.title + middle + row.body + tail;
      FramedOccurrences(head, row.title, middle, row.body, tail);
      html
    }

    function Rendered(f: ExportFormat, row: ContentRow): string {
      match f
      case Html => GenerateHtml(row)
      case Markdown => ConvertToMarkdown(row, rt)
      case Json => rt.encodeRow(row)
    }

    function NotFoundResponse(): PhpResponse {
      PhpResponse(404, "application/json", rt.encodeError(NotFoundMessage), None)
    }

    /** `exportContent`; `format` is the body's `format` field, absent when not sent. */
    function ExportContent(id: Guid, format: Option<string>): (r: PhpResponse)
      reads this
      ensures Fetch(id).None? ==> r == NotFoundResponse()
      ensures Fetch(id).Some? ==>
                var row, f := Fetch(id).value, format.GetOr(DefaultFormat);
                && r.status == 200
                && r.contentType == MediaType(FormatOf(f))
                && r.body == Rendered(FormatOf(f), row)
                && r.disposition == Some(Disposition(row.title, f))
    {
      var fetched := Fetch(id);
      if fetched.None? then NotFoundResponse()
      else
        var row, f := fetched.value, format.GetOr(DefaultFormat);
        var kind := FormatOf(f);
        PhpResponse(200, MediaType(kind), Rendered(kind, row), Some(Disposition(row.title, f)))
    }

    /** `getContentAsHtml`: the page of a published content, 404 for anything else. */
    function ContentAsHtml(id: Guid): (r: PhpResponse)
      reads this
      ensures FetchPublished(id).None? ==> r == NotFoundResponse()
      ensures FetchPublished(id).Some? ==>
                r == PhpResponse(200, "text/html", GenerateHtml(FetchPublished(id).value), None)
    {
      match FetchPublished(id)
      case None => NotFoundResponse()
      case Some(row) => PhpResponse(200, "text/html", GenerateHtml(row), None)
    }
  }

  /** The pieces of a concatenation occur at their places in it. */
  lemma FramedOccurrences(head: string, title: string, middle: string, body: string, tail: string)
    ensures var html := head + title + middle + body + tail;
            && OccursAt(html, head, 0) && OccursAt(html, title, |head|)
            && OccursAt(html, body, |html| - |tail| - |body|) && OccursAt(html, tail, |html| - |tail|)
  {
    var html := head + title + middle + body + tail;
    var front := head + title + middle;
    assert html == head + (title + middle + body + tail);
    assert html == front + body + tail;
    assert html[..|head|] == head;
    assert html[|head|..|head| + |title|] == title;
    assert html[|front|..|front| + |body|] == body;
    assert html[|front| + |body|..] == tail;
  }

  /**
   * An unknown format still exports, as JSON, but the download name keeps the extension
   * that was asked for.
   */
  lemma UnknownFormatFallsBackToJson(c: ContentController, id: Guid, format: string)
    requires c.Fetch(id).Some?
    requires format != "html" && format != "markdown"
    ensures var r := c.ExportContent(id, Some(format));
            && r.contentType == "application/json"
            && r.body == c.rt.encodeRow(c.Fetch(id).value)
            && r.disposition == Some(Disposition(c.Fetch(id).value.title, format))
  {
  }

  /** With no format given the export is JSON named `{Title}.json`. */
  lemma MissingFormatIsJson(c: ContentController, id: Guid)
    requires c.Fetch(id).Some?
    ensures var r := c.ExportContent(id, None);
            r.contentType == "application/json" && r.disposition == Some(Disposition(c.Fetch(id).value.title, "json"))
  {
    assert FormatOf(DefaultFormat) == Json;
  }

  /** Export answers 404 exactly when no content has the id or its author is missing. */
  lemma ExportNotFound(c: ContentController, id: Guid, format: Option<string>)
    ensures c.ExportContent(id, format).status == 404 <==>
              match FindKey(c.contents, ContentId, id)
              case None => true
              case Some(i) => c.contents[i].authorId !in Keys(c.users, Auth.UserId)
  {
  }

  /** The HTML view serves a content exactly when it is stored, published and has its author. */
  lemma HtmlViewOnlyPublished(c: ContentController, id: Guid)
    ensures c.ContentAsHtml(id).status == 200 <==>
              match FindKey(c.contents, ContentId, id)
              case None => false
              case Some(i) => c.contents[i].status == Published && c.contents[i].authorId in Keys(c.users, Auth.UserId)
  {
  }
}
