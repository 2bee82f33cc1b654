/** One list item of the publications section (`generate_publication_html`). */
module Entry {
  import opened Results
  import opened Text
  import opened Csl
  import opened Authors
  import opened Venue

  /** The short title in brackets and colour, then the title, in bold. */
  function TitleLine(item: Record): string {
    "<b><span style=\"color: #0b5394;\">[" + OrEmpty(item.titleShort) + "]</span> " + OrEmpty(item.title) + "</b><br>\n"
  }

  /** The author line, present only when the record has an "author" list. */
  function AuthorLine(item: Record): Result<string> {
    match item.author
    case None => Ok("")
    case Some(authors) =>
      match AuthorsText(authors)
      case Err(f) => Err(f)
      case Ok(text) => Ok(text + "<br>\n")
  }

  /** The venue line, present only when the venue text is not empty. */
  function VenueLine(venue: string): string {
    if venue == "" then "" else venue + ".\n"
  }

  /** `"award" in note.lower()`. */
  predicate IsAward(note: string) {
    Contains(Lower(note), "award")
  }

  /** The note line: an award highlighted in red with a trophy, any other
      note as a plain trailing sentence. */
  function NoteLine(item: Record): string {
    match item.note
    case None => ""
    case Some(note) =>
      (if IsAward(note) then "[<span class=\"red\">" + note + "</span> \U{1F3C6}]" else " " + note + ".") + "\n"
  }

  /** The DOI resolver's address for a DOI. */
  function DoiUrl(doi: string): string {
    "https://doi.org/" + doi
  }

  /** What follows the address in both links: a new tab and the common class. */
  const LinkTarget := "\" target=\"_blank\" class=\"publication-link"

  /** The "Paper" link to the DOI resolver. */
  function PaperLink(doi: string): string {
    "<a href=\"" + DoiUrl(doi) + LinkTarget + " paper-link\">Paper</a>"
  }

  /** The "Code" link to the record's URL. */
  function CodeLink(url: string): string {
    "<a href=\"" + url + LinkTarget + " code-link\">Code</a>"
  }

  /** The record's URL points at GitHub (`'github.com' in url.lower()`). */
  predicate HasCodeUrl(item: Record) {
    item.url.Some? && Contains(Lower(item.url.value), "github.com")
  }

  /** The links of an entry, Paper before Code. */
  function Links(item: Record): seq<string> {
    (if item.doi.Some? then [PaperLink(item.doi.value)] else []) +
    (if HasCodeUrl(item) then [CodeLink(item.url.value)] else [])
  }

  /** The link line: absent when there is no link, otherwise the links
      separated by a space. */
  function LinkLine(item: Record): string {
    var links := Links(item);
    if links == [] then "" else Join(" ", links) + "<br>\n"
  }

  /** A Paper link exactly when there is a DOI, a Code link exactly when the
      URL is on GitHub, Paper first, and no line without a link. */
  lemma LinkLineCases(item: Record)
    ensures LinkLine(item) == "" <==> item.doi.None? && !HasCodeUrl(item)
    ensures item.doi.Some? && HasCodeUrl(item) ==>
      LinkLine(item) == PaperLink(item.doi.value) + " " + CodeLink(item.url.value) + "<br>\n"
    ensures item.doi.Some? && !HasCodeUrl(item) ==> LinkLine(item) == PaperLink(item.doi.value) + "<br>\n"
    ensures item.doi.None? && HasCodeUrl(item) ==> LinkLine(item) == CodeLink(item.url.value) + "<br>\n"
  {
    if item.doi.Some? && HasCodeUrl(item) {
      var paper, code := PaperLink(item.doi.value), CodeLink(item.url.value);
      assert Links(item) == [paper, code];
      assert [paper, code][1..] == [code];
      assert Join(" ", [paper, code]) == paper + " " + code;
    }
  }

  /** The list item of one record; the author list and the venue may raise,
      the author list first. */
  function EntryHtml(item: Record): Result<string> {
    match AuthorLine(item)
    case Err(f) => Err(f)
    case Ok(authorLine) =>
      match VenueText(item)
      case Err(f) => Err(f)
      case Ok(venue) =>
        Ok("<li>\n" + TitleLine(item) + authorLine + VenueLine(venue) + NoteLine(item)
           + "<br>\n" + LinkLine(item) + "</li>\n")
  }

  /** An entry fails exactly when Python raises: an empty author list
      (IndexError, checked first), a record without "type" (KeyError), or
      a non-conference record whose "date-parts" has no first year. */
  lemma EntryHtmlFails(item: Record)
    ensures EntryHtml(item).Err? <==>
      item.author == Some([]) || item.kind.None? ||
      (item.kind != Some(ConferenceType) && item.issued.Some? && item.issued.value.dateParts.Some? &&
       (|item.issued.value.dateParts.value| == 0 || |item.issued.value.dateParts.value[0]| == 0))
    ensures item.author == Some([]) ==> EntryHtml(item) == Err(IndexError("author list"))
    ensures item.author != Some([]) && item.kind.None? ==> EntryHtml(item) == Err(KeyError("type"))
  {
    if item.author.Some? {
      AuthorsTextFew(item.author.value);
    }
  }

  /** The item once its author line and venue text are known. */
  lemma EntryHtmlOf(item: Record, authorLine: string, venue: string)
    requires AuthorLine(item) == Ok(authorLine) && VenueText(item) == Ok(venue)
    ensures EntryHtml(item) == Ok("<li>\n" + TitleLine(item) + authorLine + VenueLine(venue) + NoteLine(item)
                                  + "<br>\n" + LinkLine(item) + "</li>\n")
  {
  }

  /** The links block of `generate_publication_html`: collects the Paper
      and Code links in a list and joins them when there is any. */
  method BuildLinkLine(item: Record) returns (line: string)
    ensures line == LinkLine(item)
  {
    var links: seq<string> := [];
    if item.doi.Some? {
      links := links + [PaperLink(item.doi.value)];
    }
    if HasCodeUrl(item) {
      links := links + [CodeLink(item.url.value)];
    }
    assert links == Links(item);
    line := "";
    if links != [] {
      line := Join(" ", links) + "<br>\n";
    }
  }

  /** `generate_publication_html`: grows the item one line at a time. */
  method GeneratePublicationHtml(item: Record) returns (r: Result<string>)
    ensures r == EntryHtml(item)
  {
    var html := "<li>\n";
    var shorttitle := OrEmpty(item.titleShort);
    var title := OrEmpty(item.title);
    html := html + ("<b><span style=\"color: #0b5394;\">[" + shorttitle + "]</span> " + title + "</b><br>\n");
    ghost var head := html;
    assert html == "<li>\n" + TitleLine(item);

    if item.author.Some? {
      var authors := FormatAuthors(item.author.value);
      if authors.Err? {
        return Err(authors.fault);
      }
      html := html + (authors.value + "<br>\n");
    } else {
      assert html + "" == html;
    }
    ghost var authorLine := AuthorLine(item).value;
    assert html == head + authorLine;

    var venue := FormatVenue(item);
    if venue.Err? {
      return Err(venue.fault);
    }
    if venue.value != "" {
      html := html + (venue.value + ".\n");
    } else {
      assert html + "" == html;
    }
    assert html == head + authorLine + VenueLine(venue.value);

    if item.note.Some? {
      var note: string;
      if IsAward(item.note.value) {
        note := "[<span class=\"red\">" + item.note.value + "</span> \U{1F3C6}]";
      } else {
        note := " " + item.note.value + ".";
      }
      html := html + (note + "\n");
    } else {
      assert html + "" == html;
    }
    assert html == head + authorLine + VenueLine(venue.value) + NoteLine(item);

    html := html + "<br>\n";
    ghost var body := head + authorLine + VenueLine(venue.value) + NoteLine(item) + "<br>\n";
    assert html == body;

    var linkLine := BuildLinkLine(item);
    html := html + linkLine;
    EntryHtmlOf(item, authorLine, venue.value);

    html := html + "</li>\n";
    r := Ok(html);
  }
}
