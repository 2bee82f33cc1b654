/** Running the update on its own output changes nothing, as long as no
    text field of a record other than "id" and "type" holds `</div>`: the new section then contains no
    `</div>` but its last line, so the pattern finds exactly that section
    again and puts the same section in its place. */
module Stability {
  import opened Results
  import opened Text
  import opened Csl
  import opened Authors
  import opened Venue
  import opened Entry
  import opened Section

  /** A text field that is missing or holds no `</div>`. */
  ghost predicate CleanText(f: Option<string>) {
    f.None? || Absent(f.value, Close)
  }

  /** An author whose name parts hold no `</div>`. */
  ghost predicate CleanAuthor(a: Author) {
    CleanText(a.literal) && CleanText(a.given) && CleanText(a.family)
  }

  /** A record in which no text field but "id" and "type" holds `</div>`,
      whether or not the field is printed. */
  ghost predicate CleanRecord(item: Record) {
    CleanText(item.title) && CleanText(item.titleShort) && CleanText(item.containerTitle) &&
    CleanText(item.volume) && CleanText(item.issue) && CleanText(item.note) &&
    CleanText(item.doi) && CleanText(item.url) &&
    (item.author.Some? ==> forall i :: 0 <= i < |item.author.value| ==> CleanAuthor(item.author.value[i]))
  }

  /** A string that ends a line. */
  predicate EndsLine(s: string) {
    |s| > 0 && s[|s| - 1] == '\n'
  }

  /** A text without the letter "v" holds no `</div>`. */
  lemma Literal(s: string)
    requires 'v' !in s
    ensures Absent(s, Close)
  {
    AbsentMissingChar(s, Close, 'v');
  }

  /** Two texts without `</div>` make none when the first does not end with
      a character of "</div" or the second does not start with one of "/div>". */
  lemma Glue(x: string, y: string)
    requires Absent(x, Close) && Absent(y, Close)
    requires |x| == 0 || |y| == 0 || x[|x| - 1] !in "</div" || y[0] !in "/div>"
    ensures Absent(x + y, Close)
  {
    assert Close[..|Close| - 1] == "</div" && Close[1..] == "/div>";
    SeamByEnds(x, y, Close);
    AbsentConcat(x, y, Close);
  }

  /** A text ending in "/" not preceded by "<" can be followed by any text
      without `</div>` (the DOI after "https://doi.org/"). */
  lemma SlashGlue(x: string, y: string)
    requires Absent(x, Close) && Absent(y, Close)
    requires |x| >= 2 && x[|x| - 1] == '/' && x[|x| - 2] != '<'
    ensures Absent(x + y, Close)
  {
    forall t | 0 < t < |Close| && t <= |x| && |Close| - t <= |y|
      ensures x[|x| - t..] != Close[..t] || y[..|Close| - t] != Close[t..]
    {
      if t == 2 {
        assert x[|x| - t..][0] != Close[..t][0];
      } else {
        assert x[|x| - t..][t - 1] != Close[..t][t - 1];
      }
    }
    AbsentConcat(x, y, Close);
  }

  /** Two texts without `</div>`, the first ending a line, make a text
      without `</div>` that ends a line when the second is empty or does. */
  lemma GlueLine(x: string, y: string)
    requires Absent(x, Close) && Absent(y, Close) && EndsLine(x)
    requires y == [] || EndsLine(y)
    ensures Absent(x + y, Close) && EndsLine(x + y)
  {
    Glue(x, y);
  }

  /** A missing field reads as the empty text. */
  lemma CleanOrEmpty(f: Option<string>)
    requires CleanText(f)
    ensures Absent(OrEmpty(f), Close)
  {
  }

  /** The title line holds no `</div>`. */
  lemma TitleClean(item: Record)
    requires CleanRecord(item)
    ensures Absent(TitleLine(item), Close) && EndsLine(TitleLine(item))
  {
    var short, title := OrEmpty(item.titleShort), OrEmpty(item.title);
    CleanOrEmpty(item.titleShort);
    CleanOrEmpty(item.title);
    var a := "<b><span style=\"color: #0b5394;\">[";
    var b := "]</span> ";
    var c := "</b><br>\n";
    Literal(a);
    Literal(b);
    Literal(c);
    Glue(a, short);
    Glue(a + short, b);
    Glue(a + short + b, title);
    Glue(a + short + b + title, c);
  }

  /** The shown name of a clean author holds no `</div>`. */
  lemma DisplayNameClean(a: Author)
    requires CleanAuthor(a)
    ensures Absent(DisplayName(a), Close)
  {
    if a.literal.None? && a.given.Some? && a.family.Some? {
      Literal(" ");
      Glue(a.given.value, " ");
      Glue(a.given.value + " ", a.family.value);
    }
  }

  /** Underlining adds no `</div>`. */
  lemma UnderlinedClean(name: string)
    requires Absent(name, Close)
    ensures Absent(Underlined(name), Close)
  {
    if name in OwnerNames {
      Literal("<u>");
      Literal("</u>");
      Glue("<u>", name);
      Glue("<u>" + name, "</u>");
    }
  }

  /** Listing names without `</div>` in English makes no `</div>`. */
  lemma {:induction false} EnglishListClean(names: seq<string>)
    requires |names| > 0 && forall i :: 0 <= i < |names| ==> Absent(names[i], Close)
    ensures Absent(EnglishList(names), Close)
    decreases |names|
  {
    if |names| == 2 {
      Literal(" and ");
      Glue(names[0], " and ");
      Glue(names[0] + " and ", names[1]);
    } else if |names| > 2 {
      EnglishListClean(names[1..]);
      Literal(", ");
      Glue(names[0], ", ");
      Glue(names[0] + ", ", EnglishList(names[1..]));
    }
  }

  /** The author line of a clean record holds no `</div>`. */
  lemma AuthorLineClean(item: Record)
    requires CleanRecord(item) && AuthorLine(item).Ok?
    ensures Absent(AuthorLine(item).value, Close)
    ensures AuthorLine(item).value == [] || EndsLine(AuthorLine(item).value)
  {
    if item.author.Some? {
      var authors := item.author.value;
      var shown := ShownNames(authors);
      forall i | 0 <= i < |shown| ensures Absent(shown[i], Close) {
        DisplayNameClean(authors[i]);
        UnderlinedClean(DisplayName(authors[i]));
      }
      EnglishListClean(shown);
      Literal("<br>\n");
      Glue(EnglishList(shown), "<br>\n");
    }
  }

  /** Joining parts without `</div>` with ", " makes no `</div>`. */
  lemma {:induction false} JoinClean(parts: seq<string>)
    requires forall i :: 0 <= i < |parts| ==> Absent(parts[i], Close)
    ensures Absent(Join(", ", parts), Close)
    decreases |parts|
  {
    if |parts| > 1 {
      JoinClean(parts[1..]);
      Literal(", ");
      Glue(parts[0], ", ");
      Glue(parts[0] + ", ", Join(", ", parts[1..]));
    }
  }

  /** Bolding the abbreviation of a venue without `</div>` makes none. */
  lemma BoldClean(venue: string)
    requires Absent(venue, Close)
    ensures Absent(BoldAbbreviation(venue), Close)
  {
    match FirstParen(venue, 0)
    case None =>
    case Some((i, j)) =>
      var abbrev := venue[i + 1..j];
      AbsentSlice(venue, Close, i + 1, j);
      Literal("(<b>");
      Literal("</b>)");
      Glue("(<b>", abbrev);
      Glue("(<b>" + abbrev, "</b>)");
      ReplaceAllAbsent(venue, "(" + abbrev + ")", "(<b>" + abbrev + "</b>)", Close);
  }

  /** A number in decimal holds no `</div>`. */
  lemma IntToStringClean(n: int)
    ensures Absent(IntToString(n), Close)
  {
    var s := IntToString(n);
    forall i | 0 <= i < |s| ensures s[i] != '<' {
      if n < 0 && i > 0 {
        assert s[i] == DecimalDigits(-n)[i - 1];
      }
    }
    AbsentMissingChar(s, Close, '<');
  }

  /** The venue text of a clean record holds no `</div>`. */
  lemma VenueClean(item: Record)
    requires CleanRecord(item) && VenueText(item).Ok?
    ensures Absent(VenueText(item).value, Close)
  {
    var container := ContainerPart(item);
    forall i | 0 <= i < |container| ensures Absent(container[i], Close) {
      BoldClean(item.containerTitle.value);
    }
    var parts := VenueParts(item).value;
    if item.kind.value != ConferenceType {
      var year := YearPart(item).value;
      forall i | 0 <= i < |year| ensures Absent(year[i], Close) {
        IntToStringClean(item.issued.value.dateParts.value[0][0]);
      }
      var volumeIssue := VolumeIssuePart(item);
      forall i | 0 <= i < |volumeIssue| ensures Absent(volumeIssue[i], Close) {
        Literal("(");
        Literal(")");
        Glue(item.volume.value, "(");
        Glue(item.volume.value + "(", item.issue.value);
        Glue(item.volume.value + "(" + item.issue.value, ")");
      }
      assert parts == container + year + volumeIssue;
    }
    JoinClean(parts);
  }

  /** The note line of a clean record holds no `</div>`. */
  lemma NoteClean(item: Record)
    requires CleanRecord(item)
    ensures Absent(NoteLine(item), Close)
    ensures NoteLine(item) == [] || EndsLine(NoteLine(item))
  {
    if item.note.Some? {
      var note := item.note.value;
      Literal("\n");
      if IsAward(note) {
        var a := "[<span class=\"red\">";
        var b := "</span> \U{1F3C6}]";
        Literal(a);
        Literal(b);
        Glue(a, note);
        Glue(a + note, b);
        Glue(a + note + b, "\n");
      } else {
        Literal(" ");
        Literal(".");
        Glue(" ", note);
        Glue(" " + note, ".");
        Glue(" " + note + ".", "\n");
      }
    }
  }

  /** The fixed parts of the two links hold no `</div>`. */
  lemma LinkPartsClean()
    ensures Absent("<a href=\"", Close) && Absent(LinkTarget, Close)
    ensures Absent(" paper-link\">Paper</a>", Close) && Absent(" code-link\">Code</a>", Close)
  {
    Literal("<a href=\"");
    LinkTargetClean();
    Literal(" paper-link\">Paper</a>");
    Literal(" code-link\">Code</a>");
  }

  /** The attributes shared by both links hold no `</div>`. */
  lemma LinkTargetClean()
    ensures Absent(LinkTarget, Close)
  {
    Literal(LinkTarget);
  }

  /** The address of a DOI without `</div>` holds none. */
  lemma DoiUrlClean(doi: string)
    requires Absent(doi, Close)
    ensures Absent(DoiUrl(doi), Close)
  {
    Literal("https://doi.org/");
    SlashGlue("https://doi.org/", doi);
  }

  /** The Paper link of a DOI without `</div>` holds none. */
  lemma PaperLinkClean(doi: string)
    requires Absent(doi, Close)
    ensures Absent(PaperLink(doi), Close)
  {
    var a := "<a href=\"";
    var b := " paper-link\">Paper</a>";
    LinkPartsClean();
    DoiUrlClean(doi);
    Glue(a, DoiUrl(doi));
    Glue(a + DoiUrl(doi), LinkTarget);
    Glue(a + DoiUrl(doi) + LinkTarget, b);
  }

  /** The Code link of a URL without `</div>` holds none. */
  lemma CodeLinkClean(url: string)
    requires Absent(url, Close)
    ensures Absent(CodeLink(url), Close)
  {
    var a := "<a href=\"";
    var b := " code-link\">Code</a>";
    LinkPartsClean();
    Glue(a, url);
    Glue(a + url, LinkTarget);
    Glue(a + url + LinkTarget, b);
  }

  /** The link line of a clean record holds no `</div>`. */
  lemma LinkLineClean(item: Record)
    requires CleanRecord(item)
    ensures Absent(LinkLine(item), Close)
    ensures LinkLine(item) == [] || EndsLine(LinkLine(item))
  {
    LinkLineCases(item);
    var br := "<br>\n";
    Literal(br);
    if item.doi.Some? {
      PaperLinkClean(item.doi.value);
    }
    if HasCodeUrl(item) {
      CodeLinkClean(item.url.value);
    }
    if item.doi.Some? && HasCodeUrl(item) {
      var paper, code := PaperLink(item.doi.value), CodeLink(item.url.value);
      Literal(" ");
      Glue(paper, " ");
      Glue(paper + " ", code);
      Glue(paper + " " + code, br);
    } else if item.doi.Some? {
      Glue(PaperLink(item.doi.value), br);
    } else if HasCodeUrl(item) {
      Glue(CodeLink(item.url.value), br);
    }
  }

  /** The list item of a clean record holds no `</div>` and ends a line. */
  lemma EntryClean(item: Record)
    requires CleanRecord(item) && EntryHtml(item).Ok?
    ensures Absent(EntryHtml(item).value, Close) && EndsLine(EntryHtml(item).value)
  {
    var authorLine := AuthorLine(item).value;
    var venue := VenueText(item).value;
    EntryHtmlOf(item, authorLine, venue);
    TitleClean(item);
    AuthorLineClean(item);
    VenueClean(item);
    Literal(".\n");
    Glue(venue, ".\n");
    NoteClean(item);
    LinkLineClean(item);
    Literal("<li>\n");
    Literal("<br>\n");
    Literal("</li>\n");
    var x := "<li>\n" + TitleLine(item);
    GlueLine("<li>\n", TitleLine(item));
    GlueLine(x, authorLine);
    GlueLine(x + authorLine, VenueLine(venue));
    var y := x + authorLine + VenueLine(venue);
    GlueLine(y, NoteLine(item));
    GlueLine(y + NoteLine(item), "<br>\n");
    GlueLine(y + NoteLine(item) + "<br>\n", LinkLine(item));
    GlueLine(y + NoteLine(item) + "<br>\n" + LinkLine(item), "</li>\n");
  }

  /** What a clean record adds to the list holds no `</div>`. */
  lemma ItemClean(item: Record)
    requires CleanRecord(item) && ItemHtml(item).Ok?
    ensures Absent(ItemHtml(item).value, Close)
    ensures ItemHtml(item).value == [] || EndsLine(ItemHtml(item).value)
  {
    ItemHtmlCases(item);
    if !IsChineseVersion(item.id.value) {
      EntryClean(item);
    }
  }

  /** The list items of clean records hold no `</div>`. */
  lemma {:induction false} ItemsClean(pubs: seq<Record>)
    requires forall i :: 0 <= i < |pubs| ==> CleanRecord(pubs[i])
    requires RenderItems(ItemHtml, pubs).Ok?
    ensures Absent(RenderItems(ItemHtml, pubs).value, Close)
    ensures RenderItems(ItemHtml, pubs).value == [] || EndsLine(RenderItems(ItemHtml, pubs).value)
    decreases |pubs|
  {
    if pubs != [] {
      var prefix := pubs[..|pubs| - 1];
      var last := pubs[|pubs| - 1];
      assert RenderItems(ItemHtml, prefix).Ok? && ItemHtml(last).Ok?;
      ItemsClean(prefix);
      ItemClean(last);
      var x, h := RenderItems(ItemHtml, prefix).value, ItemHtml(last).value;
      if x == [] {
        assert x + h == h;
      } else if h == [] {
        assert x + h == x;
      } else {
        GlueLine(x, h);
      }
    }
  }

  /** Updating the page a second time with the same clean records leaves
      it as the first update made it. */
  lemma UpdateIdempotent(page: string, pubs: seq<Record>)
    requires forall i :: 0 <= i < |pubs| ==> CleanRecord(pubs[i])
    requires UpdatedPage(page, pubs).Ok?
    ensures UpdatedPage(UpdatedPage(page, pubs).value, pubs) == UpdatedPage(page, pubs)
  {
    var items := RenderItems(ItemHtml, pubs).value;
    ItemsClean(pubs);
    BlockWellFormed(items);
    ReplaceSectionsIdempotent(page, SectionBlock(items));
  }
}
