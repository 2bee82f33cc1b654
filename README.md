# Publication list renderer, modelled in Dafny

This project models the publication-list renderer of the personal website
zhongxin-liu.github.io (`scripts/update_pubs.py`). The renderer reads
citation records in the CSL-JSON format and turns each one into an HTML
list item. It then puts the list in place of the page's
`<div id="publications">…</div>` section.

The model follows the script function by function:

- `format_authors` becomes `Authors.FormatAuthors`, a method with the
  script's loop. It is proved equal to the function `Authors.AuthorsText`.
- `bold_abbreviation` becomes the function `Venue.BoldAbbreviation`. It is
  built on a model of the search `\((.*?)\)` (`Venue.FirstParen`) and of
  `str.replace` (`Text.ReplaceAll`).
- `format_venue` becomes `Venue.FormatVenue`, a method that appends to a
  list of parts. It is proved equal to `Venue.VenueText`.
- `should_include_publication` becomes `Section.ShouldIncludePublication`.
- `generate_publication_html` becomes `Entry.GeneratePublicationHtml`, a
  method that grows the item line by line. It is proved equal to
  `Entry.EntryHtml`.
- `update_publications_section` becomes `Section.UpdatePublicationsSection`,
  a method with the script's loop over the records. It is proved equal to
  `Section.UpdatedPage`.
  - `re.sub` with the pattern `<div id="publications">.*?</div>\s*` becomes
    `Section.ReplaceSections`. It uses the leftmost start tag, the first
    `</div>` after it and the greedy run of white space that follows.

A record is the datatype `Csl.Record`; every JSON key is an `Option`. A
Python exception becomes `Results.Err` with a `KeyError` or an
`IndexError`, and the first exception raised wins. The module `Stability`
proves the property the page relies on: running the update a second time
with the same records changes nothing, provided that in every record no
text field except "id" and "type" contains `</div>`.

Modules: `Results`, `Csl`, `Text` (the `str` operations), `Authors`,
`Venue`, `Entry`, `Section` and `Stability`.

## Model

| member | source | states |
|---|---|---|
| Authors.FormatAuthors | scripts/update_pubs.py:14-36 | the loop produces one display name per author: "literal" when present, otherwise "given" and "family" joined by one space with missing parts left out; the result is the English list of the underlined names, or IndexError for an empty list |
| Authors.DisplayName | scripts/update_pubs.py:17-27 | no contract of its own: the literal name, else given and family joined by one space with missing parts left out; Authors.FormatAuthors' loop invariant proves the names its loop builds equal it |
| Authors.Underlined | scripts/update_pubs.py:30-32 | a name is left unchanged exactly when it is not one of the owner's two spellings |
| Authors.ShownNames | scripts/update_pubs.py:30-32 | one shown name per author, in list order; each is the author's display name, wrapped in `<u>…</u>` exactly when it is "Zhongxin Liu" or "Zhongxin Liu*" |
| Authors.EnglishList | scripts/update_pubs.py:34-36 | no contract of its own: one name alone, two joined by " and ", more as the first, ", " and the list of the rest; Authors.EnglishListJoin proves it equals the join form of line 35 |
| Authors.AuthorsText | scripts/update_pubs.py:34-36 | no contract of its own: IndexError for an empty list, otherwise the English list of the shown names; stated by Authors.AuthorsTextFew and Authors.AuthorsTextMany, and Authors.FormatAuthors is proved equal to it |
| Authors.AuthorsTextFew | scripts/update_pubs.py:34-36 | the author text fails exactly for an empty list; a single author gives that name alone |
| Authors.AuthorsTextMany | scripts/update_pubs.py:34-35 | two or more authors give all but the last joined by ", ", then " and ", then the last |
| Authors.EnglishListJoin | scripts/update_pubs.py:35 | the recursive English list equals the join of all names but the last with ", ", followed by " and " and the last |
| Venue.CloseParen | scripts/update_pubs.py:40-41 | the lazy `.*?` ends at the first ")" after the "(", with no line break in between; when it finds none, no match starts at that "(" |
| Venue.FirstParen | scripts/update_pubs.py:40-41 | `re.search` finds the leftmost "(" that starts a match and the ")" that ends it; when it finds nothing, the text has no match |
| Venue.FirstParenIs | scripts/update_pubs.py:41 | a match with no match starting before it is the one the search finds |
| Venue.CopyIsMatch | scripts/update_pubs.py:41-44 | every copy of "(abbreviation)" in the venue is itself a match of the pattern |
| Venue.BoldAbbreviation | scripts/update_pubs.py:38-45 | a venue with no "(…)" match is returned unchanged |
| Venue.BoldFirst | scripts/update_pubs.py:38-45 | the text before the first match is kept and the match becomes "(<b>abbreviation</b>)"; the text after it only has its copies of "(abbreviation)" bolded |
| Venue.DecimalDigits | scripts/update_pubs.py:72 | the digits of a natural number are a non-empty run of decimal digits |
| Venue.DecimalDigitsValue | scripts/update_pubs.py:72 | the digits stand for the number, and only zero is written with a leading "0" (as the single digit "0") |
| Venue.IntToString | scripts/update_pubs.py:72 | `str(year)` is non-empty and starts with a minus sign exactly when the year is negative |
| Venue.IntToStringValue | scripts/update_pubs.py:72 | after the sign, `str(year)` is the digits of the year's magnitude, with no leading zero |
| Venue.ContainerPart | scripts/update_pubs.py:52-55 | no contract of its own: the bolded "container-title" when the record has one, else nothing; stated by Venue.FormatVenue and Venue.VenueJournal |
| Venue.YearPart | scripts/update_pubs.py:70-72 | no contract of its own: `str` of the first element of the first "date-parts" list when "issued" has "date-parts", IndexError when either list is empty; stated by Entry.EntryHtmlFails and Venue.VenueJournal |
| Venue.VolumeIssuePart | scripts/update_pubs.py:74-75 | no contract of its own: "volume(issue)" when the record has both; stated by Venue.VenueJournal |
| Venue.VenueParts | scripts/update_pubs.py:49-75 | no contract of its own: KeyError without "type", the venue name alone for "paper-conference", else venue name, year and volume(issue) in that order; Venue.FormatVenue is proved to append exactly these |
| Venue.VenueText | scripts/update_pubs.py:47-77 | no contract of its own: the parts joined by ", "; Venue.FormatVenue is proved equal to it and Venue.VenueJournal states its journal form |
| Venue.FormatVenue | scripts/update_pubs.py:47-77 | the appended parts, joined by ", ", equal the venue text; a record without "type" raises KeyError; a "paper-conference" gets only its bolded venue name, with no year and no volume(issue) |
| Venue.VenueJournal | scripts/update_pubs.py:68-77 | a dated non-conference record with volume and issue ends its venue line with ", year, volume(issue)", after the bolded venue name when there is one |
| Text.FindFrom | scripts/update_pubs.py:134 | the first index at or after the start where the pattern occurs, with none before it; None exactly when it occurs nowhere after the start |
| Text.Contains | scripts/update_pubs.py:104 | no contract of its own: `pat in s` (also at lines 118 and 134), the search finding an occurrence; Text.ContainsOccurs proves it holds exactly when the pattern occurs |
| Text.ContainsOccurs | scripts/update_pubs.py:104 | `pat in s` holds exactly when the pattern occurs somewhere in the text |
| Text.Lower | scripts/update_pubs.py:118 | lowering keeps the length and lowers each character on its own |
| Text.JoinSnoc | scripts/update_pubs.py:77 | joining one more part adds the separator and that part at the end |
| Text.Join | scripts/update_pubs.py:77 | no contract of its own: `sep.join(parts)` (also at lines 26, 35 and 122), the parts with the separator between consecutive ones; stated by Text.JoinSnoc, Authors.EnglishListJoin and Entry.LinkLineCases |
| Text.ReplaceAll | scripts/update_pubs.py:44 | no contract of its own: `str.replace`, scanning left to right; its behaviour is stated by Text.ReplaceAllAt and Text.ReplaceAllNone |
| Text.ReplaceAllAt | scripts/update_pubs.py:44 | `str.replace` keeps the text before the first occurrence, puts the replacement in its place and carries on after it |
| Text.ReplaceAllFrom | scripts/update_pubs.py:44 | the same, from any index that has no occurrence between it and the first occurrence |
| Text.ReplaceAllNone | scripts/update_pubs.py:44 | a text with no occurrence is returned unchanged |
| Text.ReplaceAllAbsent | scripts/update_pubs.py:44 | replacing creates no new occurrence of a pattern that neither the text nor the replacement contains, when the replacement's end characters cannot extend that pattern |
| Entry.LinkLineCases | scripts/update_pubs.py:112-122 | a Paper link to "https://doi.org/"+DOI exactly when there is a DOI; a Code link exactly when the URL contains "github.com" (any case); Paper first, one space between; no line without a link |
| Entry.BuildLinkLine | scripts/update_pubs.py:112-122 | the list of links, joined by spaces and ended by "<br>\n" when not empty, is the link line |
| Entry.EntryHtmlFails | scripts/update_pubs.py:92-100 | an item fails exactly on an empty author list (IndexError, checked first), a missing "type" (KeyError) or a non-conference record whose "date-parts" has no first year |
| Entry.TitleLine | scripts/update_pubs.py:87-90 | no contract of its own: the bold line with the bracketed short title in colour and the title, missing ones read as ""; Entry.GeneratePublicationHtml proves the method appends it and Stability.TitleClean that it ends a line |
| Csl.OrEmpty | scripts/update_pubs.py:88-89 | no contract of its own: `item.get(key, '')`, the field or "" when it is missing; Stability.CleanOrEmpty states it adds no `</div>` |
| Entry.AuthorLine | scripts/update_pubs.py:92-95 | no contract of its own: nothing without "author", otherwise the author text and "<br>\n", or its IndexError; stated by Entry.EntryHtmlFails and Stability.AuthorLineClean |
| Entry.VenueLine | scripts/update_pubs.py:98-100 | no contract of its own: nothing for an empty venue, otherwise the venue and ".\n"; Entry.GeneratePublicationHtml proves the method appends it |
| Entry.IsAward | scripts/update_pubs.py:104 | no contract of its own: the lowered note contains "award"; Entry.GeneratePublicationHtml proves the method branches on it |
| Entry.DoiUrl | scripts/update_pubs.py:115 | no contract of its own: "https://doi.org/" followed by the DOI; stated by Entry.LinkLineCases and Stability.DoiUrlClean |
| Entry.PaperLink | scripts/update_pubs.py:116 | no contract of its own: the Paper anchor to the DOI address; stated by Entry.LinkLineCases and Stability.PaperLinkClean |
| Entry.CodeLink | scripts/update_pubs.py:119 | no contract of its own: the Code anchor to the URL; stated by Entry.LinkLineCases and Stability.CodeLinkClean |
| Entry.HasCodeUrl | scripts/update_pubs.py:118 | no contract of its own: the record has a URL whose lowered form contains "github.com"; stated by Entry.LinkLineCases |
| Entry.Links | scripts/update_pubs.py:113-119 | no contract of its own: the Paper link when there is a DOI, then the Code link when the URL is on GitHub; Entry.BuildLinkLine proves the method builds this list |
| Entry.LinkLine | scripts/update_pubs.py:121-122 | no contract of its own: nothing without links, otherwise the links joined by " " and "<br>\n"; stated by Entry.LinkLineCases and Entry.BuildLinkLine |
| Entry.EntryHtml | scripts/update_pubs.py:83-125 | no contract of its own: "<li>\n", the title, author, venue and note lines, "<br>\n", the link line and "</li>\n", or the first exception; Entry.GeneratePublicationHtml is proved equal to it and Entry.EntryHtmlFails states when it fails |
| Entry.NoteLine | scripts/update_pubs.py:102-108 | no contract of its own: the award form (red span, trophy) when the lowered note contains "award", " note." otherwise; Entry.GeneratePublicationHtml proves the method builds it and Stability.NoteClean states what it cannot contain |
| Entry.GeneratePublicationHtml | scripts/update_pubs.py:83-125 | the item grown line by line equals the entry: "<li>\n", the title line, the author line when there is an author list, the venue line when the venue is not empty, the note line (red with a trophy when it mentions "award"), "<br>\n", the link line and "</li>\n" |
| Section.ShouldIncludePublication | scripts/update_pubs.py:79-81 | every record is included |
| Section.IsChineseVersion | scripts/update_pubs.py:134 | no contract of its own: the lowered id contains "chinese"; stated by Section.ItemHtmlCases and Section.ChineseVersionSkipped |
| Section.ItemHtml | scripts/update_pubs.py:133-137 | no contract of its own; its three cases are stated by Section.ItemHtmlCases |
| Section.ItemHtmlCases | scripts/update_pubs.py:133-137 | a record without "id" raises KeyError, a Chinese version adds nothing, any other record adds its list item |
| Section.ChineseVersionSkipped | scripts/update_pubs.py:134-135 | adding a record whose id contains "chinese" (any case) leaves the list as it was |
| Section.RenderItems | scripts/update_pubs.py:133-137 | no contract of its own: the records' outcomes concatenated in input order, the first exception winning; stated by Section.RenderItemsConcat, Section.RenderItemsOk, Section.RenderItemsFirstError and Section.RenderItemsPrefixErr |
| Section.RenderItemsConcat | scripts/update_pubs.py:133-137 | the items of a list of records are the items of its first part followed by those of its second part, so input order is kept |
| Section.RenderItemsOk | scripts/update_pubs.py:133-137 | the list renders exactly when every record renders |
| Section.RenderItemsFirstError | scripts/update_pubs.py:133-137 | the exception of the first record that raises is the exception of the whole list |
| Section.RenderItemsPrefixErr | scripts/update_pubs.py:133-137 | once a prefix of the records raises, the whole list raises the same exception |
| Section.IsSpace | scripts/update_pubs.py:142 | no contract of its own: the characters `\s` matches in a `str` pattern, the ones Python's `str.isspace` accepts |
| Section.SpaceEnd | scripts/update_pubs.py:142 | the greedy `\s*` takes every white-space character after the `</div>` and stops at the first other character |
| Section.FindSection | scripts/update_pubs.py:142-144 | the leftmost match starts at the first start tag and ends at the first `</div>` after it plus its white space; when there is none, nothing matches |
| Section.SectionMatchUnique | scripts/update_pubs.py:142 | the start of a match fixes its `</div>` and its end |
| Section.FindSectionIs | scripts/update_pubs.py:142-144 | a match with no start tag before it is the one the search finds |
| Section.ReplaceSections | scripts/update_pubs.py:144 | no contract of its own: `re.sub`, each match replaced and the search resumed after it; its behaviour is stated by Section.ReplaceSectionsNoMatch, Section.ReplaceSectionsOnly and Section.ReplaceSectionsIdempotent |
| Section.ReplaceSectionsNoMatch | scripts/update_pubs.py:144 | a page with no start tag, or no `</div>` after it, is returned unchanged |
| Section.ReplaceSectionsOnly | scripts/update_pubs.py:141-144 | a page with a single section gets the new section in its place; every character before and after the section is kept |
| Section.BlockWellFormed | scripts/update_pubs.py:129-139 | the new section starts with the start tag and ends with `</div>` and a line break; when the items contain no `</div>`, it contains no other `</div>` |
| Section.SectionBlock | scripts/update_pubs.py:129-139 | no contract of its own: the opening tag, the heading and "<ul>", the items, then "</ul>" and "</div>"; Section.UpdatePublicationsSection proves the loop builds it and Section.BlockWellFormed states its shape |
| Section.ReplacedMatch | scripts/update_pubs.py:142-144 | after the substitution, the new section is the leftmost match, running to its own last line |
| Section.ReplaceSectionsIdempotent | scripts/update_pubs.py:142-144 | substituting a well-formed section into a page twice gives the page of one substitution |
| Section.UpdatePublicationsSection | scripts/update_pubs.py:127-146 | the section built in the loop is the header, the items of the records in input order without Chinese versions, and the footer; it replaces every match in the page, or the first exception raised is returned |
| Section.UpdatedPage | scripts/update_pubs.py:127-146 | no contract of its own: the first exception of the records, or the page with every section replaced by the new one; Section.UpdatePublicationsSection is proved equal to it and Stability.UpdateIdempotent states it is stable |
| Stability.DisplayNameClean | scripts/update_pubs.py:17-27 | the display name of an author whose name parts have no `</div>` has none |
| Stability.UnderlinedClean | scripts/update_pubs.py:30-32 | underlining adds no `</div>` |
| Stability.EnglishListClean | scripts/update_pubs.py:34-35 | listing names without `</div>` makes no `</div>` |
| Stability.AuthorLineClean | scripts/update_pubs.py:92-95 | the author line of a clean record has no `</div>` and ends a line when present |
| Stability.TitleClean | scripts/update_pubs.py:87-90 | the title line of a clean record has no `</div>` and ends a line |
| Stability.BoldClean | scripts/update_pubs.py:38-45 | bolding the abbreviation of a venue without `</div>` makes none |
| Stability.IntToStringClean | scripts/update_pubs.py:72 | a year in decimal has no `</div>` |
| Stability.JoinClean | scripts/update_pubs.py:77 | joining parts without `</div>` with ", " makes none |
| Stability.VenueClean | scripts/update_pubs.py:47-77 | the venue text of a clean record has no `</div>` |
| Stability.NoteClean | scripts/update_pubs.py:102-108 | the note line of a clean record has no `</div>` and ends a line when present |
| Stability.DoiUrlClean | scripts/update_pubs.py:115 | the DOI address of a DOI without `</div>` has none |
| Stability.PaperLinkClean | scripts/update_pubs.py:116 | the Paper link of a DOI without `</div>` has none |
| Stability.CodeLinkClean | scripts/update_pubs.py:119 | the Code link of a URL without `</div>` has none |
| Stability.LinkLineClean | scripts/update_pubs.py:112-122 | the link line of a clean record has no `</div>` and ends a line when present |
| Stability.EntryClean | scripts/update_pubs.py:83-125 | the list item of a clean record has no `</div>` and ends a line |
| Stability.ItemClean | scripts/update_pubs.py:133-137 | what a clean record adds to the list has no `</div>` and is empty or ends a line |
| Stability.ItemsClean | scripts/update_pubs.py:133-137 | the items of clean records have no `</div>` and are empty or end a line |
| Stability.UpdateIdempotent | scripts/update_pubs.py:127-146 | updating a page a second time with the same records leaves it as the first update made it, when in every record every text field except "id" and "type" (printed or not, Chinese versions included) is free of `</div>` |

## Left out

- `main` (scripts/update_pubs.py:148-181) is not part of this model. It handles the command-line arguments, checks that the files exist, reads and writes the page, writes the `.html.bak` backup and prints. All of that is file-system I/O.
- `load_csl_json` is not part of this model; its JSON parsing is library code. The records are given directly as `Csl.Record` values.
- scripts/convert_bib.py is not part of this model. It calls pandoc through panflute and writes files.
- The commented-out volume and pages code (scripts/update_pubs.py:58-66) is dead code and is not modelled.
- Regular expressions in general are not modelled. Only the two fixed patterns of the script are modelled, as searches over the text.
- Section.ReplaceSections: the replacement is inserted as literal text. Python's `re.sub` processes backslash escapes in its replacement string, so a backslash in a rendered field would be rewritten or would raise `re.error`.
- Text.Lower: only the ASCII letters are lowered, while Python's `str.lower` lowers every letter. For the three words the script searches for, the answer is the same. The only non-ASCII characters Python lowers to ASCII letters are U+212A, which becomes "k", and U+0130, which becomes "i" followed by U+0307. None of "award", "github.com" and "chinese" contains "k". In each of them an "i" is followed by a letter, so it cannot be the "i" before U+0307.
- Csl.Record types "volume" and "issue" as strings and the date parts as integers. Python's f-strings and `str()` print values of any JSON type, and a non-integer year is not modelled.
- Stability.UpdateIdempotent: this is proved only when, in every record, every text field except "id" and "type" is free of `</div>`. That is more than needed: it also covers Chinese versions and URLs not on GitHub, which are never printed. A printed field holding `</div>` ends the section early on the second run, so the script is then not idempotent.
- Dafny's strings hold Unicode scalar values, so a page containing a lone surrogate code point, which a Python `str` can hold, is not modelled.
