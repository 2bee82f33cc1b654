/** The publications section of the page (`update_publications_section`):
    the list of entries and the regular-expression substitution that puts
    it in place of the page's existing section. */
module Section {
  import opened Results
  import opened Text
  import opened Csl
  import opened Entry

  /** `should_include_publication`: every record is included. */
  function ShouldIncludePublication(item: Record): (r: bool)
    ensures r
  {
    true
  }

  /** An "id" naming the Chinese version of a paper (`"chinese" in id.lower()`). */
  predicate IsChineseVersion(id: string) {
    Contains(Lower(id), "chinese")
  }

  /** What one record adds to the list: nothing for a Chinese version, its
      list item otherwise; reading a missing "id" raises KeyError. */
  function ItemHtml(item: Record): Result<string> {
    match item.id
    case None => Err(KeyError("id"))
    case Some(id) =>
      if IsChineseVersion(id) || !ShouldIncludePublication(item) then Ok("")
      else EntryHtml(item)
  }

  /** The three ways a record can go: a missing "id" raises, a Chinese
      version adds nothing, any other record adds its list item. */
  lemma ItemHtmlCases(item: Record)
    ensures item.id.None? ==> ItemHtml(item) == Err(KeyError("id"))
    ensures item.id.Some? && IsChineseVersion(item.id.value) ==> ItemHtml(item) == Ok("")
    ensures item.id.Some? && !IsChineseVersion(item.id.value) ==> ItemHtml(item) == EntryHtml(item)
  {
  }

  /** Concatenation of two outcomes; the first error wins. */
  function Then(a: Result<string>, b: Result<string>): Result<string> {
    match a
    case Err(f) => Err(f)
    case Ok(x) =>
      match b
      case Err(f) => Err(f)
      case Ok(y) => Ok(x + y)
  }

  /** The list items of the records, each rendered by `render`, in the
      order of the records; the first record that raises stops the whole
      update. The page uses `ItemHtml` as `render`. */
  function RenderItems(render: Record -> Result<string>, pubs: seq<Record>): Result<string>
    decreases |pubs|
  {
    if pubs == [] then Ok("")
    else Then(RenderItems(render, pubs[..|pubs| - 1]), render(pubs[|pubs| - 1]))
  }

  /** Rendering a list is rendering its two halves one after the other. */
  lemma {:induction false} RenderItemsConcat(render: Record -> Result<string>, a: seq<Record>, b: seq<Record>)
    ensures RenderItems(render, a + b) == Then(RenderItems(render, a), RenderItems(render, b))
    decreases |b|
  {
    if b == [] {
      assert a + b == a;
      match RenderItems(render, a)
      case Err(_) =>
      case Ok(x) => assert x + "" == x;
    } else {
      var b' := b[..|b| - 1];
      var z := b[|b| - 1];
      assert (a + b)[..|a + b| - 1] == a + b';
      assert (a + b)[|a + b| - 1] == z;
      RenderItemsConcat(render, a, b');
      match RenderItems(render, a)
      case Err(_) =>
      case Ok(x) =>
        match RenderItems(render, b')
        case Err(_) =>
        case Ok(y) =>
          match render(z)
          case Err(_) =>
          case Ok(h) => assert x + y + h == x + (y + h);
    }
  }

  /** The list renders exactly when every record renders. */
  lemma {:induction false} RenderItemsOk(render: Record -> Result<string>, pubs: seq<Record>)
    ensures RenderItems(render, pubs).Ok? <==> forall j :: 0 <= j < |pubs| ==> render(pubs[j]).Ok?
    decreases |pubs|
  {
    if pubs != [] {
      var prefix := pubs[..|pubs| - 1];
      RenderItemsOk(render, prefix);
      assert forall j :: 0 <= j < |prefix| ==> prefix[j] == pubs[j];
    }
  }

  /** The error of the first record that raises is the error of the list. */
  lemma RenderItemsFirstError(render: Record -> Result<string>, pubs: seq<Record>, i: nat)
    requires i < |pubs| && render(pubs[i]).Err?
    requires forall j :: 0 <= j < i ==> render(pubs[j]).Ok?
    ensures RenderItems(render, pubs) == Err(render(pubs[i]).fault)
  {
    var before := pubs[..i];
    RenderItemsOk(render, before);
    assert pubs[..i + 1] == before + [pubs[i]];
    assert RenderItems(render, pubs[..i + 1]) == Err(render(pubs[i]).fault) by {
      assert (before + [pubs[i]])[..i] == before;
    }
    assert pubs == pubs[..i + 1] + pubs[i + 1..];
    RenderItemsConcat(render, pubs[..i + 1], pubs[i + 1..]);
  }

  /** A Chinese version of a paper adds nothing to the list. */
  lemma ChineseVersionSkipped(pubs: seq<Record>, item: Record)
    requires item.id.Some? && IsChineseVersion(item.id.value)
    ensures RenderItems(ItemHtml, pubs + [item]) == RenderItems(ItemHtml, pubs)
  {
    assert (pubs + [item])[..|pubs|] == pubs;
    match RenderItems(ItemHtml, pubs)
    case Err(_) =>
    case Ok(x) => assert x + "" == x;
  }

  /** One more record extends the list by its own outcome. */
  lemma RenderItemsSnoc(render: Record -> Result<string>, pubs: seq<Record>, i: nat)
    requires i < |pubs|
    ensures RenderItems(render, pubs[..i + 1]) == Then(RenderItems(render, pubs[..i]), render(pubs[i]))
  {
    assert pubs[..i + 1][..i] == pubs[..i];
  }

  /** Once a prefix of the list raises, the list raises the same way. */
  lemma RenderItemsPrefixErr(render: Record -> Result<string>, pubs: seq<Record>, i: nat)
    requires i <= |pubs| && RenderItems(render, pubs[..i]).Err?
    ensures RenderItems(render, pubs) == RenderItems(render, pubs[..i])
  {
    assert pubs == pubs[..i] + pubs[i..];
    RenderItemsConcat(render, pubs[..i], pubs[i..]);
  }

  /** Appending to a string that ends with `b` appends to `b`. */
  lemma AppendGrouping(a: string, b: string, c: string)
    ensures a + b + c == a + (b + c)
  {
  }

  /** The start tag the substitution searches for. */
  const Marker := "<div id=\"publications\">"

  /** The end tag the lazy `.*?` stops at. */
  const Close := "</div>"

  /** The first lines of the new section. */
  const Opening := "<div id=\"publications\">\n"
  const Heading := "<h2>Publications</h2>\n<ul>\n"

  /** The last lines of the new section. */
  const Footer := "</ul>\n</div>\n"

  /** The new section around the list items. */
  function SectionBlock(items: string): string {
    Opening + Heading + items + Footer
  }

  /** A white-space character as `\s` matches it in a `str` pattern
      (Python's `str.isspace`). */
  predicate IsSpace(c: char) {
    ('\t' <= c <= '\r') || ('\U{1C}' <= c <= ' ') || c == '\U{85}' || c == '\U{A0}' ||
    c == '\U{1680}' || ('\U{2000}' <= c <= '\U{200A}') || c == '\U{2028}' || c == '\U{2029}' ||
    c == '\U{202F}' || c == '\U{205F}' || c == '\U{3000}'
  }

  /** The end of the run of white space starting at `k` (the greedy `\s*`). */
  function SpaceEnd(s: string, k: nat): (r: nat)
    requires k <= |s|
    ensures k <= r <= |s|
    ensures forall m :: k <= m < r ==> IsSpace(s[m])
    ensures r == |s| || !IsSpace(s[r])
    decreases |s| - k
  {
    if k == |s| || !IsSpace(s[k]) then k else SpaceEnd(s, k + 1)
  }

  /** The pattern `<div id="publications">.*?</div>\s*` (the dot matching
      newlines too) matches `s[p..e]`, its `</div>` at `c`: the start tag at
      `p`, the first `</div>` after it at `c`, and all the white space after
      that. */
  predicate SectionMatch(s: string, p: int, c: int, e: int) {
    Occurs(s, Marker, p) && p + |Marker| <= c && Occurs(s, Close, c) &&
    (forall k :: p + |Marker| <= k < c ==> !Occurs(s, Close, k)) &&
    c + |Close| <= e <= |s| &&
    (forall k :: c + |Close| <= k < e ==> IsSpace(s[k])) &&
    (e == |s| || !IsSpace(s[e]))
  }

  /** The leftmost match of the pattern: it starts at the first start tag,
      and there is none when no `</div>` follows that tag. */
  function FindSection(s: string): (r: Option<(nat, nat, nat)>)
    ensures r.Some? ==> SectionMatch(s, r.value.0, r.value.1, r.value.2)
    ensures r.Some? ==> forall k :: 0 <= k < r.value.0 ==> !Occurs(s, Marker, k)
    ensures r.None? ==> forall p, c, e :: !SectionMatch(s, p, c, e)
  {
    match FindFrom(s, Marker, 0)
    case None => None
    case Some(p) =>
      match FindFrom(s, Close, p + |Marker|)
      case None => None
      case Some(c) => Some((p, c, SpaceEnd(s, c + |Close|)))
  }

  /** A match is fixed by its start: the `</div>` and the end follow. */
  lemma SectionMatchUnique(s: string, p: int, c: int, e: int, c': int, e': int)
    requires SectionMatch(s, p, c, e) && SectionMatch(s, p, c', e')
    ensures c == c' && e == e'
  {
    assert !(c < c') && !(c' < c);
    assert !(e < e') && !(e' < e);
  }

  /** A match with no start tag before it is the one FindSection finds. */
  lemma FindSectionIs(s: string, p: nat, c: nat, e: nat)
    requires SectionMatch(s, p, c, e)
    requires forall k :: 0 <= k < p ==> !Occurs(s, Marker, k)
    ensures FindSection(s) == Some((p, c, e))
  {
    var found := FindSection(s);
    assert found.Some?;
    var (p', c', e') := found.value;
    assert !(p' < p) && !(p < p');
    SectionMatchUnique(s, p, c, e, c', e');
  }

  /** `re.sub` with the pattern: every match, leftmost first and each search
      resuming where the previous match ended, becomes `block`. */
  function ReplaceSections(s: string, block: string): string
    decreases |s|
  {
    match FindSection(s)
    case None => s
    case Some((p, _, e)) => s[..p] + block + ReplaceSections(s[e..], block)
  }

  /** A page where the pattern finds no match (no start tag, or no
      `</div>` after the first one) is left as it is. */
  lemma ReplaceSectionsNoMatch(s: string, block: string)
    requires forall p, c, e :: !SectionMatch(s, p, c, e)
    ensures ReplaceSections(s, block) == s
  {
  }

  /** A page with one section gets the new section in place of it, and
      every character before and after it is kept. */
  lemma ReplaceSectionsOnly(s: string, block: string, p: nat, c: nat, e: nat)
    requires SectionMatch(s, p, c, e)
    requires forall k :: 0 <= k < p ==> !Occurs(s, Marker, k)
    requires forall k :: e <= k ==> !Occurs(s, Marker, k)
    ensures ReplaceSections(s, block) == s[..p] + block + s[e..]
  {
    FindSectionIs(s, p, c, e);
    AbsentSuffix(s, Marker, e);
    ReplaceSectionsNoMatch(s[e..], block);
  }

  /** A new section that starts with the start tag, ends with `</div>` and
      a line break, and has no other `</div>` after its start tag. */
  predicate WellFormedBlock(b: string) {
    |b| >= |Marker| + |Close| + 1 && b[..|Marker|] == Marker &&
    b[|b| - |Close| - 1..] == Close + "\n" &&
    forall k :: |Marker| <= k < |b| - |Close| - 1 ==> !Occurs(b, Close, k)
  }

  /** The first line of the section is the start tag, its last line the end tag. */
  lemma TagLines()
    ensures Opening == Marker + "\n"
    ensures Footer == "</ul>\n" + (Close + "\n")
  {
  }

  /** Moving the brackets of a concatenation of six strings. */
  lemma Regroup(a: string, b: string, c: string, d: string, e: string, f: string)
    ensures (a + b) + c + d + (e + f) == a + (b + c + d + e) + f
  {
  }

  /** A block made of the start tag, a body without `</div>` that ends with
      a line break, and the end tag on its own line is well formed. */
  lemma WellFormedAround(inner: string)
    requires Absent(inner, Close)
    requires |inner| > 0 && inner[|inner| - 1] == '\n'
    ensures WellFormedBlock(Marker + inner + (Close + "\n"))
  {
    var b := Marker + inner + (Close + "\n");
    assert b[..|Marker|] == Marker;
    assert b[|b| - |Close| - 1..] == Close + "\n";
    OccursInCopy(b, inner, |Marker|, Close);
    forall k | |Marker| <= k < |b| - |Close| - 1 ensures !Occurs(b, Close, k) {
      if |Marker| + |inner| < k + |Close| {
        var t := |Marker| + |inner| - 1 - k;
        assert b[k..k + |Close|][t] == b[|Marker| + |inner| - 1] == inner[|inner| - 1] == '\n';
        assert Close[t] != '\n';
      } else {
        assert !Occurs(inner, Close, k - |Marker|);
      }
    }
  }

  /** The section around list items without `</div>` that end with a line
      break is well formed. */
  lemma BlockWellFormed(items: string)
    requires Absent(items, Close)
    requires items == [] || items[|items| - 1] == '\n'
    ensures WellFormedBlock(SectionBlock(items))
  {
    var head := "\n" + Heading;
    var tail := "</ul>\n";
    AbsentMissingChar(head, Close, 'v');
    SeamByEnds(head, items, Close);
    AbsentConcat(head, items, Close);
    AbsentMissingChar(tail, Close, 'v');
    SeamByEnds(head + items, tail, Close);
    AbsentConcat(head + items, tail, Close);
    WellFormedAround(head + items + tail);
    TagLines();
    Regroup(Marker, "\n", Heading, items, tail, Close + "\n");
  }

  /** The first character of a page survives the substitution. */
  lemma ReplaceSectionsHead(s: string, block: string)
    requires WellFormedBlock(block)
    ensures |ReplaceSections(s, block)| == 0 <==> |s| == 0
    ensures |s| > 0 ==> ReplaceSections(s, block)[0] == s[0]
  {
    match FindSection(s)
    case None =>
    case Some((p, _, e)) =>
      if p == 0 {
        assert s[0] == s[0..|Marker|][0] == Marker[0] == block[..|Marker|][0];
      }
  }

  /** The start tag of a section stays the first start tag once the section
      is replaced by a block that starts with it. */
  lemma StartKept(s: string, block: string, rest: string, p: nat)
    requires Occurs(s, Marker, p)
    requires forall k :: 0 <= k < p ==> !Occurs(s, Marker, k)
    requires |block| >= |Marker| && block[..|Marker|] == Marker
    ensures var out := s[..p] + block + rest;
      Occurs(out, Marker, p) && forall k :: 0 <= k < p ==> !Occurs(out, Marker, k)
  {
    var out := s[..p] + block + rest;
    PrefixIntoMiddle(s[..p], block, rest, |Marker|);
    PrefixSplit(s, p, p + |Marker|);
    OccursSamePrefix(out, s, Marker, p + |Marker|);
  }

  /** A well-formed block placed at `p` ends with the first `</div>` after
      its start tag. */
  lemma CloseKept(out: string, block: string, p: nat)
    requires WellFormedBlock(block)
    requires p + |block| <= |out| && out[p..p + |block|] == block
    ensures Occurs(out, Close, p + |block| - |Close| - 1)
    ensures forall k :: p + |Marker| <= k < p + |block| - |Close| - 1 ==> !Occurs(out, Close, k)
  {
    OccursInCopy(out, block, p, Close);
    assert Occurs(block, Close, |block| - |Close| - 1) by {
      assert block[|block| - |Close| - 1..][..|Close|] == Close;
    }
  }

  /** After the substitution the new section is itself a match with no
      start tag before it, its `</div>` the one it ends with and nothing
      after it. */
  lemma ReplacedMatch(s: string, block: string, rest: string, p: nat, c: nat, e: nat)
    requires WellFormedBlock(block)
    requires SectionMatch(s, p, c, e)
    requires forall k :: 0 <= k < p ==> !Occurs(s, Marker, k)
    requires |rest| == 0 <==> e == |s|
    requires |rest| > 0 ==> rest[0] == s[e]
    ensures var out := s[..p] + block + rest;
      SectionMatch(out, p, p + |block| - |Close| - 1, p + |block|) &&
      forall k :: 0 <= k < p ==> !Occurs(out, Marker, k)
  {
    var out := s[..p] + block + rest;
    var c' := p + |block| - |Close| - 1;
    var e' := p + |block|;
    StartKept(s, block, rest, p);
    assert out[p..p + |block|] == block;
    CloseKept(out, block, p);
    assert out[e' - 1] == block[|block| - 1] == '\n';
    if e' < |out| {
      assert out[e'] == rest[0];
    }
  }

  /** A page whose first section was just replaced, and whose rest is
      stable, is stable. */
  lemma ReplaceAgain(s: string, block: string, rest: string, p: nat, c: nat, e: nat)
    requires WellFormedBlock(block)
    requires SectionMatch(s, p, c, e)
    requires forall k :: 0 <= k < p ==> !Occurs(s, Marker, k)
    requires |rest| == 0 <==> e == |s|
    requires |rest| > 0 ==> rest[0] == s[e]
    requires ReplaceSections(rest, block) == rest
    ensures ReplaceSections(s[..p] + block + rest, block) == s[..p] + block + rest
  {
    var out := s[..p] + block + rest;
    ReplacedMatch(s, block, rest, p, c, e);
    FindSectionIs(out, p, p + |block| - |Close| - 1, p + |block|);
    assert out[..p] == s[..p];
    assert out[p + |block|..] == rest;
  }

  /** Substituting a well-formed section a second time changes nothing. */
  lemma {:induction false} ReplaceSectionsIdempotent(s: string, block: string)
    requires WellFormedBlock(block)
    ensures ReplaceSections(ReplaceSections(s, block), block) == ReplaceSections(s, block)
    decreases |s|
  {
    match FindSection(s)
    case None =>
    case Some((p, c, e)) =>
      var rest := ReplaceSections(s[e..], block);
      ReplaceSectionsIdempotent(s[e..], block);
      ReplaceSectionsHead(s[e..], block);
      ReplaceAgain(s, block, rest, p, c, e);
  }

  /** The page after the update: the section rebuilt from the records in
      place of every existing one, or the error of the first record that
      raises. */
  function UpdatedPage(page: string, pubs: seq<Record>): Result<string> {
    match RenderItems(ItemHtml, pubs)
    case Err(f) => Err(f)
    case Ok(items) => Ok(ReplaceSections(page, SectionBlock(items)))
  }

  /** `update_publications_section`: builds the section one record at a
      time, skipping Chinese versions, then substitutes it into the page. */
  method UpdatePublicationsSection(htmlContent: string, publications: seq<Record>) returns (r: Result<string>)
    ensures r == UpdatedPage(htmlContent, publications)
  {
    var newContent := Opening;
    newContent := newContent + Heading;
    for i := 0 to |publications|
      invariant RenderItems(ItemHtml, publications[..i]).Ok?
      invariant newContent == Opening + Heading + RenderItems(ItemHtml, publications[..i]).value
    {
      var item := publications[i];
      ghost var prev := RenderItems(ItemHtml, publications[..i]).value;
      ItemHtmlCases(item);
      RenderItemsSnoc(ItemHtml, publications, i);
      if item.id.None? {
        RenderItemsPrefixErr(ItemHtml, publications, i + 1);
        return Err(KeyError("id"));
      }
      if IsChineseVersion(item.id.value) {
        assert newContent + "" == newContent;
        continue;
      }
      if ShouldIncludePublication(item) {
        var entry := GeneratePublicationHtml(item);
        if entry.Err? {
          RenderItemsPrefixErr(ItemHtml, publications, i + 1);
          return Err(entry.fault);
        }
        AppendGrouping(Opening + Heading, prev, entry.value);
        newContent := newContent + entry.value;
      }
    }
    newContent := newContent + Footer;
    assert publications[..|publications|] == publications;
    r := Ok(ReplaceSections(htmlContent, newContent));
  }
}
