/** The author line of an entry (`format_authors`): display names, the
    owner's name underlined, and the names joined as an English list. */
module Authors {
  import opened Results
  import opened Text
  import opened Csl

  /** The spellings of the site owner's name that are underlined. */
  const OwnerNames: seq<string> := ["Zhongxin Liu", "Zhongxin Liu*"]

  /** How one author is shown: the literal name when there is one, otherwise
      the given name and the family name, in that order, separated by a
      single space, leaving out whichever is missing. */
  function DisplayName(a: Author): string {
    match a.literal
    case Some(l) => l
    case None =>
      match (a.given, a.family)
      case (Some(g), Some(f)) => g + " " + f
      case (Some(g), None) => g
      case (None, Some(f)) => f
      case (None, None) => ""
  }

  /** The owner's name wrapped in `<u>…</u>`; any other name as it is. */
  function Underlined(name: string): (r: string)
    ensures r == name <==> name !in OwnerNames
  {
    if name in OwnerNames then "<u>" + name + "</u>" else name
  }

  /** The names shown for an author list, in list order. */
  function ShownNames(authors: seq<Author>): (r: seq<string>)
    ensures |r| == |authors|
    ensures forall i :: 0 <= i < |authors| ==> r[i] == Underlined(DisplayName(authors[i]))
    decreases |authors|
  {
    if authors == [] then [] else [Underlined(DisplayName(authors[0]))] + ShownNames(authors[1..])
  }

  /** The English way of listing names: "A", "A and B", "A, B and C", … */
  function EnglishList(names: seq<string>): string
    requires |names| > 0
    decreases |names|
  {
    if |names| == 1 then names[0]
    else if |names| == 2 then names[0] + " and " + names[1]
    else names[0] + ", " + EnglishList(names[1..])
  }

  /** The author text of a record's author list; an empty list is indexed
      and raises IndexError. */
  function AuthorsText(authors: seq<Author>): Result<string> {
    if authors == [] then Err(IndexError("author list"))
    else Ok(EnglishList(ShownNames(authors)))
  }

  /** Listing two or more names in English is joining all but the last
      with ", " and adding " and " and the last one. */
  lemma {:induction false} EnglishListJoin(names: seq<string>)
    requires |names| >= 2
    ensures EnglishList(names) == Join(", ", names[..|names| - 1]) + " and " + names[|names| - 1]
    decreases |names|
  {
    if |names| > 2 {
      var rest := names[1..];
      EnglishListJoin(rest);
      assert rest[..|rest| - 1] == names[1..|names| - 1];
      assert names[..|names| - 1][1..] == names[1..|names| - 1];
    }
  }

  /** Only an empty author list fails, and a single author is shown alone. */
  lemma AuthorsTextFew(authors: seq<Author>)
    ensures AuthorsText(authors).Err? <==> authors == []
    ensures |authors| == 1 ==> AuthorsText(authors) == Ok(Underlined(DisplayName(authors[0])))
  {
  }

  /** Two or more authors are all but the last joined with ", ", then
      " and " and the last. */
  lemma AuthorsTextMany(authors: seq<Author>)
    ensures |authors| >= 2 ==>
      var shown := ShownNames(authors);
      AuthorsText(authors) == Ok(Join(", ", shown[..|shown| - 1]) + " and " + shown[|shown| - 1])
  {
    if |authors| >= 2 {
      EnglishListJoin(ShownNames(authors));
    }
  }

  /** Builds the display names one author at a time, underlines the
      owner's, and joins all but the last with ", " before " and ". */
  method FormatAuthors(authors: seq<Author>) returns (r: Result<string>)
    ensures r == AuthorsText(authors)
  {
    var formatted: seq<string> := [];
    for i := 0 to |authors|
      invariant |formatted| == i
      invariant forall k :: 0 <= k < i ==> formatted[k] == DisplayName(authors[k])
    {
      var author := authors[i];
      var name: string;
      if author.literal.Some? {
        name := author.literal.value;
      } else {
        var nameParts: seq<string> := [];
        if author.given.Some? {
          nameParts := nameParts + [author.given.value];
        }
        if author.family.Some? {
          nameParts := nameParts + [author.family.value];
        }
        name := Join(" ", nameParts);
        assert |nameParts| == 2 ==> name == nameParts[0] + " " + Join(" ", nameParts[1..]);
      }
      assert name == DisplayName(author);
      formatted := formatted + [name];
    }
    formatted := seq(|formatted|, k requires 0 <= k < |formatted| => Underlined(formatted[k]));
    assert formatted == ShownNames(authors);
    if |formatted| > 1 {
      r := Ok(Join(", ", formatted[..|formatted| - 1]) + " and " + formatted[|formatted| - 1]);
      EnglishListJoin(formatted);
    } else if |formatted| == 1 {
      r := Ok(formatted[0]);
    } else {
      r := Err(IndexError("author list"));
    }
  }
}
